/**
 * The JavaScript string operations the chat client relies on, over `seq<char>`:
 * `trim`, `includes`, `split("\n\n")`, and string concatenation of lists.
 */
module Text {

  /** The end-of-stream token the client looks for in every fragment. */
  const DoneToken: string := "[DONE]"

  /** The event delimiter of the stream: one blank line. */
  const Separator: string := "\n\n"

  /** What starts every event of the stream: the server writes it, the client strips it. */
  const DataPrefix: string := "data: "

  /** JavaScript's WhiteSpace and LineTerminator code points: what `String.prototype.trim` removes. */
  predicate IsJsSpace(c: char) {
    var n := c as int;
    || n == 0x09 || n == 0x0A || n == 0x0B || n == 0x0C || n == 0x0D || n == 0x20
    || n == 0xA0 || n == 0x1680 || (0x2000 <= n <= 0x200A) || n == 0x2028 || n == 0x2029
    || n == 0x202F || n == 0x205F || n == 0x3000 || n == 0xFEFF
  }

  predicate AllSpace(s: string) {
    forall i :: 0 <= i < |s| ==> IsJsSpace(s[i])
  }

  lemma AllSpaceJoin(a: string, b: string)
    requires AllSpace(a) && AllSpace(b)
    ensures AllSpace(a + b)
  {
    forall k | 0 <= k < |a + b|
      ensures IsJsSpace((a + b)[k])
    {
      if k < |a| { assert (a + b)[k] == a[k]; } else { assert (a + b)[k] == b[k - |a|]; }
    }
  }

  /** The step of `TrimStart`: a leading space put back in front of what was dropped. */
  lemma TrimStartStep(s: string, r: string)
    requires |s| > 0 && IsJsSpace(s[0])
    requires |r| <= |s| - 1 && r == s[1..][|s| - 1 - |r|..] && AllSpace(s[1..][..|s| - 1 - |r|])
    ensures r == s[|s| - |r|..] && AllSpace(s[..|s| - |r|])
  {
    assert s[..|s| - |r|] == [s[0]] + s[1..][..|s| - 1 - |r|];
    AllSpaceJoin([s[0]], s[1..][..|s| - 1 - |r|]);
  }

  /** The step of `TrimEnd`: a trailing space put back after what was dropped. */
  lemma TrimEndStep(s: string, r: string)
    requires |s| > 0 && IsJsSpace(s[|s| - 1])
    requires |r| <= |s| - 1 && r == s[..|s| - 1][..|r|] && AllSpace(s[..|s| - 1][|r|..])
    ensures r == s[..|r|] && AllSpace(s[|r|..])
  {
    assert s[|r|..] == s[..|s| - 1][|r|..] + [s[|s| - 1]];
    AllSpaceJoin(s[..|s| - 1][|r|..], [s[|s| - 1]]);
  }

  /** `s.trimStart()`: the suffix left after dropping the leading white space. */
  function TrimStart(s: string): (r: string)
    ensures |r| <= |s| && r == s[|s| - |r|..]
    ensures AllSpace(s[..|s| - |r|])
    ensures |r| > 0 ==> !IsJsSpace(r[0])
    decreases |s|
  {
    if |s| > 0 && IsJsSpace(s[0]) then
      var r := TrimStart(s[1..]);
      TrimStartStep(s, r);
      r
    else
      s
  }

  /** `s.trimEnd()`: the prefix left after dropping the trailing white space. */
  function TrimEnd(s: string): (r: string)
    ensures |r| <= |s| && r == s[..|r|]
    ensures AllSpace(s[|r|..])
    ensures |r| > 0 ==> !IsJsSpace(r[|r| - 1])
    decreases |s|
  {
    if |s| > 0 && IsJsSpace(s[|s| - 1]) then
      var r := TrimEnd(s[..|s| - 1]);
      TrimEndStep(s, r);
      r
    else
      s
  }

  /** `r` is a stretch of `s` with only white space before and after it. */
  predicate Middle(s: string, r: string) {
    exists i :: 0 <= i <= |s| - |r| && r == s[i..i + |r|] && AllSpace(s[..i]) && AllSpace(s[i + |r|..])
  }

  /** `s.trim()`: `s` with the white space at both ends removed. The result is empty exactly
      when `s` is all white space, and otherwise starts and ends with a character that is not
      white space; `TrimIsMiddle` shows it is the stretch of `s` between the two runs. */
  function Trim(s: string): (r: string)
    ensures |r| == 0 <==> AllSpace(s)
    ensures |r| > 0 ==> !IsJsSpace(r[0]) && !IsJsSpace(r[|r| - 1])
  {
    var t := TrimStart(s);
    var r := TrimEnd(t);
    assert |r| == 0 ==> s == s[..|s| - |t|] + t[|r|..];
    assert |t| > 0 ==> t[0] == s[|s| - |t|];
    assert |r| > 0 ==> r[0] == t[0];
    r
  }

  /** What `trim` removes is white space, at the start and at the end only: the result is a
      stretch of `s` with nothing but white space before and after it. */
  lemma TrimIsMiddle(s: string)
    ensures Middle(s, Trim(s))
  {
    var t := TrimStart(s);
    TrimParts(s, t, TrimEnd(t));
  }

  /** Dropping the leading white space and then the trailing white space leaves the middle
      of the text, between two runs of white space. */
  lemma TrimParts(s: string, t: string, r: string)
    requires |t| <= |s| && t == s[|s| - |t|..] && AllSpace(s[..|s| - |t|])
    requires |r| <= |t| && r == t[..|r|] && AllSpace(t[|r|..])
    ensures Middle(s, r)
  {
    var i := |s| - |t|;
    assert s[i + |r|..] == t[|r|..];
    assert r == s[i..i + |r|];
  }

  /** Trimming leaves a string alone when it neither starts nor ends with white space. */
  lemma TrimUnchanged(s: string)
    requires |s| > 0 && !IsJsSpace(s[0]) && !IsJsSpace(s[|s| - 1])
    ensures Trim(s) == s
  {
  }

  predicate HasPrefix(s: string, p: string) {
    |p| <= |s| && s[..|p|] == p
  }

  /** `p` occurs in `s` starting at index `i`. */
  predicate OccursAt(s: string, p: string, i: int) {
    0 <= i && i + |p| <= |s| && s[i..i + |p|] == p
  }

  /** `s.includes(p)`, decided by scanning `s` from the left. */
  predicate Contains(s: string, p: string)
    decreases |s|
  {
    HasPrefix(s, p) || (|s| > 0 && Contains(s[1..], p))
  }

  /** A successful scan has found a position where `p` occurs. */
  lemma {:induction false} OccurrenceOfScan(s: string, p: string) returns (i: nat)
    requires Contains(s, p)
    ensures OccursAt(s, p, i)
    decreases |s|
  {
    if HasPrefix(s, p) {
      i := 0;
    } else {
      var j := OccurrenceOfScan(s[1..], p);
      assert s[1..][j..j + |p|] == s[j + 1..j + 1 + |p|];
      i := j + 1;
    }
  }

  /** Every occurrence of `p` is found by the scan. */
  lemma {:induction false} ScanFindsOccurrence(s: string, p: string, i: int)
    requires OccursAt(s, p, i)
    ensures Contains(s, p)
    decreases i
  {
    if i > 0 {
      assert s[1..][i - 1..i - 1 + |p|] == s[i..i + |p|];
      ScanFindsOccurrence(s[1..], p, i - 1);
    }
  }

  /** The scan agrees with the positional definition of an occurrence. */
  lemma ContainsIffOccurs(s: string, p: string)
    ensures Contains(s, p) <==> exists i :: OccursAt(s, p, i)
  {
    if Contains(s, p) {
      var i := OccurrenceOfScan(s, p);
    }
    forall i | OccursAt(s, p, i)
      ensures Contains(s, p)
    {
      ScanFindsOccurrence(s, p, i);
    }
  }

  /** An occurrence of `p` in `a + b` that is in neither part alone must cover the join,
      so a character next to the join that `p` does not use rules it out. */
  lemma {:induction false} ContainsAcrossJoin(a: string, b: string, p: string)
    requires !Contains(a, p) && !Contains(b, p)
    requires (|a| > 0 && a[|a| - 1] !in p) || (|b| > 0 && b[0] !in p)
    ensures !Contains(a + b, p)
    decreases |a|
  {
    if |a| == 0 {
      assert a + b == b;
    } else {
      assert |p| > 0;
      if |p| <= |a| {
        assert (a + b)[..|p|] == a[..|p|];
      } else if |p| <= |a + b| {
        if |b| > 0 && b[0] !in p {
          assert (a + b)[|a|] == b[0];
          assert p[|a|] in p;
        } else {
          assert (a + b)[|a| - 1] == a[|a| - 1];
          assert p[|a| - 1] in p;
        }
      }
      assert !HasPrefix(a + b, p);
      assert (a + b)[1..] == a[1..] + b;
      if |a| == 1 && !(|b| > 0 && b[0] !in p) {
        assert a[1..] + b == b;
      } else {
        ContainsAcrossJoin(a[1..], b, p);
      }
    }
  }

  /** Text around an occurrence does not hide it. */
  lemma ContainsInside(a: string, x: string, b: string, p: string)
    requires Contains(x, p)
    ensures Contains(a + x + b, p)
  {
    var i := OccurrenceOfScan(x, p);
    assert (a + x + b)[|a| + i..|a| + i + |p|] == x[i..i + |p|];
    ScanFindsOccurrence(a + x + b, p, |a| + i);
  }

  /** Text after an occurrence does not hide it. */
  lemma ContainsFront(x: string, b: string, p: string)
    requires Contains(x, p)
    ensures Contains(x + b, p)
  {
    ContainsInside("", x, b, p);
    assert "" + x + b == x + b;
  }

  /** Joining two texts with a separator whose first and last characters the pattern does
      not use creates no occurrence of it. */
  lemma NoneAcrossSeparator(a: string, sep: string, b: string, p: string)
    requires !Contains(a, p) && !Contains(sep, p) && !Contains(b, p)
    requires |sep| > 0 && sep[0] !in p && sep[|sep| - 1] !in p
    ensures !Contains(a + sep + b, p)
  {
    ContainsAcrossJoin(a, sep, p);
    ContainsAcrossJoin(a + sep, b, p);
  }

  /** A string without `[` cannot contain the end-of-stream token. */
  lemma NoBracketNoDone(s: string)
    requires '[' !in s
    ensures !Contains(s, DoneToken)
  {
    forall i | 0 <= i && i + |DoneToken| <= |s|
      ensures !OccursAt(s, DoneToken, i)
    {
      assert s[i..i + |DoneToken|][0] == s[i];
      assert s[i] in s;
    }
    ContainsIffOccurs(s, DoneToken);
  }

  /** A prefix without `[` that ends in a character the token does not use cannot create an
      occurrence of the token. */
  lemma NoDoneAfterPrefix(prefix: string, s: string)
    requires '[' !in prefix && |prefix| > 0 && prefix[|prefix| - 1] !in DoneToken
    requires !Contains(s, DoneToken)
    ensures !Contains(prefix + s, DoneToken)
  {
    NoBracketNoDone(prefix);
    ContainsAcrossJoin(prefix, s, DoneToken);
  }

  /** `s.split("\n\n")`: the pieces between the leftmost non-overlapping separators.
      A separator starting at the first character is taken; otherwise that character
      belongs to the first piece. */
  function Split(s: string): (r: seq<string>)
    ensures |r| >= 1
    decreases |s|
  {
    if |s| < 2 then [s]
    else if s[0] == '\n' && s[1] == '\n' then [""] + Split(s[2..])
    else
      var rest := Split(s[1..]);
      [[s[0]] + rest[0]] + rest[1..]
  }

  /** The pieces joined back with the separator. */
  function Join(pieces: seq<string>): string
    decreases |pieces|
  {
    if |pieces| == 0 then ""
    else if |pieces| == 1 then pieces[0]
    else pieces[0] + Separator + Join(pieces[1..])
  }

  /** Splitting loses nothing: joining the pieces gives back the text. */
  lemma {:induction false} SplitJoin(s: string)
    ensures Join(Split(s)) == s
    decreases |s|
  {
    if |s| < 2 {
      assert Split(s) == [s];
    } else if s[0] == '\n' && s[1] == '\n' {
      SplitJoin(s[2..]);
      SplitJoinAtSeparator(s);
    } else {
      SplitJoin(s[1..]);
      SplitJoinAtChar(s);
    }
  }

  /** The step of `SplitJoin` for a text that starts with a separator. */
  lemma SplitJoinAtSeparator(s: string)
    requires |s| >= 2 && s[0] == '\n' && s[1] == '\n'
    requires Join(Split(s[2..])) == s[2..]
    ensures Join(Split(s)) == s
  {
    SplitOnSeparator(s);
    JoinCons("", Split(s[2..]));
    assert s[..2] == Separator;
    assert s == s[..2] + s[2..];
  }

  /** The step of `SplitJoin` for a text whose first character joins the first piece. */
  lemma SplitJoinAtChar(s: string)
    requires |s| >= 2 && !(s[0] == '\n' && s[1] == '\n')
    requires Join(Split(s[1..])) == s[1..]
    ensures Join(Split(s)) == s
  {
    SplitOnChar(s);
    JoinFirstExtended(s[0], Split(s[1..]));
    assert s == [s[0]] + s[1..];
  }

  /** A character put before the first piece comes first in the joined text. */
  lemma JoinFirstExtended(c: char, rest: seq<string>)
    requires |rest| >= 1
    ensures Join([[c] + rest[0]] + rest[1..]) == [c] + Join(rest)
  {
    if |rest| == 1 {
      assert rest == [rest[0]];
      assert [[c] + rest[0]] + rest[1..] == [[c] + rest[0]];
    } else {
      JoinCons(rest[0], rest[1..]);
      assert [rest[0]] + rest[1..] == rest;
      JoinCons([c] + rest[0], rest[1..]);
      AppendAssoc([c], rest[0], Separator + Join(rest[1..]));
    }
  }

  lemma AppendAssoc(a: string, b: string, c: string)
    ensures (a + b) + c == a + (b + c)
  {
  }

  /** One unfolding of `Join` for more than one piece. */
  lemma JoinCons(x: string, q: seq<string>)
    requires |q| >= 1
    ensures Join([x] + q) == x + Separator + Join(q)
    ensures Join([x] + q) == x + (Separator + Join(q))
  {
    assert ([x] + q)[1..] == q;
    AppendAssoc(x, Separator, Join(q));
  }

  /** One unfolding of `Split` when the text does not start with a separator. */
  lemma SplitOnChar(s: string)
    requires |s| >= 2 && !(s[0] == '\n' && s[1] == '\n')
    ensures var q := Split(s[1..]);
            Split(s) == [[s[0]] + q[0]] + q[1..]
  {
  }

  /** Appending text only extends the last piece onwards: every complete piece of `s`
      is a complete piece of `s + c`, and what follows is the split of the last piece
      of `s` with `c` appended. This is what lets the client keep only the last piece
      as its carry buffer. */
  lemma {:induction false} SplitExtend(s: string, c: string)
    ensures var p := Split(s);
            Split(s + c) == p[..|p| - 1] + Split(p[|p| - 1] + c)
    decreases |s|
  {
    var p := Split(s);
    if |s| < 2 {
      assert p[..|p| - 1] == [];
    } else if s[0] == '\n' && s[1] == '\n' {
      SplitExtend(s[2..], c);
      SplitExtendAtSeparator(s, c);
    } else {
      SplitExtend(s[1..], c);
      SplitExtendAtChar(s, c);
    }
  }

  /** One unfolding of `Split` when the text starts with a separator. */
  lemma SplitOnSeparator(s: string)
    requires |s| >= 2 && s[0] == '\n' && s[1] == '\n'
    ensures Split(s) == [""] + Split(s[2..])
  {
  }

  /** The step of `SplitExtend` for a text that starts with a separator. */
  lemma SplitExtendAtSeparator(s: string, c: string)
    requires |s| >= 2 && s[0] == '\n' && s[1] == '\n'
    requires var q := Split(s[2..]);
             Split(s[2..] + c) == q[..|q| - 1] + Split(q[|q| - 1] + c)
    ensures var p := Split(s);
            Split(s + c) == p[..|p| - 1] + Split(p[|p| - 1] + c)
  {
    var q := Split(s[2..]);
    var p := Split(s);
    SplitOnSeparator(s);
    assert (s + c)[0] == '\n' && (s + c)[1] == '\n';
    SplitOnSeparator(s + c);
    assert (s + c)[2..] == s[2..] + c;
    assert p[|p| - 1] == q[|q| - 1];
    assert p[..|p| - 1] == [""] + q[..|q| - 1];
    assert Split(s + c) == [""] + Split(s[2..] + c);
    assert ([""] + q[..|q| - 1]) + Split(q[|q| - 1] + c) == [""] + (q[..|q| - 1] + Split(q[|q| - 1] + c));
  }

  /** The list shape behind `SplitExtendAtChar`: a character joined to the first piece
      does not disturb what follows the last complete piece. */
  lemma JoinFirstPiece(a: string, q: seq<string>, tail: seq<string>)
    requires |q| >= 2
    ensures var r := q[..|q| - 1] + tail;
            var p := [a + q[0]] + q[1..];
            [a + r[0]] + r[1..] == p[..|p| - 1] + tail && p[|p| - 1] == q[|q| - 1]
  {
    var r := q[..|q| - 1] + tail;
    assert r[0] == q[0];
    assert r[1..] == q[1..|q| - 1] + tail;
  }

  /** The step of `SplitExtend` for a text whose first character joins the first piece. */
  lemma SplitExtendAtChar(s: string, c: string)
    requires |s| >= 2 && !(s[0] == '\n' && s[1] == '\n')
    requires var q := Split(s[1..]);
             Split(s[1..] + c) == q[..|q| - 1] + Split(q[|q| - 1] + c)
    ensures var p := Split(s);
            Split(s + c) == p[..|p| - 1] + Split(p[|p| - 1] + c)
  {
    if |Split(s[1..])| == 1 {
      SplitOneWhole(s);
    } else {
      SplitExtendAtCharMany(s, c);
    }
  }

  /** A text whose first character joins a rest that is one piece is one piece itself. */
  lemma SplitOneWhole(s: string)
    requires |s| >= 2 && !(s[0] == '\n' && s[1] == '\n')
    requires |Split(s[1..])| == 1
    ensures Split(s) == [s]
  {
    SplitOnChar(s);
    SplitSingle(s[1..]);
    assert [s[0]] + s[1..] == s;
  }

  /** `SplitExtendAtChar` when the rest of the text holds a separator. */
  lemma SplitExtendAtCharMany(s: string, c: string)
    requires |s| >= 2 && !(s[0] == '\n' && s[1] == '\n')
    requires |Split(s[1..])| >= 2
    requires var q := Split(s[1..]);
             Split(s[1..] + c) == q[..|q| - 1] + Split(q[|q| - 1] + c)
    ensures var p := Split(s);
            Split(s + c) == p[..|p| - 1] + Split(p[|p| - 1] + c)
  {
    var q := Split(s[1..]);
    SplitOnChar(s);
    SplitOnCharExtended(s, c);
    JoinFirstPiece([s[0]], q, Split(q[|q| - 1] + c));
  }

  /** `SplitOnChar` for the text with `c` appended. */
  lemma SplitOnCharExtended(s: string, c: string)
    requires |s| >= 2 && !(s[0] == '\n' && s[1] == '\n')
    ensures var q := Split(s[1..] + c);
            Split(s + c) == [[s[0]] + q[0]] + q[1..]
  {
    assert (s + c)[0] == s[0] && (s + c)[1] == s[1];
    assert (s + c)[1..] == s[1..] + c;
    SplitOnChar(s + c);
  }

  /** A text that splits into one piece is that piece. */
  lemma SplitSingle(s: string)
    requires |Split(s)| == 1
    ensures Split(s) == [s]
  {
    SplitJoin(s);
  }

  /** The last piece of a split holds no separator: splitting it again gives just itself. */
  lemma {:induction false} SplitLastPiece(s: string)
    ensures var p := Split(s);
            |Split(p[|p| - 1])| == 1
    decreases |s|
  {
    if |s| < 2 {
    } else if s[0] == '\n' && s[1] == '\n' {
      SplitLastPiece(s[2..]);
    } else {
      var q := Split(s[1..]);
      SplitOnChar(s);
      if |q| == 1 {
        SplitSingle(s[1..]);
        assert [s[0]] + s[1..] == s;
        assert Split(s) == [s];
      } else {
        SplitLastPiece(s[1..]);
      }
    }
  }

  /** No piece of a split holds a separator: splitting any piece again gives just itself. */
  lemma {:induction false} SplitPiecesAreWhole(s: string)
    ensures forall k :: 0 <= k < |Split(s)| ==> |Split(Split(s)[k])| == 1
    decreases |s|
  {
    if |s| < 2 {
      assert Split(s) == [s];
    } else if s[0] == '\n' && s[1] == '\n' {
      SplitOnSeparator(s);
      SplitPiecesAreWhole(s[2..]);
      assert Split("") == [""];
      assert forall k :: 0 < k < |Split(s)| ==> Split(s)[k] == Split(s[2..])[k - 1];
    } else {
      var q := Split(s[1..]);
      SplitOnChar(s);
      SplitPiecesAreWhole(s[1..]);
      SplitFirstIsPrefix(s[1..]);
      assert |q[0]| > 0 ==> q[0][0] == s[1];
      JoinedPieceIsWhole(s[0], q[0]);
      assert forall k :: 0 < k < |Split(s)| ==> Split(s)[k] == q[k];
    }
  }

  /** `split` takes the leftmost separator: no complete piece ends with a line feed, since
      that line feed and the separator after it would have started the separator one
      character earlier. */
  lemma {:induction false} SplitPiecesEndClean(s: string)
    ensures forall k :: 0 <= k < |Split(s)| - 1 ==>
              |Split(s)[k]| == 0 || Split(s)[k][|Split(s)[k]| - 1] != '\n'
    decreases |s|
  {
    if |s| < 2 {
      assert Split(s) == [s];
    } else if s[0] == '\n' && s[1] == '\n' {
      SplitOnSeparator(s);
      SplitPiecesEndClean(s[2..]);
      assert forall k :: 0 < k < |Split(s)| ==> Split(s)[k] == Split(s[2..])[k - 1];
    } else {
      var q := Split(s[1..]);
      SplitOnChar(s);
      SplitPiecesEndClean(s[1..]);
      if |q| >= 2 && q[0] == "" {
        EmptyFirstPiece(s[1..]);
      }
      assert forall k :: 0 < k < |Split(s)| ==> Split(s)[k] == q[k];
      assert |q| >= 2 && |q[0]| > 0 ==> Split(s)[0][|Split(s)[0]| - 1] == q[0][|q[0]| - 1];
    }
  }

  /** A split whose first piece is empty and that has more than one piece starts with the
      separator. */
  lemma EmptyFirstPiece(x: string)
    requires |Split(x)| >= 2 && Split(x)[0] == ""
    ensures |x| >= 2 && x[0] == '\n' && x[1] == '\n'
  {
    var p := Split(x);
    SplitJoin(x);
    assert x == p[0] + Separator + Join(p[1..]);
  }

  /** The first piece of a split is a prefix of the text. */
  lemma SplitFirstIsPrefix(x: string)
    ensures |Split(x)[0]| <= |x| && x[..|Split(x)[0]|] == Split(x)[0]
  {
    var p := Split(x);
    SplitJoin(x);
    if |p| > 1 {
      assert x == p[0] + (Separator + Join(p[1..]));
    }
  }

  /** A character put in front of a piece without a separator keeps it one piece, unless the
      two together start a separator. */
  lemma JoinedPieceIsWhole(c: char, y: string)
    requires |Split(y)| == 1
    requires !(c == '\n' && |y| > 0 && y[0] == '\n')
    ensures |Split([c] + y)| == 1
  {
    if |y| > 0 {
      var s := [c] + y;
      assert s[1..] == y;
      SplitOnChar(s);
    }
  }

  /** A fragment free of line feeds, followed by the separator, is split off as one piece. */
  lemma {:induction false} SplitAfterFragment(f: string, rest: string)
    requires '\n' !in f
    ensures Split(f + Separator + rest) == [f] + Split(rest)
    decreases |f|
  {
    var s := f + Separator + rest;
    if |f| == 0 {
      assert s[2..] == rest;
    } else {
      assert s[1..] == f[1..] + Separator + rest;
      assert f[0] in f;
      SplitAfterFragment(f[1..], rest);
      assert [s[0]] + f[1..] == f;
    }
  }
  /** A text splits into one piece exactly when it holds no separator: so "splits into
      itself alone" means "contains no `\n\n`". */
  lemma {:induction false} OnePieceIffNoSeparator(x: string)
    ensures |Split(x)| == 1 <==> !Contains(x, Separator)
    decreases |x|
  {
    if |x| < 2 {
      assert !HasPrefix(x, Separator);
      if |x| == 1 {
        assert !HasPrefix(x[1..], Separator);
      }
    } else if x[0] == '\n' && x[1] == '\n' {
      SplitOnSeparator(x);
      assert x[..2] == Separator;
    } else {
      SplitOnChar(x);
      assert x[..2] != Separator by {
        assert x[..2][0] == x[0] && x[..2][1] == x[1];
      }
      OnePieceIffNoSeparator(x[1..]);
    }
  }

  /** No piece of a split contains the separator. */
  lemma SplitPiecesHoldNoSeparator(s: string)
    ensures forall k :: 0 <= k < |Split(s)| ==> !Contains(Split(s)[k], Separator)
  {
    SplitPiecesAreWhole(s);
    forall k | 0 <= k < |Split(s)|
      ensures !Contains(Split(s)[k], Separator)
    {
      OnePieceIffNoSeparator(Split(s)[k]);
    }
  }

  /** A piece that holds no separator and does not end with a line feed, followed by the
      separator, is split off as one piece: the separator after it is the leftmost one. */
  lemma {:induction false} SplitAfterPiece(a: string, rest: string)
    requires !Contains(a, Separator)
    requires |a| == 0 || a[|a| - 1] != '\n'
    ensures Split(a + Separator + rest) == [a] + Split(rest)
    decreases |a|
  {
    var s := a + Separator + rest;
    if |a| == 0 {
      assert s[2..] == rest;
    } else {
      assert s[1..] == a[1..] + Separator + rest;
      assert !(s[0] == '\n' && s[1] == '\n') by {
        if |a| >= 2 {
          assert a[..2] != Separator;
        }
      }
      SplitOnChar(s);
      assert !Contains(a[1..], Separator);
      SplitAfterPiece(a[1..], rest);
      assert [s[0]] + a[1..] == a;
    }
  }

  /** `split` is the only way to cut a text into pieces that join back to it, hold no
      separator, and, all but the last, do not end with a line feed. */
  lemma {:induction false} SplitUnique(s: string, p: seq<string>)
    requires |p| >= 1 && Join(p) == s
    requires forall k :: 0 <= k < |p| ==> !Contains(p[k], Separator)
    requires forall k :: 0 <= k < |p| - 1 ==> |p[k]| == 0 || p[k][|p[k]| - 1] != '\n'
    ensures Split(s) == p
    decreases |p|
  {
    if |p| == 1 {
      OnePieceIffNoSeparator(s);
      SplitSingle(s);
    } else {
      var tail := p[1..];
      assert s == p[0] + Separator + Join(tail);
      assert !Contains(p[0], Separator);
      SplitAfterPiece(p[0], Join(tail));
      assert forall k :: 0 <= k < |tail| ==> tail[k] == p[k + 1];
      SplitUnique(Join(tail), tail);
      assert p == [p[0]] + tail;
    }
  }


  /** The concatenation of a list of strings. */
  function Concat(ss: seq<string>): string
    decreases |ss|
  {
    if |ss| == 0 then "" else ss[0] + Concat(ss[1..])
  }

  lemma {:induction false} ConcatAppend(a: seq<string>, b: seq<string>)
    ensures Concat(a + b) == Concat(a) + Concat(b)
    decreases |a|
  {
    if |a| == 0 {
      assert a + b == b;
    } else {
      assert (a + b)[1..] == a[1..] + b;
      ConcatAppend(a[1..], b);
    }
  }
}
