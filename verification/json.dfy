/**
 * The JSON records of the chat stream. The server writes them with Python's
 * `json.dumps` under its default settings (non-ASCII escaped, `", "` and `": "` as
 * separators, keys in insertion order); the client reads them back with `JSON.parse`.
 * `Parse` accepts JSON white space between tokens, the fields in any order and
 * repeated fields (the last one wins), but only the fields of `Record` with the
 * value types the protocol gives them.
 */
module Json {
  import opened Wrappers
  import opened Text

  /** One streamed record. A field the server did not write is `None`. */
  datatype Record = Record(
    content: Option<string>,
    isStreaming: Option<bool>,
    error: Option<string>,
    model: Option<string>,
    completionTokens: Option<nat>)

  const EmptyRecord: Record := Record(None, None, None, None, None)

  // ---------------------------------------------------------------------------
  // Strings

  function HexDigit(d: nat): char
    requires d < 16
  {
    if d < 10 then ('0' as int + d) as char else ('a' as int + d - 10) as char
  }

  /** The four lower-case hex digits of a UTF-16 code unit. */
  function Hex4(n: nat): (r: string)
    requires n < 0x1_0000
    ensures |r| == 4
  {
    [HexDigit(n / 0x1000), HexDigit(n / 0x100 % 0x10), HexDigit(n / 0x10 % 0x10), HexDigit(n % 0x10)]
  }

  /** The characters that can follow the backslash of an escape sequence. */
  predicate IsEscapeSyntax(c: char) {
    || c == '\\' || c == '"' || c == '/' || c == 'n' || c == 'r' || c == 't' || c == 'u'
    || ('0' <= c <= '9') || ('a' <= c <= 'f')
  }

  /** A character `json.dumps` writes as itself: printable ASCII except quote and backslash. */
  predicate IsPlain(c: char) {
    0x20 <= c as int <= 0x7E && c != '"' && c != '\\'
  }

  /** How `json.dumps` writes one character inside a string: itself when plain, a short
      escape for quote, backslash and five control characters, `\uXXXX` for the other
      code points below 0x10000, and a UTF-16 surrogate pair of `\uXXXX` above. */
  function EscapeChar(c: char): (r: string)
    ensures |r| > 0
    ensures r == [c] <==> IsPlain(c)
    ensures r != [c] ==> r[0] == '\\' && forall k :: 1 <= k < |r| ==> IsEscapeSyntax(r[k])
  {
    var n := c as int;
    if IsPlain(c) then [c]
    else if c == '"' then "\\\""
    else if c == '\\' then "\\\\"
    else if c == '\n' then "\\n"
    else if c == '\r' then "\\r"
    else if c == '\t' then "\\t"
    else if n == 0x08 then "\\b"
    else if n == 0x0C then "\\f"
    else if n < 0x1_0000 then "\\u" + Hex4(n)
    else PairEscape(n)
  }

  /** The UTF-16 surrogate pair of a code point above 0xFFFF, each unit as `\uXXXX`. */
  function PairEscape(n: int): (r: string)
    requires 0x1_0000 <= n < 0x11_0000
    ensures |r| == 12 && r[0] == '\\' && r[1] == 'u' && r[6] == '\\' && r[7] == 'u'
  {
    var v := n - 0x1_0000;
    "\\u" + Hex4(0xD800 + v / 0x400) + "\\u" + Hex4(0xDC00 + v % 0x400)
  }

  /** The body of a JSON string literal, without the quotes. */
  function Escape(s: string): string
    decreases |s|
  {
    if |s| == 0 then "" else EscapeChar(s[0]) + Escape(s[1..])
  }

  function EncodeString(s: string): string {
    "\"" + Escape(s) + "\""
  }

  function HexValue(c: char): (r: Option<nat>)
    ensures r.Some? ==> r.value < 16
  {
    if '0' <= c <= '9' then Some(c as int - '0' as int)
    else if 'a' <= c <= 'f' then Some(c as int - 'a' as int + 10)
    else if 'A' <= c <= 'F' then Some(c as int - 'A' as int + 10)
    else None
  }

  /** The code unit written by four hex digits, of either case. */
  function ParseHex4(s: string): (r: Option<nat>)
    requires |s| == 4
    ensures r.Some? ==> r.value < 0x1_0000
  {
    var a :- HexValue(s[0]);
    var b :- HexValue(s[1]);
    var c :- HexValue(s[2]);
    var d :- HexValue(s[3]);
    Some(HexPlace(HexPlace(HexPlace(a, b), c), d))
  }

  /** A number followed by one more hex digit. */
  function HexPlace(high: nat, d: nat): (r: nat)
    requires d < 16
    ensures r < 16 * (high + 1)
  {
    high * 0x10 + d
  }

  predicate IsHighSurrogate(u: nat) { 0xD800 <= u < 0xDC00 }

  predicate IsLowSurrogate(u: nat) { 0xDC00 <= u < 0xE000 }

  /** The escape sequence after a backslash. A `\u` high surrogate must be followed by a
      `\u` low surrogate; the pair stands for one code point above 0xFFFF. */
  function ParseEscape(s: string): (r: Option<(char, string)>)
    ensures r.Some? ==> |r.value.1| < |s|
  {
    if |s| == 0 then None
    else if s[0] == '"' then Some(('"', s[1..]))
    else if s[0] == '\\' then Some(('\\', s[1..]))
    else if s[0] == '/' then Some(('/', s[1..]))
    else if s[0] == 'b' then Some((0x08 as char, s[1..]))
    else if s[0] == 'f' then Some((0x0C as char, s[1..]))
    else if s[0] == 'n' then Some(('\n', s[1..]))
    else if s[0] == 'r' then Some(('\r', s[1..]))
    else if s[0] == 't' then Some(('\t', s[1..]))
    else if s[0] != 'u' || |s| < 5 then None
    else
      var u :- ParseHex4(s[1..5]);
      if u < 0xD800 || 0xE000 <= u then Some((u as char, s[5..]))
      else if IsLowSurrogate(u) || |s| < 11 || s[5] != '\\' || s[6] != 'u' then None
      else
        var l :- ParseHex4(s[7..11]);
        if IsLowSurrogate(l) then Some(((0x1_0000 + (u - 0xD800) * 0x400 + (l - 0xDC00)) as char, s[11..]))
        else None
  }

  /** One character of a string body: an escape, or any character but quote, backslash
      and the control characters JSON forbids unescaped. */
  function ParseChar(s: string): (r: Option<(char, string)>)
    requires |s| > 0
    ensures r.Some? ==> |r.value.1| < |s|
  {
    if s[0] == '\\' then ParseEscape(s[1..])
    else if s[0] == '"' || s[0] as int < 0x20 then None
    else Some((s[0], s[1..]))
  }

  /** A string body up to and including its closing quote; returns the text and what follows. */
  function ParseStringBody(s: string): (r: Option<(string, string)>)
    ensures r.Some? ==> |r.value.1| < |s|
    decreases |s|
  {
    if |s| == 0 then None
    else if s[0] == '"' then Some(("", s[1..]))
    else
      var p :- ParseChar(s);
      var q :- ParseStringBody(p.1);
      Some(([p.0] + q.0, q.1))
  }

  /** A string literal with its opening quote. */
  function ParseString(s: string): (r: Option<(string, string)>)
    ensures r.Some? ==> |r.value.1| < |s|
  {
    if |s| == 0 || s[0] != '"' then None else ParseStringBody(s[1..])
  }

  lemma ParseHex4OfHex4(n: nat)
    requires n < 0x1_0000
    ensures ParseHex4(Hex4(n)) == Some(n)
  {
    var h := Hex4(n);
    HexValueOfDigit(n / 0x1000);
    HexValueOfDigit(n / 0x100 % 0x10);
    HexValueOfDigit(n / 0x10 % 0x10);
    HexValueOfDigit(n % 0x10);
    HexPlaceOfDigits(n);
  }

  lemma HexValueOfDigit(d: nat)
    requires d < 16
    ensures HexValue(HexDigit(d)) == Some(d)
  {
  }

  /** The four hex digits of `n`, from the highest, put back together give `n`. */
  lemma HexPlaceOfDigits(n: nat)
    requires n < 0x1_0000
    ensures HexPlace(HexPlace(HexPlace(n / 0x1000, n / 0x100 % 0x10), n / 0x10 % 0x10), n % 0x10) == n
  {
    assert n / 0x1000 * 0x10 + n / 0x100 % 0x10 == n / 0x100;
    assert n / 0x100 * 0x10 + n / 0x10 % 0x10 == n / 0x10;
  }

  /** Reading back one escaped character gives the character and leaves the rest alone. */
  lemma ParseCharOfEscapeChar(c: char, t: string)
    ensures ParseChar(EscapeChar(c) + t) == Some((c, t))
  {
    var n := c as int;
    if IsPlain(c) {
      assert EscapeChar(c) + t == [c] + t;
    } else if c == '"' || c == '\\' || c == '\n' || c == '\r' || c == '\t' || n == 0x08 || n == 0x0C {
      ParseShortEscape(c, t);
    } else if n < 0x1_0000 {
      ParseUnitEscape(c, t);
    } else {
      ParsePairEscape(c, t);
    }
  }

  lemma ParseShortEscape(c: char, t: string)
    requires !IsPlain(c)
    requires c == '"' || c == '\\' || c == '\n' || c == '\r' || c == '\t' || c as int == 0x08 || c as int == 0x0C
    ensures ParseChar(EscapeChar(c) + t) == Some((c, t))
  {
    var s := EscapeChar(c) + t;
    assert |EscapeChar(c)| == 2;
    assert s[1..] == [EscapeChar(c)[1]] + t;
  }

  lemma ParseUnitEscape(c: char, t: string)
    requires !IsPlain(c) && c != '"' && c != '\\' && c != '\n' && c != '\r' && c != '\t'
    requires c as int != 0x08 && c as int != 0x0C && c as int < 0x1_0000
    ensures ParseChar(EscapeChar(c) + t) == Some((c, t))
  {
    assert EscapeChar(c) == "\\u" + Hex4(c as int);
    ParseOfUnitEscape(c as int, t);
  }

  /** One `\u` escape of a code unit that is not a surrogate reads back as that character. */
  lemma ParseOfUnitEscape(n: int, t: string)
    requires 0 <= n < 0xD800 || 0xE000 <= n < 0x1_0000
    ensures ParseChar("\\u" + Hex4(n) + t) == Some((n as char, t))
  {
    var e := ['u'] + (Hex4(n) + t);
    assert "\\u" + Hex4(n) + t == "\\" + e;
    ParseCharOfBackslash(e);
    assert e[1..5] == Hex4(n);
    ParseHex4OfHex4(n);
    assert e[5..] == t;
  }

  lemma ParsePairEscape(c: char, t: string)
    requires c as int >= 0x1_0000
    ensures ParseChar(EscapeChar(c) + t) == Some((c, t))
  {
    assert EscapeChar(c) == PairEscape(c as int);
    ParseOfPairEscape(c as int, t);
  }

  /** The two `\u` escapes of a code point above 0xFFFF read back as that code point. */
  lemma ParseOfPairEscape(n: int, t: string)
    requires 0x1_0000 <= n < 0x11_0000
    ensures ParseChar(PairEscape(n) + t) == Some((n as char, t))
  {
    var v := n - 0x1_0000;
    var hi := 0xD800 + v / 0x400;
    var lo := 0xDC00 + v % 0x400;
    SurrogatePair(n);
    PairEscapeShape(n, t);
    ParseOfSurrogates(PairEscape(n) + t, n, hi, lo, t);
  }

  /** A high and a low surrogate escape, read back as the code point they encode. */
  lemma ParseOfSurrogates(s: string, n: int, hi: nat, lo: nat, t: string)
    requires 0x1_0000 <= n < 0x11_0000
    requires IsHighSurrogate(hi) && IsLowSurrogate(lo)
    requires 0x1_0000 + (hi - 0xD800) * 0x400 + (lo - 0xDC00) == n
    requires s == "\\" + (['u'] + (Hex4(hi) + "\\u" + Hex4(lo) + t))
    ensures ParseChar(s) == Some((n as char, t))
  {
    ParseHex4OfHex4(hi);
    ParseHex4OfHex4(lo);
    ParseEscapeOfPair(Hex4(hi), Hex4(lo), t);
    ParseCharOfBackslash(['u'] + (Hex4(hi) + "\\u" + Hex4(lo) + t));
  }

  lemma ParseCharOfBackslash(e: string)
    ensures ParseChar("\\" + e) == ParseEscape(e)
  {
    assert ("\\" + e)[1..] == e;
  }

  lemma PairEscapeShape(n: int, t: string)
    requires 0x1_0000 <= n < 0x11_0000
    ensures var v := n - 0x1_0000;
            var hi := 0xD800 + v / 0x400;
            var lo := 0xDC00 + v % 0x400;
            PairEscape(n) + t == "\\" + (['u'] + (Hex4(hi) + "\\u" + Hex4(lo) + t))
  {
    var v := n - 0x1_0000;
    var a := Hex4(0xD800 + v / 0x400);
    var b := Hex4(0xDC00 + v % 0x400);
    assert "\\u" + a == "\\" + (['u'] + a);
    AppendAssoc("\\u" + a, "\\u" + b, t);
  }

  /** The two code units `json.dumps` writes for a code point above 0xFFFF are a high and
      a low surrogate that together stand for it again. */
  lemma SurrogatePair(n: int)
    requires 0x1_0000 <= n < 0x11_0000
    ensures var v := n - 0x1_0000;
            var hi := 0xD800 + v / 0x400;
            var lo := 0xDC00 + v % 0x400;
            && IsHighSurrogate(hi) && IsLowSurrogate(lo)
            && 0x1_0000 + (hi - 0xD800) * 0x400 + (lo - 0xDC00) == n
  {
  }

  /** A `\u` high surrogate followed by a `\u` low surrogate reads as one character. */
  lemma ParseEscapeOfPair(h1: string, h2: string, t: string)
    requires |h1| == 4 && |h2| == 4
    requires ParseHex4(h1).Some? && IsHighSurrogate(ParseHex4(h1).value)
    requires ParseHex4(h2).Some? && IsLowSurrogate(ParseHex4(h2).value)
    ensures var hi := ParseHex4(h1).value;
            var lo := ParseHex4(h2).value;
            ParseEscape(['u'] + (h1 + "\\u" + h2 + t)) ==
              Some(((0x1_0000 + (hi - 0xD800) * 0x400 + (lo - 0xDC00)) as char, t))
  {
    var e := ['u'] + (h1 + "\\u" + h2 + t);
    assert e[1..5] == h1;
    assert e[5] == '\\' && e[6] == 'u';
    assert e[7..11] == h2;
    assert e[11..] == t;
  }

  /** String round trip: the body `json.dumps` writes, followed by the closing quote,
      reads back as the original text, whatever follows it. */
  lemma {:induction false} ParseStringBodyOfEscape(x: string, t: string)
    ensures ParseStringBody(Escape(x) + "\"" + t) == Some((x, t))
    decreases |x|
  {
    var s := Escape(x) + "\"" + t;
    if |x| == 0 {
      assert s == "\"" + t;
    } else {
      var rest := Escape(x[1..]) + "\"" + t;
      assert s == EscapeChar(x[0]) + rest;
      ParseCharOfEscapeChar(x[0], rest);
      ParseStringBodyOfEscape(x[1..], t);
      assert [x[0]] + x[1..] == x;
    }
  }

  lemma ParseStringOfEncode(x: string, t: string)
    ensures ParseString(EncodeString(x) + t) == Some((x, t))
  {
    assert (EncodeString(x) + t)[1..] == Escape(x) + "\"" + t;
    ParseStringBodyOfEscape(x, t);
  }

  /** Escaping never produces a raw line feed. */
  lemma {:induction false} EscapeHasNoLineFeed(x: string)
    ensures '\n' !in Escape(x)
    decreases |x|
  {
    if |x| > 0 {
      EscapeHasNoLineFeed(x[1..]);
      var e := EscapeChar(x[0]);
      assert '\n' !in e by {
        if e != [x[0]] {
          assert forall k :: 0 <= k < |e| ==> e[k] != '\n';
        }
      }
    }
  }

  /** A text whose escape starts with backslash-free characters starts with those characters. */
  lemma {:induction false} EscapePrefixIsPlain(y: string, w: string)
    requires HasPrefix(Escape(y), w)
    requires '\\' !in w
    ensures HasPrefix(y, w)
    decreases |w|
  {
    if |w| > 0 {
      var e := EscapeChar(y[0]);
      assert Escape(y) == e + Escape(y[1..]);
      assert Escape(y)[0] == w[0];
      assert w[0] in w;
      assert e == [y[0]];
      assert Escape(y)[1..] == Escape(y[1..]);
      assert forall k :: 0 <= k < |w[1..]| ==> w[1..][k] == w[k + 1];
      EscapePrefixIsPlain(y[1..], w[1..]);
      assert y[..|w|] == [y[0]] + y[1..][..|w| - 1];
      assert w == [w[0]] + w[1..];
    }
  }

  /** The end-of-stream token appears in an escaped text only if it appears in the text:
      escape sequences never contain `[`, and the token has no backslash. */
  lemma DoneInEscapeComesFromText(x: string)
    requires Contains(Escape(x), DoneToken)
    ensures Contains(x, DoneToken)
  {
    assert DoneToken[0] == '[';
    EscapeHidesNothing(x, DoneToken);
  }

  /** Escaping works character by character, so it distributes over joins. */
  lemma {:induction false} EscapeAppend(a: string, b: string)
    ensures Escape(a + b) == Escape(a) + Escape(b)
    decreases |a|
  {
    if |a| == 0 {
      assert a + b == b;
    } else {
      assert (a + b)[0] == a[0];
      assert (a + b)[1..] == a[1..] + b;
      EscapeAppend(a[1..], b);
      AppendAssoc(EscapeChar(a[0]), Escape(a[1..]), Escape(b));
    }
  }

  /** The converse of `DoneInEscapeComesFromText`: the token's characters are plain, so an
      occurrence of it in the text is written as it is. */
  lemma EscapeKeepsDone(x: string)
    requires Contains(x, DoneToken)
    ensures Contains(Escape(x), DoneToken)
  {
    var i := OccurrenceOfScan(x, DoneToken);
    var rest := x[i + |DoneToken|..];
    assert x == x[..i] + DoneToken + rest;
    DoneTokenIsPlain();
    EscapeAround(x[..i], DoneToken, rest);
    assert HasPrefix(DoneToken, DoneToken);
    ContainsInside(Escape(x[..i]), DoneToken, Escape(rest), DoneToken);
  }

  /** Escaping leaves the end marker as it is. */
  lemma DoneTokenIsPlain()
    ensures Escape(DoneToken) == DoneToken
  {
    assert AllPlain(DoneToken);
    EscapePlain(DoneToken);
  }

  /** A piece that escaping leaves alone stays in place between the escaped text around it. */
  lemma EscapeAround(a: string, t: string, b: string)
    requires Escape(t) == t
    ensures Escape(a + t + b) == Escape(a) + t + Escape(b)
  {
    EscapeAppend(a + t, b);
    EscapeAppend(a, t);
  }


  /** Escaping creates no occurrence of a backslash-free text that starts with a character
      no escape sequence uses. */
  lemma {:induction false} EscapeHidesNothing(x: string, p: string)
    requires |p| > 0 && '\\' !in p && !IsEscapeSyntax(p[0])
    requires Contains(Escape(x), p)
    ensures Contains(x, p)
    decreases |x|
  {
    var i := OccurrenceOfScan(Escape(x), p);
    assert |x| > 0;
    var e := EscapeChar(x[0]);
    var rest := Escape(x[1..]);
    assert Escape(x) == e + rest;
    if i >= |e| {
      OccurrenceInRest(e, rest, p, i);
      EscapeHidesNothing(x[1..], p);
    } else {
      OccurrenceInFirstEscape(e, rest, p, i);
      assert e == [x[0]];
      EscapePrefixIsPlain(x, p);
      ScanFindsOccurrence(x, p, 0);
    }
  }

  /** An occurrence that starts after the first part is an occurrence in the second. */
  lemma OccurrenceInRest(e: string, rest: string, p: string, i: nat)
    requires |e| <= i && OccursAt(e + rest, p, i)
    ensures Contains(rest, p)
  {
    assert rest[i - |e|..i - |e| + |p|] == (e + rest)[i..i + |p|];
    ScanFindsOccurrence(rest, p, i - |e|);
  }

  /** An occurrence starting inside the escape of the first character starts the text, and
      that character was written as itself. */
  lemma OccurrenceInFirstEscape(e: string, rest: string, p: string, i: nat)
    requires |e| > 0 && (e != [e[0]] ==> e[0] == '\\' && forall k :: 1 <= k < |e| ==> IsEscapeSyntax(e[k]))
    requires |p| > 0 && '\\' !in p && !IsEscapeSyntax(p[0])
    requires i < |e| && OccursAt(e + rest, p, i)
    ensures i == 0 && |e| == 1 && HasPrefix(e + rest, p)
  {
    assert (e + rest)[i] == p[0];
    assert p[0] in p;
  }

  lemma EscapeKeepsDoneOut(x: string)
    requires !Contains(x, DoneToken)
    ensures !Contains(Escape(x), DoneToken)
  {
    if Contains(Escape(x), DoneToken) {
      DoneInEscapeComesFromText(x);
    }
  }

  // ---------------------------------------------------------------------------
  // Numbers and booleans

  predicate IsDigit(c: char) { '0' <= c <= '9' }

  function DecimalDigit(d: nat): (c: char)
    requires d < 10
    ensures IsDigit(c)
  {
    ('0' as int + d) as char
  }

  /** `str(n)` for a non-negative integer: no leading zeros. */
  function EncodeNat(n: nat): (r: string)
    ensures |r| > 0 && (r[0] == '0' ==> n == 0)
    ensures forall k :: 0 <= k < |r| ==> IsDigit(r[k])
    decreases n
  {
    if n < 10 then [DecimalDigit(n)] else EncodeNat(n / 10) + [DecimalDigit(n % 10)]
  }

  /** The longest prefix of digits. */
  function LeadingDigits(s: string): (r: string)
    ensures |r| <= |s| && r == s[..|r|]
    ensures forall k :: 0 <= k < |r| ==> IsDigit(r[k])
    ensures |r| < |s| ==> !IsDigit(s[|r|])
    decreases |s|
  {
    if |s| > 0 && IsDigit(s[0]) then [s[0]] + LeadingDigits(s[1..]) else ""
  }

  /** The value of a string of decimal digits. */
  function DigitsValue(ds: string): nat
    requires forall k :: 0 <= k < |ds| ==> IsDigit(ds[k])
    decreases |ds|
  {
    if |ds| == 0 then 0
    else
      var d := ds[|ds| - 1];
      assert IsDigit(d);
      DigitsValue(ds[..|ds| - 1]) * 10 + (d as int - '0' as int)
  }

  /** A JSON integer without sign, fraction or exponent. */
  function ParseNat(s: string): (r: Option<(nat, string)>)
    ensures r.Some? ==> |r.value.1| < |s|
  {
    var ds := LeadingDigits(s);
    if |ds| == 0 || (ds[0] == '0' && |ds| > 1) then None else Some((DigitsValue(ds), s[|ds|..]))
  }

  lemma {:induction false} DigitsValueOfEncodeNat(n: nat)
    ensures DigitsValue(EncodeNat(n)) == n
    decreases n
  {
    if n >= 10 {
      DigitsValueOfEncodeNat(n / 10);
      var r := EncodeNat(n);
      assert r[..|r| - 1] == EncodeNat(n / 10);
    }
  }

  lemma {:induction false} LeadingDigitsOfDigits(ds: string, t: string)
    requires forall k :: 0 <= k < |ds| ==> IsDigit(ds[k])
    requires |t| == 0 || !IsDigit(t[0])
    ensures LeadingDigits(ds + t) == ds
    decreases |ds|
  {
    if |ds| > 0 {
      assert (ds + t)[1..] == ds[1..] + t;
      LeadingDigitsOfDigits(ds[1..], t);
      assert [ds[0]] + ds[1..] == ds;
    } else {
      assert ds + t == t;
    }
  }

  lemma ParseNatOfEncode(n: nat, t: string)
    requires |t| == 0 || !IsDigit(t[0])
    ensures ParseNat(EncodeNat(n) + t) == Some((n, t))
  {
    var ds := EncodeNat(n);
    LeadingDigitsOfDigits(ds, t);
    DigitsValueOfEncodeNat(n);
    assert (ds + t)[|ds|..] == t;
  }

  function EncodeBool(b: bool): string {
    if b then "true" else "false"
  }

  function ParseBool(s: string): (r: Option<(bool, string)>)
    ensures r.Some? ==> |r.value.1| < |s|
  {
    if HasPrefix(s, "true") then Some((true, s[4..]))
    else if HasPrefix(s, "false") then Some((false, s[5..]))
    else None
  }

  lemma ParseBoolOfEncode(b: bool, t: string)
    ensures ParseBool(EncodeBool(b) + t) == Some((b, t))
  {
    var s := EncodeBool(b) + t;
    assert s[..|EncodeBool(b)|] == EncodeBool(b);
    assert s[|EncodeBool(b)|..] == t;
    if !b {
      assert s[0] == 'f';
    }
  }

  // ---------------------------------------------------------------------------
  // White space

  /** The white space JSON allows between tokens. */
  predicate IsJsonSpace(c: char) {
    c == ' ' || c == '\t' || c == '\n' || c == '\r'
  }

  function SkipSpace(s: string): (r: string)
    ensures |r| <= |s| && r == s[|s| - |r|..]
    ensures |r| > 0 ==> !IsJsonSpace(r[0])
    ensures forall k :: 0 <= k < |s| - |r| ==> IsJsonSpace(s[k])
    decreases |s|
  {
    if |s| > 0 && IsJsonSpace(s[0]) then SkipSpace(s[1..]) else s
  }

  // ---------------------------------------------------------------------------
  // Records

  /** One `"key": value` member of a record. */
  datatype Member =
    | ContentField(text: string)
    | StreamingField(flag: bool)
    | ErrorField(text: string)
    | ModelField(text: string)
    | UsageField(tokens: nat)

  function Key(m: Member): string {
    match m
    case ContentField(_) => "content"
    case StreamingField(_) => "is_streaming"
    case ErrorField(_) => "error"
    case ModelField(_) => "model"
    case UsageField(_) => "usage"
  }

  const TokensKey: string := "completion_tokens"

  /** The members of a record that are present, in the order the server writes them. */
  function Members(r: Record): seq<Member> {
    (if r.content.Some? then [ContentField(r.content.value)] else [])
    + (if r.isStreaming.Some? then [StreamingField(r.isStreaming.value)] else [])
    + (if r.error.Some? then [ErrorField(r.error.value)] else [])
    + (if r.model.Some? then [ModelField(r.model.value)] else [])
    + (if r.completionTokens.Some? then [UsageField(r.completionTokens.value)] else [])
  }

  /** Reading one member sets that field; a later member overrides an earlier one. */
  function Apply(r: Record, m: Member): Record {
    match m
    case ContentField(x) => r.(content := Some(x))
    case StreamingField(b) => r.(isStreaming := Some(b))
    case ErrorField(x) => r.(error := Some(x))
    case ModelField(x) => r.(model := Some(x))
    case UsageField(n) => r.(completionTokens := Some(n))
  }

  function ApplyAll(r: Record, ms: seq<Member>): Record
    decreases |ms|
  {
    if |ms| == 0 then r else ApplyAll(Apply(r, ms[0]), ms[1..])
  }

  predicate AllPlain(x: string) {
    forall k :: 0 <= k < |x| ==> IsPlain(x[k])
  }

  /** A member name. The names are plain ASCII, which `json.dumps` writes unescaped
      (`EscapePlain`), so the name is written between quotes as it is. */
  function EncodeKey(key: string): string {
    "\"" + key + "\""
  }

  function EncodeValue(m: Member): string {
    match m
    case ContentField(x) => EncodeString(x)
    case StreamingField(b) => EncodeBool(b)
    case ErrorField(x) => EncodeString(x)
    case ModelField(x) => EncodeString(x)
    case UsageField(n) => "{" + EncodeKey(TokensKey) + ": " + EncodeNat(n) + "}"
  }

  function EncodeMember(m: Member): string {
    EncodeKey(Key(m)) + ": " + EncodeValue(m)
  }

  function EncodeMembers(ms: seq<Member>): string
    decreases |ms|
  {
    if |ms| == 0 then ""
    else if |ms| == 1 then EncodeMember(ms[0])
    else EncodeMember(ms[0]) + ", " + EncodeMembers(ms[1..])
  }

  /** `json.dumps` of a record. */
  function Encode(r: Record): string {
    "{" + EncodeMembers(Members(r)) + "}"
  }

  /** The `usage` object: exactly one member, `completion_tokens`. */
  function ParseUsage(s: string): (r: Option<(nat, string)>)
    ensures r.Some? ==> |r.value.1| < |s|
  {
    if |s| == 0 || s[0] != '{' then None
    else
      var k :- ParseString(SkipSpace(s[1..]));
      var t := SkipSpace(k.1);
      if k.0 != TokensKey || |t| == 0 || t[0] != ':' then None
      else
        var n :- ParseNat(SkipSpace(t[1..]));
        var u := SkipSpace(n.1);
        if |u| == 0 || u[0] != '}' then None else Some((n.0, u[1..]))
  }

  /** The value of the member named `key`, with the type the protocol gives that field. */
  function ParseValue(key: string, s: string): (r: Option<(Member, string)>)
    ensures r.Some? ==> |r.value.1| < |s| && Key(r.value.0) == key
  {
    if key == "content" then
      var v :- ParseString(s); Some((ContentField(v.0), v.1))
    else if key == "is_streaming" then
      var v :- ParseBool(s); Some((StreamingField(v.0), v.1))
    else if key == "error" then
      var v :- ParseString(s); Some((ErrorField(v.0), v.1))
    else if key == "model" then
      var v :- ParseString(s); Some((ModelField(v.0), v.1))
    else if key == "usage" then
      var v :- ParseUsage(s); Some((UsageField(v.0), v.1))
    else None
  }

  function ParseMember(s: string): (r: Option<(Member, string)>)
    ensures r.Some? ==> |r.value.1| < |s|
  {
    var k :- ParseString(s);
    var t := SkipSpace(k.1);
    if |t| == 0 || t[0] != ':' then None else ParseValue(k.0, SkipSpace(t[1..]))
  }

  /** The members of a non-empty object up to its closing brace, applied to `acc` in order. */
  function ParseMembers(s: string, acc: Record): (r: Option<(Record, string)>)
    ensures r.Some? ==> |r.value.1| < |s|
    decreases |s|
  {
    var m :- ParseMember(s);
    var t := SkipSpace(m.1);
    if |t| == 0 then None
    else if t[0] == ',' then ParseMembers(SkipSpace(t[1..]), Apply(acc, m.0))
    else if t[0] == '}' then Some((Apply(acc, m.0), t[1..]))
    else None
  }

  /** `JSON.parse` of a record; `None` for text that is not one. */
  function Parse(text: string): Option<Record> {
    var s := SkipSpace(text);
    if |s| == 0 || s[0] != '{' then None
    else
      var t := SkipSpace(s[1..]);
      var obj :-
        if |t| > 0 && t[0] == '}' then Some((EmptyRecord, t[1..])) else ParseMembers(t, EmptyRecord);
      if SkipSpace(obj.1) == "" then Some(obj.0) else None
  }

  /** The empty text is not a record. */
  lemma ParseOfEmpty()
    ensures Parse("") == None
  {
    assert SkipSpace("") == "";
  }

  // ---------------------------------------------------------------------------
  // Round trip

  /** Plain text is its own escape, so writing a plain name as a key is `json.dumps`. */
  lemma {:induction false} EscapePlain(x: string)
    requires AllPlain(x)
    ensures Escape(x) == x
    decreases |x|
  {
    if |x| > 0 {
      EscapePlain(x[1..]);
      assert [x[0]] + x[1..] == x;
    }
  }

  lemma {:induction false} ParseStringBodyOfPlain(x: string, t: string)
    requires AllPlain(x)
    ensures ParseStringBody(x + "\"" + t) == Some((x, t))
    decreases |x|
  {
    if |x| == 0 {
      assert x + "\"" + t == "\"" + t;
    } else {
      var s := x + "\"" + t;
      assert s[1..] == x[1..] + "\"" + t;
      assert IsPlain(s[0]);
      ParseStringBodyOfPlain(x[1..], t);
      assert [x[0]] + x[1..] == x;
    }
  }

  lemma KeysArePlain(m: Member)
    ensures AllPlain(Key(m)) && AllPlain(TokensKey)
  {
    PlainText(TokensKey);
    PlainText(Key(m));
  }

  /** A text of lower-case letters and underscores is written as it is. */
  lemma PlainText(x: string)
    requires forall k :: 0 <= k < |x| ==> 'a' <= x[k] <= 'z' || x[k] == '_'
    ensures AllPlain(x)
  {
  }

  lemma ParseKeyOfEncode(key: string, t: string)
    requires AllPlain(key)
    ensures ParseString(EncodeKey(key) + t) == Some((key, t))
  {
    assert (EncodeKey(key) + t)[1..] == key + "\"" + t;
    ParseStringBodyOfPlain(key, t);
  }

  /** JSON white space is skipped up to the first other character. */
  lemma SkipSpaceStops(s: string)
    requires |s| > 0 && !IsJsonSpace(s[0])
    ensures SkipSpace(s) == s
  {
  }

  lemma SkipOneSpace(s: string)
    requires |s| > 0 && !IsJsonSpace(s[0])
    ensures SkipSpace(" " + s) == s
  {
    assert (" " + s)[1..] == s;
  }

  lemma ParseUsageOfEncode(n: nat, t: string)
    ensures ParseUsage(EncodeValue(UsageField(n)) + t) == Some((n, t))
  {
    var afterKey := ": " + EncodeNat(n) + "}" + t;
    UsageEncodeShape(n, afterKey, t);
    ParseUsageAfterBrace(EncodeValue(UsageField(n)) + t, afterKey, n, t);
  }

  /** The written `usage` object followed by `t`, cut after its opening brace and its key. */
  lemma UsageEncodeShape(n: nat, afterKey: string, t: string)
    requires afterKey == ": " + EncodeNat(n) + "}" + t
    ensures EncodeValue(UsageField(n)) + t == "{" + (EncodeKey(TokensKey) + afterKey)
  {
    Regroup("{", EncodeKey(TokensKey), ": ", EncodeNat(n), "}", t);
  }

  /** Five joins, regrouped from the left to the right after the first two parts. */
  lemma Regroup(a: string, k: string, c: string, m: string, b: string, t: string)
    ensures a + k + c + m + b + t == a + (k + (c + m + b + t))
  {
    AppendAssoc(a + k + c + m, b, t);
    AppendAssoc(a + k + c, m, b + t);
    AppendAssoc(a + k, c, m + (b + t));
    AppendAssoc(a, k, c + (m + (b + t)));
    AppendAssoc(c + m, b, t);
    AppendAssoc(c, m, b + t);
  }

  /** `ParseUsage` of a brace, the written key, and the rest of the written object. */
  lemma ParseUsageAfterBrace(s: string, afterKey: string, n: nat, t: string)
    requires s == "{" + (EncodeKey(TokensKey) + afterKey)
    requires afterKey == ": " + EncodeNat(n) + "}" + t
    ensures ParseUsage(s) == Some((n, t))
  {
    assert s[1..] == EncodeKey(TokensKey) + afterKey;
    SkipSpaceStops(s[1..]);
    KeysArePlain(UsageField(n));
    ParseKeyOfEncode(TokensKey, afterKey);
    ParseUsageCount(n, t);
    ParseUsageShape(s, afterKey, n, t);
  }

  /** `ParseUsage` when each of its parts reads as expected. */
  lemma ParseUsageShape(s: string, afterKey: string, n: nat, rest: string)
    requires |s| > 0 && s[0] == '{'
    requires ParseString(SkipSpace(s[1..])) == Some((TokensKey, afterKey))
    requires var c := SkipSpace(afterKey);
             |c| > 0 && c[0] == ':' && ParseNat(SkipSpace(c[1..])) == Some((n, "}" + rest))
    requires SkipSpace("}" + rest) == "}" + rest
    ensures ParseUsage(s) == Some((n, rest))
  {
    assert ("}" + rest)[1..] == rest;
  }

  /** After the key of the `usage` object: the colon, the count and the closing brace. */
  lemma ParseUsageCount(n: nat, t: string)
    ensures var afterKey := ": " + EncodeNat(n) + "}" + t;
            var c := SkipSpace(afterKey);
            && |c| > 0 && c[0] == ':'
            && ParseNat(SkipSpace(c[1..])) == Some((n, "}" + t))
            && SkipSpace("}" + t) == "}" + t
  {
    var afterKey := ": " + EncodeNat(n) + "}" + t;
    var afterColon := EncodeNat(n) + ("}" + t);
    SkipSpaceStops(afterKey);
    assert afterKey[1..] == " " + afterColon;
    SkipOneSpace(afterColon);
    ParseNatOfEncode(n, "}" + t);
    SkipSpaceStops("}" + t);
  }


  lemma ParseValueOfEncode(m: Member, t: string)
    ensures ParseValue(Key(m), EncodeValue(m) + t) == Some((m, t))
  {
    match m
    case ContentField(x) => ParseContentOfEncode(x, t);
    case StreamingField(b) => ParseStreamingOfEncode(b, t);
    case ErrorField(x) => ParseErrorOfEncode(x, t);
    case ModelField(x) => ParseModelOfEncode(x, t);
    case UsageField(n) => ParseUsageValueOfEncode(n, t);
  }

  lemma ParseContentOfEncode(x: string, t: string)
    ensures ParseValue("content", EncodeString(x) + t) == Some((ContentField(x), t))
  {
    ParseStringOfEncode(x, t);
  }

  lemma ParseStreamingOfEncode(b: bool, t: string)
    ensures ParseValue("is_streaming", EncodeBool(b) + t) == Some((StreamingField(b), t))
  {
    ParseBoolOfEncode(b, t);
  }

  lemma ParseErrorOfEncode(x: string, t: string)
    ensures ParseValue("error", EncodeString(x) + t) == Some((ErrorField(x), t))
  {
    assert "error"[0] == 'e';
    assert "error" != "content" && "error" != "is_streaming";
    ParseStringOfEncode(x, t);
  }

  lemma ParseModelOfEncode(x: string, t: string)
    ensures ParseValue("model", EncodeString(x) + t) == Some((ModelField(x), t))
  {
    assert "model"[0] == 'm';
    assert "error"[0] == 'e';
    assert "model" != "content" && "model" != "is_streaming" && "model" != "error";
    ParseStringOfEncode(x, t);
  }

  lemma ParseUsageValueOfEncode(n: nat, t: string)
    ensures ParseValue("usage", EncodeValue(UsageField(n)) + t) == Some((UsageField(n), t))
  {
    ParseUsageOfEncode(n, t);
    ParseValueOfUsage(EncodeValue(UsageField(n)) + t, n, t);
  }

  /** The value of the `usage` member is read by `ParseUsage`. */
  lemma ParseValueOfUsage(s: string, n: nat, t: string)
    requires ParseUsage(s) == Some((n, t))
    ensures ParseValue("usage", s) == Some((UsageField(n), t))
  {
    UsageKeyIsLast();
  }

  /** The `usage` name differs from the four names `ParseValue` checks before it. */
  lemma UsageKeyIsLast()
    ensures "usage" != "content" && "usage" != "is_streaming"
    ensures "usage" != "error" && "usage" != "model"
  {
    assert "usage"[0] == 'u';
    assert "error"[0] == 'e';
    assert "model"[0] == 'm';
  }


  lemma ParseMemberOfEncode(m: Member, t: string)
    ensures ParseMember(EncodeMember(m) + t) == Some((m, t))
  {
    var v := EncodeValue(m) + t;
    var afterKey := ": " + v;
    AppendAssoc(EncodeKey(Key(m)) + ": ", EncodeValue(m), t);
    AppendAssoc(EncodeKey(Key(m)), ": ", v);
    KeysArePlain(m);
    ParseKeyOfEncode(Key(m), afterKey);
    assert v[0] == EncodeValue(m)[0];
    SkipColon(v);
    ParseValueOfEncode(m, t);
    ParseMemberShape(EncodeMember(m) + t, Key(m), afterKey, m, t);
  }

  /** `ParseMember` when the name, the colon and the value each read as expected. */
  lemma ParseMemberShape(s: string, key: string, afterKey: string, m: Member, t: string)
    requires ParseString(s) == Some((key, afterKey))
    requires var c := SkipSpace(afterKey);
             |c| > 0 && c[0] == ':' && ParseValue(key, SkipSpace(c[1..])) == Some((m, t))
    ensures ParseMember(s) == Some((m, t))
  {
  }

  /** The name and the value of a member are separated by a colon and one space. */
  lemma SkipColon(v: string)
    requires |v| > 0 && !IsJsonSpace(v[0])
    ensures var a := ": " + v;
            SkipSpace(a) == a && a[0] == ':' && SkipSpace(a[1..]) == v
  {
    var a := ": " + v;
    SkipSpaceStops(a);
    assert a[1..] == " " + v;
    SkipOneSpace(v);
  }


  lemma {:induction false} ParseMembersOfEncode(ms: seq<Member>, acc: Record, t: string)
    requires |ms| > 0
    ensures ParseMembers(EncodeMembers(ms) + "}" + t, acc) == Some((ApplyAll(acc, ms), t))
    decreases |ms|
  {
    var m := ms[0];
    assert ApplyAll(acc, ms) == ApplyAll(Apply(acc, m), ms[1..]);
    if |ms| == 1 {
      assert EncodeMembers(ms) == EncodeMember(m);
      assert ms[1..] == [];
      ParseLastMember(m, acc, t);
    } else {
      var more := EncodeMembers(ms[1..]) + "}" + t;
      assert EncodeMembers(ms) == EncodeMember(m) + ", " + EncodeMembers(ms[1..]);
      assert EncodeMembers(ms) + "}" + t == EncodeMember(m) + ", " + more;
      ParseMembersOfEncode(ms[1..], Apply(acc, m), t);
      MembersStartWithQuote(ms[1..], "}" + t);
      ParseNextMember(m, acc, more);
    }
  }

  lemma MembersStartWithQuote(ms: seq<Member>, t: string)
    requires |ms| > 0
    ensures var s := EncodeMembers(ms) + t; |s| > 0 && s[0] == '"'
  {
    assert EncodeMembers(ms)[0] == EncodeMember(ms[0])[0];
  }

  lemma ParseLastMember(m: Member, acc: Record, t: string)
    ensures ParseMembers(EncodeMember(m) + "}" + t, acc) == Some((Apply(acc, m), t))
  {
    var tail := "}" + t;
    var s := EncodeMember(m) + tail;
    assert EncodeMember(m) + "}" + t == s;
    ParseMemberOfEncode(m, tail);
    SkipSpaceStops(tail);
    assert tail[1..] == t;
    ParseMembersStep(s, acc, m, tail);
  }

  lemma ParseNextMember(m: Member, acc: Record, more: string)
    requires |more| > 0 && more[0] == '"'
    ensures ParseMembers(EncodeMember(m) + ", " + more, acc) == ParseMembers(more, Apply(acc, m))
  {
    var tail := ", " + more;
    assert EncodeMember(m) + ", " + more == EncodeMember(m) + tail;
    ParseMemberOfEncode(m, tail);
    ParseMembersContinue(EncodeMember(m) + tail, acc, m, more);
  }

  /** A member followed by a comma: parsing goes on with the members after it. */
  lemma ParseMembersContinue(s: string, acc: Record, m: Member, more: string)
    requires |more| > 0 && more[0] == '"'
    requires ParseMember(s) == Some((m, ", " + more))
    ensures ParseMembers(s, acc) == ParseMembers(more, Apply(acc, m))
  {
    SkipSeparator(more);
    ParseMembersStep(s, acc, m, ", " + more);
  }

  /** The member separator `json.dumps` writes is a comma and one space. */
  lemma SkipSeparator(more: string)
    requires |more| > 0 && !IsJsonSpace(more[0])
    ensures var tail := ", " + more;
            SkipSpace(tail) == tail && tail[0] == ',' && SkipSpace(tail[1..]) == more
  {
    var tail := ", " + more;
    SkipSpaceStops(tail);
    assert tail[1..] == " " + more;
    SkipOneSpace(more);
  }

  /** One step of `ParseMembers` once the first member is known. */
  lemma ParseMembersStep(s: string, acc: Record, m: Member, rest: string)
    requires ParseMember(s) == Some((m, rest))
    ensures var t := SkipSpace(rest);
            ParseMembers(s, acc) ==
              if |t| == 0 then None
              else if t[0] == ',' then ParseMembers(SkipSpace(t[1..]), Apply(acc, m))
              else if t[0] == '}' then Some((Apply(acc, m), t[1..]))
              else None
  {
  }

  lemma {:induction false} ApplyAllAppend(r: Record, a: seq<Member>, b: seq<Member>)
    ensures ApplyAll(r, a + b) == ApplyAll(ApplyAll(r, a), b)
    decreases |a|
  {
    if |a| == 0 {
      assert a + b == b;
    } else {
      assert (a + b)[1..] == a[1..] + b;
      ApplyAllAppend(Apply(r, a[0]), a[1..], b);
    }
  }

  /** Reading the members of a record back, in order, rebuilds the record. */
  lemma MembersRebuild(r: Record)
    ensures ApplyAll(EmptyRecord, Members(r)) == r
  {
    var a := if r.content.Some? then [ContentField(r.content.value)] else [];
    var b := if r.isStreaming.Some? then [StreamingField(r.isStreaming.value)] else [];
    var c := if r.error.Some? then [ErrorField(r.error.value)] else [];
    var d := if r.model.Some? then [ModelField(r.model.value)] else [];
    var e := if r.completionTokens.Some? then [UsageField(r.completionTokens.value)] else [];
    assert Members(r) == a + b + c + d + e;
    ApplyAllAppend(EmptyRecord, a + b + c + d, e);
    ApplyAllAppend(EmptyRecord, a + b + c, d);
    ApplyAllAppend(EmptyRecord, a + b, c);
    ApplyAllAppend(EmptyRecord, a, b);
  }

  /** The decoder reads back every record the encoder writes. */
  lemma ParseOfEncode(r: Record)
    ensures Parse(Encode(r)) == Some(r)
  {
    var ms := Members(r);
    var s := Encode(r);
    MembersRebuild(r);
    if |ms| == 0 {
      assert s == "{}";
      ParseEmptyObject();
    } else {
      ParseOfMembers(s, ms, r);
    }
  }

  /** What follows the opening brace of an object. */
  lemma AfterBrace(e: string)
    ensures ("{" + e + "}")[1..] == e + "}" + ""
  {
    assert "{" + e + "}" == "{" + (e + "}");
  }

  /** The non-empty case of `ParseOfEncode`, over the member list. */
  lemma ParseOfMembers(s: string, ms: seq<Member>, r: Record)
    requires |ms| > 0 && ApplyAll(EmptyRecord, ms) == r
    requires s == "{" + EncodeMembers(ms) + "}"
    ensures Parse(s) == Some(r)
  {
    AfterBrace(EncodeMembers(ms));
    ParseMembersOfEncode(ms, EmptyRecord, "");
    MembersStartWithQuote(ms, "}");
    ParseObject(s, r);
  }

  lemma ParseEmptyObject()
    ensures Parse("{}") == Some(EmptyRecord)
  {
    var s := "{}";
    SkipSpaceStops(s);
    SkipSpaceStops(s[1..]);
    assert s[1..][1..] == "";
  }

  lemma ParseObject(s: string, r: Record)
    requires |s| > 1 && s[0] == '{' && s[1] == '"'
    requires ParseMembers(s[1..], EmptyRecord) == Some((r, ""))
    ensures Parse(s) == Some(r)
  {
    SkipSpaceStops(s);
    SkipSpaceStops(s[1..]);
  }

  // ---------------------------------------------------------------------------
  // What the encoding never contains

  lemma EncodeStringHasNoLineFeed(x: string)
    ensures '\n' !in EncodeString(x)
  {
    EscapeHasNoLineFeed(x);
  }

  lemma EncodeMemberHasNoLineFeed(m: Member)
    ensures '\n' !in EncodeMember(m)
  {
    KeysArePlain(m);
    assert '\n' !in Key(m);
    EncodeValueHasNoLineFeed(m);
  }

  lemma EncodeValueHasNoLineFeed(m: Member)
    ensures '\n' !in EncodeValue(m)
  {
    match m
    case ContentField(x) => EncodeStringHasNoLineFeed(x);
    case StreamingField(b) =>
    case ErrorField(x) => EncodeStringHasNoLineFeed(x);
    case ModelField(x) => EncodeStringHasNoLineFeed(x);
    case UsageField(n) =>
      KeysArePlain(m);
      assert '\n' !in TokensKey;
  }

  lemma {:induction false} EncodeMembersHasNoLineFeed(ms: seq<Member>)
    ensures '\n' !in EncodeMembers(ms)
    decreases |ms|
  {
    if |ms| > 0 {
      EncodeMemberHasNoLineFeed(ms[0]);
      EncodeMembersHasNoLineFeed(ms[1..]);
    }
  }

  /** An encoded record is one line: `json.dumps` escapes every line feed. So it can never
      contain the blank line that separates stream events. */
  lemma EncodeIsOneLine(r: Record)
    ensures var e := Encode(r);
            |e| >= 2 && e[0] == '{' && e[|e| - 1] == '}' && '\n' !in e
  {
    EncodeMembersHasNoLineFeed(Members(r));
  }

  /** The string fields of a member do not contain the end-of-stream token. */
  predicate MemberFreeOfDone(m: Member) {
    match m
    case ContentField(x) => !Contains(x, DoneToken)
    case ErrorField(x) => !Contains(x, DoneToken)
    case ModelField(x) => !Contains(x, DoneToken)
    case _ => true
  }

  predicate FreeOfDone(r: Record) {
    && (r.content.Some? ==> !Contains(r.content.value, DoneToken))
    && (r.error.Some? ==> !Contains(r.error.value, DoneToken))
    && (r.model.Some? ==> !Contains(r.model.value, DoneToken))
  }

  lemma EncodeStringFreeOfDone(x: string)
    requires !Contains(x, DoneToken)
    ensures !Contains(EncodeString(x), DoneToken)
  {
    NoBracketNoDone("\"");
    EscapeKeepsDoneOut(x);
    ContainsAcrossJoin("\"", Escape(x), DoneToken);
    ContainsAcrossJoin("\"" + Escape(x), "\"", DoneToken);
  }

  lemma EncodeValueFreeOfDone(m: Member)
    requires MemberFreeOfDone(m)
    ensures !Contains(EncodeValue(m), DoneToken)
  {
    match m
    case ContentField(x) => EncodeStringFreeOfDone(x);
    case StreamingField(b) => NoBracketNoDone(EncodeBool(b));
    case ErrorField(x) => EncodeStringFreeOfDone(x);
    case ModelField(x) => EncodeStringFreeOfDone(x);
    case UsageField(n) =>
      UsageHasNoBracket(EncodeKey(TokensKey), EncodeNat(n));
      NoBracketNoDone(EncodeValue(m));
  }

  /** The `usage` object is written without a `[`. */
  lemma UsageHasNoBracket(key: string, digits: string)
    requires '[' !in key
    requires forall k :: 0 <= k < |digits| ==> IsDigit(digits[k])
    ensures '[' !in "{" + key + ": " + digits + "}"
  {
    assert '[' !in "{" && '[' !in ": " && '[' !in "}";
  }

  lemma EncodeMemberFreeOfDone(m: Member)
    requires MemberFreeOfDone(m)
    ensures !Contains(EncodeMember(m), DoneToken)
  {
    var prefix := EncodeKey(Key(m)) + ": ";
    assert '[' !in prefix && prefix[|prefix| - 1] == ' ';
    EncodeValueFreeOfDone(m);
    NoDoneAfterPrefix(prefix, EncodeValue(m));
  }


  lemma {:induction false} EncodeMembersFreeOfDone(ms: seq<Member>)
    requires forall k :: 0 <= k < |ms| ==> MemberFreeOfDone(ms[k])
    ensures !Contains(EncodeMembers(ms), DoneToken)
    decreases |ms|
  {
    if |ms| == 0 {
      NoBracketNoDone("");
    } else {
      EncodeMemberFreeOfDone(ms[0]);
      if |ms| > 1 {
        EncodeMembersFreeOfDone(ms[1..]);
        NoBracketNoDone(", ");
        NoneAcrossSeparator(EncodeMember(ms[0]), ", ", EncodeMembers(ms[1..]), DoneToken);
      }
    }
  }

  /** The encoding of a record contains the end-of-stream token only if one of its string
      fields does: the keys, numbers, booleans and escape sequences never spell it. */
  lemma EncodeFreeOfDone(r: Record)
    requires FreeOfDone(r)
    ensures !Contains(Encode(r), DoneToken)
  {
    var ms := Members(r);
    assert forall k :: 0 <= k < |ms| ==> MemberFreeOfDone(ms[k]);
    EncodeMembersFreeOfDone(ms);
    NoBracketNoDone("{");
    NoBracketNoDone("}");
    NoBracketNoDone("");
    NoneAcrossSeparator("", "{", EncodeMembers(ms), DoneToken);
    assert "" + "{" + EncodeMembers(ms) == "{" + EncodeMembers(ms);
    ContainsAcrossJoin("{" + EncodeMembers(ms), "}", DoneToken);
  }
}
