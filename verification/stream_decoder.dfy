/**
 * The client's decoding of the streamed response body (`sendMessage`, the read loop):
 * chunks are appended to a carry buffer, the buffer is split on the blank line, every
 * complete fragment is classified, and the last piece is kept for the next chunk.
 */
module StreamDecoder {
  import opened Wrappers
  import opened Text
  import Json

  /** `line.replace(/^data: /, "")`: the prefix is removed only at the very start. */
  function StripDataPrefix(line: string): (r: string)
    ensures HasPrefix(line, DataPrefix) ==> DataPrefix + r == line
    ensures !HasPrefix(line, DataPrefix) ==> r == line
  {
    if HasPrefix(line, DataPrefix) then line[|DataPrefix|..] else line
  }

  /** What one complete fragment means to the client. */
  datatype Signal =
    | Blank                       // white space only: skipped
    | EndMarker                   // contains `[DONE]`: streaming ends, no content
    | EmptyPayload                // nothing after the prefix: skipped
    | Malformed                   // not a record: logged and skipped
    | Payload(record: Json.Record)

  /** The checks of the read loop, in the order it tests them: blank, then `[DONE]`
      anywhere in the fragment, then prefix removal, trimming and parsing. */
  function Classify(line: string): (sig: Signal)
    ensures sig == Blank <==> AllSpace(line)
    ensures sig == EndMarker <==> !AllSpace(line) && Contains(line, DoneToken)
    ensures sig.Payload? <==>
              !AllSpace(line) && !Contains(line, DoneToken)
              && Json.Parse(Trim(StripDataPrefix(line))).Some?
    ensures sig.Payload? ==> Json.Parse(Trim(StripDataPrefix(line))) == Some(sig.record)
  {
    if Trim(line) == "" then Blank
    else if Contains(line, DoneToken) then EndMarker
    else
      var payload := Trim(StripDataPrefix(line));
      if payload == "" then Json.ParseOfEmpty(); EmptyPayload
      else match Json.Parse(payload)
        case None => Malformed
        case Some(r) => Payload(r)
  }

  /** Each fragment classified, in order. */
  function ClassifyAll(lines: seq<string>): (r: seq<Signal>)
    ensures |r| == |lines|
    ensures forall k :: 0 <= k < |lines| ==> r[k] == Classify(lines[k])
    decreases |lines|
  {
    if |lines| == 0 then [] else [Classify(lines[0])] + ClassifyAll(lines[1..])
  }

  lemma {:induction false} ClassifyAllAppend(a: seq<string>, b: seq<string>)
    ensures ClassifyAll(a + b) == ClassifyAll(a) + ClassifyAll(b)
    decreases |a|
  {
    if |a| == 0 {
      assert a + b == b;
    } else {
      assert (a + b)[0] == a[0];
      assert (a + b)[1..] == a[1..] + b;
      ClassifyAllAppend(a[1..], b);
    }
  }

  /** The complete fragments of a text: every piece of its split but the last. */
  function Fragments(text: string): seq<string> {
    var pieces := Split(text);
    pieces[..|pieces| - 1]
  }

  /** The piece after the last separator: what is still waiting for its end. */
  function Remainder(text: string): string {
    var pieces := Split(text);
    pieces[|pieces| - 1]
  }

  /** One chunk: `buffer += chunk; lines = buffer.split("\n\n"); buffer = lines.pop() || ""`.
      Nothing is lost: the fragments and the new buffer, joined, are the old buffer and the
      chunk; none of them holds a separator, and no fragment ends with a line feed, so each
      fragment ends at the leftmost separator after it and the new buffer is exactly the text
      after the last separator. */
  function Feed(buffer: string, chunk: string): (r: (seq<string>, string))
    ensures Join(r.0 + [r.1]) == buffer + chunk
    ensures IsCarry(r.1)
    ensures forall k :: 0 <= k < |r.0| ==> IsCarry(r.0[k])
    ensures forall k :: 0 <= k < |r.0| ==> |r.0[k]| == 0 || r.0[k][|r.0[k]| - 1] != '\n'
  {
    var pieces := Split(buffer + chunk);
    SplitJoin(buffer + chunk);
    SplitPiecesHoldNoSeparator(buffer + chunk);
    SplitPiecesEndClean(buffer + chunk);
    PopLast(pieces, pieces[..|pieces| - 1]);
    (pieces[..|pieces| - 1], pieces[|pieces| - 1])
  }

  /** `lines.pop()`: the facts about all pieces, restated for the fragments before the last. */
  lemma PopLast(p: seq<string>, lines: seq<string>)
    requires |p| >= 1 && lines == p[..|p| - 1]
    requires forall k :: 0 <= k < |p| ==> !Contains(p[k], Separator)
    requires forall k :: 0 <= k < |p| - 1 ==> |p[k]| == 0 || p[k][|p[k]| - 1] != '\n'
    ensures lines + [p[|p| - 1]] == p
    ensures forall k :: 0 <= k < |lines| ==> IsCarry(lines[k])
    ensures forall k :: 0 <= k < |lines| ==> |lines[k]| == 0 || lines[k][|lines[k]| - 1] != '\n'
  {
    assert forall k :: 0 <= k < |lines| ==> lines[k] == p[k];
  }


  /** All chunks of a body in turn: the fragments handed on, in order, and the final buffer. */
  function FeedAll(buffer: string, chunks: seq<string>): (seq<string>, string)
    decreases |chunks|
  {
    if |chunks| == 0 then ([], buffer)
    else
      var (lines, next) := Feed(buffer, chunks[0]);
      var (more, last) := FeedAll(next, chunks[1..]);
      (lines + more, last)
  }

  /** A buffer that holds no complete separator: what the client carries between chunks.
      By `OnePieceIffNoSeparator`, it is exactly a text that splits into itself alone. */
  predicate IsCarry(buffer: string) {
    !Contains(buffer, Separator)
  }

  /** Splitting a longer text: the complete fragments of the first part come first, then
      those of its remainder followed by the rest. */
  lemma FragmentsThrough(x: string, rest: string)
    ensures Fragments(x + rest) == Fragments(x) + Fragments(Remainder(x) + rest)
    ensures Remainder(x + rest) == Remainder(Remainder(x) + rest)
  {
    SplitExtend(x, rest);
    var p := Split(x);
    var q := Split(Remainder(x) + rest);
    assert Split(x + rest) == p[..|p| - 1] + q;
    assert (p[..|p| - 1] + q)[..|p[..|p| - 1] + q| - 1] == p[..|p| - 1] + q[..|q| - 1];
  }

  /** Feeding chunks from a carry buffer gives the fragments of the buffer followed by all
      the chunks, as if the whole text had been split at once. */
  lemma {:induction false} FeedAllSplits(buffer: string, chunks: seq<string>)
    requires IsCarry(buffer)
    ensures FeedAll(buffer, chunks) ==
              (Fragments(buffer + Concat(chunks)), Remainder(buffer + Concat(chunks)))
    decreases |chunks|
  {
    if |chunks| == 0 {
      assert Concat(chunks) == "";
      assert buffer + Concat(chunks) == buffer;
      OnePieceIffNoSeparator(buffer);
      SplitSingle(buffer);
      assert Split(buffer)[..0] == [];
    } else {
      var c := chunks[0];
      var rest := Concat(chunks[1..]);
      var next := Remainder(buffer + c);
      SplitLastPiece(buffer + c);
      assert Feed(buffer, c) == (Fragments(buffer + c), next);
      FeedAllSplits(next, chunks[1..]);
      assert FeedAll(buffer, chunks) ==
               (Fragments(buffer + c) + FeedAll(next, chunks[1..]).0, FeedAll(next, chunks[1..]).1);
      assert Concat(chunks) == c + rest;
      AppendAssoc(buffer, c, rest);
      FragmentsThrough(buffer + c, rest);
    }
  }

  /** Chunking invariance: however the same body is cut into chunks, the client processes
      the same fragments in the same order and ends with the same buffer. */
  lemma ChunkingInvariance(chunks1: seq<string>, chunks2: seq<string>)
    requires Concat(chunks1) == Concat(chunks2)
    ensures FeedAll("", chunks1) == FeedAll("", chunks2)
    ensures FeedAll("", chunks1) == (Fragments(Concat(chunks1)), Remainder(Concat(chunks1)))
  {
    assert IsCarry("");
    FeedAllSplits("", chunks1);
    FeedAllSplits("", chunks2);
    assert "" + Concat(chunks1) == Concat(chunks1);
    assert "" + Concat(chunks2) == Concat(chunks2);
  }
}
