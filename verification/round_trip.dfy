/**
 * The protocol end to end: the frames the server's `stream_generator` writes, cut into
 * chunks in any way, read by the client's `sendMessage`. The client's placeholder ends up
 * holding exactly the text the upstream produced (followed by the server's error text
 * when the upstream failed), provided no string the server sends contains the end-of-stream
 * token; one that does makes the client drop a whole frame.
 */
module RoundTrip {
  import opened Wrappers
  import opened Text
  import Json
  import opened StreamDecoder
  import opened ChatArea
  import opened Services

  /** The frames without their separators, in order. */
  function Bodies(frames: seq<Frame>): (r: seq<string>)
    ensures |r| == |frames|
    ensures forall k :: 0 <= k < |r| ==> r[k] == FrameBody(frames[k])
    decreases |frames|
  {
    if |frames| == 0 then [] else [FrameBody(frames[0])] + Bodies(frames[1..])
  }

  lemma FrameBodyIsOneLine(f: Frame)
    ensures '\n' !in FrameBody(f)
  {
    match f
    case DataFrame(r) =>
      Json.EncodeIsOneLine(r);
      var e := Json.Encode(r);
      assert forall k :: 0 <= k < |DataPrefix + e| ==> (DataPrefix + e)[k] != '\n' by {
        forall k | 0 <= k < |DataPrefix + e|
          ensures (DataPrefix + e)[k] != '\n'
        {
          if k >= |DataPrefix| {
            assert (DataPrefix + e)[k] == e[k - |DataPrefix|];
          }
        }
      }
    case DoneFrame =>
  }

  /** The client splits the server's body back into exactly the frames it wrote, with
      nothing left in the buffer. */
  lemma {:induction false} WireFragments(frames: seq<Frame>)
    ensures Split(WireText(frames)) == Bodies(frames) + [""]
    ensures Fragments(WireText(frames)) == Bodies(frames)
    ensures Remainder(WireText(frames)) == ""
    decreases |frames|
  {
    if |frames| > 0 {
      FrameBodyIsOneLine(frames[0]);
      WireFragments(frames[1..]);
      SplitAfterFragment(FrameBody(frames[0]), WireText(frames[1..]));
      assert FrameBody(frames[0]) + Separator + WireText(frames[1..]) == WireText(frames);
    }
  }

  /** The client's signals for a server body are the frames' signals, one by one. */
  lemma WireSignals(frames: seq<Frame>, sigs: seq<Signal>)
    requires |sigs| == |frames|
    requires forall k :: 0 <= k < |frames| ==> Classify(FrameBody(frames[k])) == sigs[k]
    ensures ClassifyAll(Fragments(WireText(frames))) == sigs
  {
    WireFragments(frames);
  }

  /** What the client should make of a frame. */
  function FrameSignal(f: Frame): Signal {
    match f
    case DataFrame(r) => Payload(r)
    case DoneFrame => EndMarker
  }

  /** The strings of a data frame's record are free of the end-of-stream token. */
  predicate FrameFreeOfDone(f: Frame) {
    f.DataFrame? ==> Json.FreeOfDone(f.record)
  }

  /** `data: ` followed by a record's encoding is not blank and carries the encoding after
      the prefix. */
  lemma DataBodyShape(r: Json.Record)
    ensures var body := FrameBody(DataFrame(r));
            && !AllSpace(body)
            && StripDataPrefix(body) == Json.Encode(r)
            && Trim(Json.Encode(r)) == Json.Encode(r)
  {
    var e := Json.Encode(r);
    var body := DataPrefix + e;
    Json.EncodeIsOneLine(r);
    assert body[0] == 'd';
    assert body[..|DataPrefix|] == DataPrefix;
    TrimUnchanged(e);
  }

  /** The client reads a data frame back as its record, and the end marker as the end. */
  lemma ClassifyFrame(f: Frame)
    requires FrameFreeOfDone(f)
    ensures Classify(FrameBody(f)) == FrameSignal(f)
  {
    match f
    case DataFrame(r) => ClassifyDataFrame(r);
    case DoneFrame => ClassifyDoneFrame();
  }

  lemma ClassifyDataFrame(r: Json.Record)
    requires Json.FreeOfDone(r)
    ensures Classify(FrameBody(DataFrame(r))) == Payload(r)
  {
    EncodeIsTrimmed(r);
    Json.EncodeFreeOfDone(r);
    Json.ParseOfEncode(r);
    ClassifyPrefixed(FrameBody(DataFrame(r)), Json.Encode(r), r);
  }

  /** An encoded record has no white space at either end. */
  lemma EncodeIsTrimmed(r: Json.Record)
    ensures |Json.Encode(r)| > 0
    ensures !IsJsSpace(Json.Encode(r)[0]) && !IsJsSpace(Json.Encode(r)[|Json.Encode(r)| - 1])
  {
    Json.EncodeIsOneLine(r);
  }

  /** `data: ` followed by a trimmed record text free of the token is read as that record. */
  lemma ClassifyPrefixed(body: string, e: string, r: Json.Record)
    requires body == DataPrefix + e
    requires |e| > 0 && !IsJsSpace(e[0]) && !IsJsSpace(e[|e| - 1])
    requires !Contains(e, DoneToken)
    requires Json.Parse(e) == Some(r)
    ensures Classify(body) == Payload(r)
  {
    TrimUnchanged(e);
    PrefixedIsStripped(e);
    PrefixedIsNotBlank(e);
    PrefixedFreeOfDone(e);
  }

  lemma PrefixedIsStripped(e: string)
    ensures StripDataPrefix(DataPrefix + e) == e
  {
    assert (DataPrefix + e)[..|DataPrefix|] == DataPrefix;
  }

  lemma PrefixedIsNotBlank(e: string)
    ensures !AllSpace(DataPrefix + e)
  {
    assert (DataPrefix + e)[0] == 'd';
  }

  lemma PrefixedFreeOfDone(e: string)
    requires !Contains(e, DoneToken)
    ensures !Contains(DataPrefix + e, DoneToken)
  {
    NoDoneAfterPrefix(DataPrefix, e);
  }

  lemma ClassifyDoneFrame()
    ensures Classify(FrameBody(DoneFrame)) == EndMarker
  {
    var body := DataPrefix + DoneToken;
    assert body[0] == 'd';
    assert OccursAt(body, DoneToken, |DataPrefix|);
    ScanFindsOccurrence(body, DoneToken, |DataPrefix|);
  }

  lemma ClassifyFrames(frames: seq<Frame>)
    requires forall k :: 0 <= k < |frames| ==> FrameFreeOfDone(frames[k])
    ensures forall k :: 0 <= k < |frames| ==> ClassifyAll(Bodies(frames))[k] == FrameSignal(frames[k])
  {
    forall k | 0 <= k < |frames|
      ensures ClassifyAll(Bodies(frames))[k] == FrameSignal(frames[k])
    {
      ClassifyFrame(frames[k]);
    }
  }

  /** What the client shows for the frames is their contents, absent ones counting as empty. */
  lemma {:induction false} StreamTextOfFrames(frames: seq<Frame>, sigs: seq<Signal>)
    requires |sigs| == |frames|
    requires forall k :: 0 <= k < |frames| ==> sigs[k] == FrameSignal(frames[k])
    ensures StreamText(sigs) == FrameContents(frames)
    decreases |frames|
  {
    if |frames| > 0 {
      StreamTextOfFrames(frames[1..], sigs[1..]);
    }
  }

  /** No string the server sends contains the end-of-stream token. */
  predicate StreamFreeOfDone(up: Upstream, model: string) {
    && (forall k :: 0 <= k < |up.deltas| && up.deltas[k].Some? ==>
          !Contains(up.deltas[k].value, DoneToken))
    && !Contains(model, DoneToken)
    && (up.failure.Some? ==> !Contains(up.failure.value, DoneToken))
  }

  lemma {:induction false} CollectedFreeOfDone(deltas: seq<Option<string>>)
    requires forall k :: 0 <= k < |deltas| && deltas[k].Some? ==> !Contains(deltas[k].value, DoneToken)
    ensures forall k :: 0 <= k < |Collected(deltas)| ==> !Contains(Collected(deltas)[k], DoneToken)
    decreases |deltas|
  {
    if |deltas| > 0 {
      CollectedFreeOfDone(deltas[1..]);
      assert forall k :: 0 < k < |deltas| ==> deltas[k] == deltas[1..][k - 1];
    }
  }

  /** The closing record of a failed stream keeps the token out when the message does. */
  lemma ErrorContentFreeOfDone(message: string)
    requires !Contains(message, DoneToken)
    ensures !Contains(StreamErrorPrefix + message, DoneToken)
  {
    NoDoneAfterPrefix(StreamErrorPrefix, message);
  }

  /** Under that condition every frame the server writes is read back as what it is. */
  lemma StreamFramesFreeOfDone(up: Upstream, model: string)
    requires StreamFreeOfDone(up, model)
    ensures var frames := StreamFrames(up, model);
            forall k :: 0 <= k < |frames| ==> FrameFreeOfDone(frames[k])
  {
    var frames := StreamFrames(up, model);
    var collected := Collected(up.deltas);
    CollectedFreeOfDone(up.deltas);
    var empty := "";
    NoBracketNoDone(empty);
    if up.failure.Some? {
      ErrorContentFreeOfDone(up.failure.value);
    }
    assert FrameFreeOfDone(frames[|frames| - 2]);
    assert forall k :: 0 <= k < |collected| ==> frames[k] == DataFrame(DeltaRecord(collected[k], model));
  }

  /** The round trip. Whatever the chunking of the server's body, once the client has read
      it the placeholder holds exactly the upstream's text, followed by the server's error
      text when the upstream failed; the cursor is off, no error is shown, loading is over,
      and the model the server used is the one the client selected. */
  lemma StreamRoundTrip(
    st: ChatState, configured: string, up: Upstream, chunks: seq<string>)
    requires IdsArePositions(st.messages)
    requires !Guarded(st)
    requires StreamFreeOfDone(up, ResolveModel(Some(st.selectedModel), configured))
    requires Concat(chunks) == WireText(StreamFrames(up, ResolveModel(Some(st.selectedModel), configured)))
    ensures st.selectedModel != "" ==> ResolveModel(Some(st.selectedModel), configured) == st.selectedModel
    ensures var after := SendMessage(st, Responded(true, true, chunks, ReadDone)).state;
            && after.messages[|st.messages| + 1].content ==
                 DeltaText(up.deltas)
                 + (if up.failure.Some? then StreamErrorPrefix + up.failure.value else "")
            && !after.isStreaming
            && after.error == None
            && !after.isLoading
  {
    var model := ResolveModel(Some(st.selectedModel), configured);
    var frames := StreamFrames(up, model);
    WireFragments(frames);
    StreamFramesFreeOfDone(up, model);
    ClassifyFrames(frames);
    var sigs := ClassifyAll(Bodies(frames));
    StreamTextOfFrames(frames, sigs);
    StreamFramesContents(up, model);
    SendMessageReadsBody(st, chunks, ReadDone);
    assert SignalEnds(sigs[|sigs| - 1]);
  }

  // ---------------------------------------------------------------------------
  // The end-of-stream token inside content

  /** A data frame whose content contains the token is taken for the end marker: the
      client's check looks at the raw fragment before parsing it, and escaping writes the
      token as it is. */
  lemma DoneInContentEndsFrame(r: Json.Record)
    requires r.content.Some? && Contains(r.content.value, DoneToken)
    ensures Classify(FrameBody(DataFrame(r))) == EndMarker
  {
    Json.EscapeKeepsDone(r.content.value);
    ContentShowsInFrame(r, DoneToken);
    DataBodyShape(r);
  }

  /** Text inside the escaped content field appears in the frame as it is. */
  lemma ContentShowsInFrame(r: Json.Record, p: string)
    requires r.content.Some? && Contains(Json.Escape(r.content.value), p)
    ensures Contains(FrameBody(DataFrame(r)), p)
  {
    var x := r.content.value;
    var ms := Json.Members(r);
    assert ms[0] == Json.ContentField(x);
    ContainsInside("\"", Json.Escape(x), "\"", p);
    var key := Json.EncodeKey("content") + ": ";
    ContainsInside(key, Json.EncodeString(x), "", p);
    assert Json.EncodeMember(ms[0]) == key + Json.EncodeString(x) + "";
    FirstMemberShows(ms, p);
    var e := Json.EncodeMembers(ms);
    ContainsInside("{", e, "}", p);
    ContainsInside(DataPrefix, Json.Encode(r), "", p);
    assert FrameBody(DataFrame(r)) == DataPrefix + Json.Encode(r) + "";
  }

  /** Text in the first member is text of the members' encoding. */
  lemma FirstMemberShows(ms: seq<Json.Member>, p: string)
    requires |ms| >= 1 && Contains(Json.EncodeMember(ms[0]), p)
    ensures Contains(Json.EncodeMembers(ms), p)
  {
    if |ms| > 1 {
      var m := Json.EncodeMember(ms[0]);
      ContainsFront(m, ", ", p);
      ContainsFront(m + ", ", Json.EncodeMembers(ms[1..]), p);
    }
  }

  /** The placeholder shows the text of the signals the body decodes to. */
  lemma PlaceholderShows(st: ChatState, chunks: seq<string>, sigs: seq<Signal>)
    requires IdsArePositions(st.messages)
    requires !Guarded(st)
    requires ClassifyAll(Fragments(Concat(chunks))) == sigs
    ensures SendMessage(st, Responded(true, true, chunks, ReadDone)).state
              .messages[|st.messages| + 1].content == StreamText(sigs)
  {
    SendMessageReadsBody(st, chunks, ReadDone);
  }

  /** The server's frames for a single delta, as the client classifies them. */
  lemma SingleDeltaFrames(delta: string, model: string)
    ensures StreamFrames(Upstream([Some(delta)], None), model) ==
              if delta == "" then [DataFrame(CompletionRecord(0, model)), DoneFrame]
              else [DataFrame(DeltaRecord(delta, model)),
                    DataFrame(CompletionRecord(1, model)), DoneFrame]
  {
    var deltas := [Some(delta)];
    assert deltas[1..] == [];
    assert Collected(deltas) == if delta == "" then [] else [delta];
  }

  /** A delta containing the token turns its own frame into an end marker; the closing
      frame and the end marker are read as usual. */
  lemma DoneDeltaSignals(delta: string, model: string, body: string)
    requires Contains(delta, DoneToken)
    requires !Contains(model, DoneToken)
    requires body == WireText(StreamFrames(Upstream([Some(delta)], None), model))
    ensures ClassifyAll(Fragments(body)) == [EndMarker, Payload(CompletionRecord(1, model)), EndMarker]
  {
    var frames := StreamFrames(Upstream([Some(delta)], None), model);
    assert delta != "" by {
      var i := OccurrenceOfScan(delta, DoneToken);
    }
    SingleDeltaFrames(delta, model);
    var sigs: seq<Signal> := [EndMarker, Payload(CompletionRecord(1, model)), EndMarker];
    forall k | 0 <= k < |frames|
      ensures Classify(FrameBody(frames[k])) == sigs[k]
    {
      if k == 0 {
        DoneInContentEndsFrame(DeltaRecord(delta, model));
      } else if k == 1 {
        ClosingFrameSignal(1, model);
      } else {
        ClassifyFrame(frames[k]);
      }
    }
    WireSignals(frames, sigs);
  }


  /** The closing data frame of a completed stream is read back as its record. */
  lemma ClosingFrameSignal(count: nat, model: string)
    requires !Contains(model, DoneToken)
    ensures Classify(FrameBody(DataFrame(CompletionRecord(count, model)))) ==
              Payload(CompletionRecord(count, model))
  {
    var empty := "";
    NoBracketNoDone(empty);
    ClassifyFrame(DataFrame(CompletionRecord(count, model)));
  }


  /** Two end markers around an empty closing record show no text. */
  lemma NothingShown(model: string)
    ensures StreamText([EndMarker, Payload(CompletionRecord(1, model)), EndMarker]) == ""
  {
    var sigs: seq<Signal> := [EndMarker, Payload(CompletionRecord(1, model)), EndMarker];
    var tail := [EndMarker];
    assert tail[1..] == [];
    assert StreamText(tail) == "";
    var middle := [Payload(CompletionRecord(1, model))] + tail;
    assert middle[1..] == tail;
    assert SignalText(middle[0]) == "";
    assert StreamText(middle) == "";
    assert sigs == [EndMarker] + middle;
    assert sigs[1..] == middle;
  }

  /** The counterexample to dropping the condition of the round trip: an upstream whose only
      delta contains the token. The server sends its text and counts one delta, but the
      client shows nothing. */
  lemma DoneDeltaIsDropped(
    st: ChatState, delta: string, model: string, chunks: seq<string>)
    requires IdsArePositions(st.messages)
    requires !Guarded(st)
    requires Contains(delta, DoneToken)
    requires !Contains(model, DoneToken)
    requires Concat(chunks) == WireText(StreamFrames(Upstream([Some(delta)], None), model))
    ensures DeltaText([Some(delta)]) == delta && delta != ""
    ensures var after := SendMessage(st, Responded(true, true, chunks, ReadDone)).state;
            after.messages[|st.messages| + 1].content == ""
  {
    assert [Some(delta)][1..] == [];
    assert delta != "" by {
      var i := OccurrenceOfScan(delta, DoneToken);
    }
    DoneDeltaSignals(delta, model, Concat(chunks));
    var sigs: seq<Signal> := [EndMarker, Payload(CompletionRecord(1, model)), EndMarker];
    NothingShown(model);
    PlaceholderShows(st, chunks, sigs);
  }
}
