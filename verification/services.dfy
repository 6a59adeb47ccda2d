/**
 * The server's chat services (api/app/services.py): which model a request uses, the
 * frames `stream_generator` yields for an upstream completion stream, and the reply of the
 * non-streaming `generate_chat_response`. The upstream completion client is not modelled:
 * what it delivers, or the error it raises, is a parameter.
 */
module Services {
  import opened Wrappers
  import opened Text
  import Json

  /** The model used when the request names none and no override is configured. */
  const DefaultGptModel: string := "gpt-4-1106-preview"

  const StreamErrorPrefix: string := "Error streaming response: "
  const ChatErrorPrefix: string := "Error generating response: "

  /** `request.model or GPT_MODEL`: Python's `or` falls back for an absent model and for the
      empty string alike; any other requested name is used as it is. `configured` is
      `GPT_MODEL`, which is `DefaultGptModel` unless the environment overrides it. */
  function ResolveModel(requested: Option<string>, configured: string): (model: string)
    ensures model == configured || (requested.Some? && model == requested.value)
    ensures model == configured <== requested.None? || requested.value == ""
    ensures model == requested.GetOr("") <== requested.Some? && requested.value != ""
    ensures model != "" <== configured != ""
  {
    match requested
    case Some(name) => if name != "" then name else configured
    case None => configured
  }

  // ---------------------------------------------------------------------------
  // Streaming

  /** What the upstream stream delivered: the `delta.content` of each chunk, in order, and
      the message of the exception that ended it early, if one did (raised by the call
      itself, or while iterating). */
  datatype Upstream = Upstream(deltas: seq<Option<string>>, failure: Option<string>)

  /** `collected_messages`: the deltas that pass `if content:`, present and non-empty. */
  function Collected(deltas: seq<Option<string>>): (r: seq<string>)
    ensures |r| <= |deltas|
    ensures forall k :: 0 <= k < |r| ==> r[k] != ""
    decreases |deltas|
  {
    if |deltas| == 0 then []
    else
      var rest := Collected(deltas[1..]);
      if deltas[0].Some? && deltas[0].value != "" then [deltas[0].value] + rest else rest
  }

  /** A single delta is collected, whole, exactly when it is present and non-empty. */
  lemma CollectedOne(d: Option<string>)
    ensures Collected([d]) == if d.Some? && d.value != "" then [d.value] else []
  {
    assert [d][1..] == [];
  }

  /** The filter goes delta by delta: collecting two runs of deltas one after the other is
      collecting them together. With `CollectedOne`, this fixes the result: every truthy
      delta gives exactly one entry, in order, and no two are merged. */
  lemma {:induction false} CollectedAppend(a: seq<Option<string>>, b: seq<Option<string>>)
    ensures Collected(a + b) == Collected(a) + Collected(b)
    decreases |a|
  {
    if |a| == 0 {
      assert a + b == b;
    } else {
      assert (a + b)[0] == a[0];
      assert (a + b)[1..] == a[1..] + b;
      CollectedAppend(a[1..], b);
    }
  }

  /** The text the upstream produced: every delta, an absent one counting as empty. */
  function DeltaText(deltas: seq<Option<string>>): string
    decreases |deltas|
  {
    if |deltas| == 0 then "" else deltas[0].GetOr("") + DeltaText(deltas[1..])
  }

  /** Skipping absent and empty deltas loses none of the text. */
  lemma {:induction false} CollectedKeepsText(deltas: seq<Option<string>>)
    ensures Concat(Collected(deltas)) == DeltaText(deltas)
    decreases |deltas|
  {
    if |deltas| > 0 {
      CollectedKeepsText(deltas[1..]);
      var rest := Collected(deltas[1..]);
      if deltas[0].Some? && deltas[0].value != "" {
        assert ([deltas[0].value] + rest)[1..] == rest;
      } else {
        assert deltas[0].GetOr("") + DeltaText(deltas[1..]) == DeltaText(deltas[1..]);
      }
    }
  }

  /** One event of the stream: `data: <json>` or the end marker `data: [DONE]`. */
  datatype Frame = DataFrame(record: Json.Record) | DoneFrame

  /** A frame as written to the wire, without its terminating blank line. */
  function FrameBody(f: Frame): string {
    match f
    case DataFrame(r) => DataPrefix + Json.Encode(r)
    case DoneFrame => DataPrefix + DoneToken
  }

  /** The frames as the response body: each followed by the blank line. */
  function WireText(frames: seq<Frame>): string
    decreases |frames|
  {
    if |frames| == 0 then "" else FrameBody(frames[0]) + Separator + WireText(frames[1..])
  }

  /** The frame for one collected delta: `{"content": …, "is_streaming": true, "model": …}`. */
  function DeltaRecord(content: string, model: string): Json.Record {
    Json.Record(Some(content), Some(true), None, Some(model), None)
  }

  /** The closing frame of a completed stream: empty content, streaming over, and
      `usage.completion_tokens` set to the number of collected deltas. */
  function CompletionRecord(count: nat, model: string): Json.Record {
    Json.Record(Some(""), Some(false), None, Some(model), Some(count))
  }

  /** The closing frame of a failed stream: the prefixed message as content, streaming over,
      and the bare message as `error`. */
  function ErrorRecord(message: string, model: string): Json.Record {
    Json.Record(Some(StreamErrorPrefix + message), Some(false), Some(message), Some(model), None)
  }

  /** The record of the closing data frame. */
  function ClosingRecord(up: Upstream, model: string): Json.Record {
    match up.failure
    case None => CompletionRecord(|Collected(up.deltas)|, model)
    case Some(message) => ErrorRecord(message, model)
  }

  /** One delta frame per collected delta, in order. */
  function DeltaFrames(collected: seq<string>, model: string): (r: seq<Frame>)
    ensures |r| == |collected|
    ensures forall k :: 0 <= k < |r| ==> r[k] == DataFrame(DeltaRecord(collected[k], model))
    decreases |collected|
  {
    if |collected| == 0 then []
    else [DataFrame(DeltaRecord(collected[0], model))] + DeltaFrames(collected[1..], model)
  }

  /** `stream_generator`: the delta frames of everything collected before the stream ended
      or failed, one closing data frame, and the end marker. Every data frame names the
      model; only the closing one says streaming is over. */
  function StreamFrames(up: Upstream, model: string): (r: seq<Frame>)
    ensures |r| == |Collected(up.deltas)| + 2
    ensures r[|r| - 1] == DoneFrame
    ensures forall k :: 0 <= k < |Collected(up.deltas)| ==>
              r[k] == DataFrame(DeltaRecord(Collected(up.deltas)[k], model))
    ensures forall k :: 0 <= k < |r| - 1 ==> r[k].DataFrame? && r[k].record.model == Some(model)
    ensures forall k :: 0 <= k < |r| - 1 ==>
              (r[k].record.isStreaming == Some(true) <==> k < |r| - 2)
    ensures r[|r| - 2] == DataFrame(ClosingRecord(up, model))
    ensures up.failure.Some? ==> r[|r| - 2].record.error == up.failure
  {
    DeltaFrames(Collected(up.deltas), model) + [DataFrame(ClosingRecord(up, model)), DoneFrame]
  }

  /** The contents of the data frames, in order. */
  function FrameContents(frames: seq<Frame>): string
    decreases |frames|
  {
    if |frames| == 0 then ""
    else
      (if frames[0].DataFrame? then frames[0].record.content.GetOr("") else "")
      + FrameContents(frames[1..])
  }

  lemma {:induction false} FrameContentsAppend(a: seq<Frame>, b: seq<Frame>)
    ensures FrameContents(a + b) == FrameContents(a) + FrameContents(b)
    decreases |a|
  {
    if |a| == 0 {
      assert a + b == b;
    } else {
      assert (a + b)[0] == a[0];
      assert (a + b)[1..] == a[1..] + b;
      FrameContentsAppend(a[1..], b);
      var head := if a[0].DataFrame? then a[0].record.content.GetOr("") else "";
      AppendAssoc(head, FrameContents(a[1..]), FrameContents(b));
    }
  }

  lemma {:induction false} DeltaFramesContents(collected: seq<string>, model: string)
    ensures FrameContents(DeltaFrames(collected, model)) == Concat(collected)
    decreases |collected|
  {
    if |collected| > 0 {
      DeltaFramesContents(collected[1..], model);
      assert DeltaFrames(collected, model)[1..] == DeltaFrames(collected[1..], model);
    }
  }

  /** The streamed contents, read in order, are exactly the upstream text, followed by the
      prefixed error message when the stream failed. */
  lemma StreamFramesContents(up: Upstream, model: string)
    ensures FrameContents(StreamFrames(up, model)) ==
              DeltaText(up.deltas)
              + (if up.failure.Some? then StreamErrorPrefix + up.failure.value else "")
  {
    var collected := Collected(up.deltas);
    var closing := [DataFrame(ClosingRecord(up, model)), DoneFrame];
    FrameContentsAppend(DeltaFrames(collected, model), closing);
    DeltaFramesContents(collected, model);
    CollectedKeepsText(up.deltas);
    assert FrameContents([DoneFrame]) == "" by {
      assert [DoneFrame][1..] == [];
    }
    assert FrameContents(closing) == ClosingRecord(up, model).content.value + FrameContents([DoneFrame]) by {
      assert closing[1..] == [DoneFrame];
    }
  }

  /** The number of data frames that say streaming goes on. */
  function StreamingFrames(frames: seq<Frame>): nat
    decreases |frames|
  {
    if |frames| == 0 then 0
    else
      (if frames[0].DataFrame? && frames[0].record.isStreaming == Some(true) then 1 else 0)
      + StreamingFrames(frames[1..])
  }

  lemma {:induction false} StreamingFramesAppend(a: seq<Frame>, b: seq<Frame>)
    ensures StreamingFrames(a + b) == StreamingFrames(a) + StreamingFrames(b)
    decreases |a|
  {
    if |a| == 0 {
      assert a + b == b;
    } else {
      assert (a + b)[1..] == a[1..] + b;
      StreamingFramesAppend(a[1..], b);
    }
  }

  lemma {:induction false} DeltaFramesStreaming(collected: seq<string>, model: string)
    ensures StreamingFrames(DeltaFrames(collected, model)) == |collected|
    decreases |collected|
  {
    if |collected| > 0 {
      DeltaFramesStreaming(collected[1..], model);
      assert DeltaFrames(collected, model)[1..] == DeltaFrames(collected[1..], model);
    }
  }

  /** `completion_tokens` counts the delta frames sent, not tokens: it is the number of data
      frames that say streaming goes on. */
  lemma CompletionTokensCountFrames(deltas: seq<Option<string>>, model: string)
    ensures var frames := StreamFrames(Upstream(deltas, None), model);
            frames[|frames| - 2].record.completionTokens == Some(StreamingFrames(frames))
  {
    var up := Upstream(deltas, None);
    var collected := Collected(deltas);
    var closing := [DataFrame(ClosingRecord(up, model)), DoneFrame];
    StreamingFramesAppend(DeltaFrames(collected, model), closing);
    DeltaFramesStreaming(collected, model);
    assert StreamingFrames([DoneFrame]) == 0 by {
      assert [DoneFrame][1..] == [];
    }
    assert StreamingFrames(closing) == 0 + StreamingFrames([DoneFrame]) by {
      assert closing[1..] == [DoneFrame];
    }
  }

  // ---------------------------------------------------------------------------
  // Non-streaming

  datatype TokenCounts = TokenCounts(promptTokens: nat, completionTokens: nat, totalTokens: nat)

  /** The `usage` dictionary of a reply: the token counts, or the error. */
  datatype Usage = TokenUsage(counts: TokenCounts) | ErrorUsage(error: string)

  datatype ChatResponse = ChatResponse(response: string, model: string, usage: Usage, isStreaming: bool)

  /** What the upstream call returned: the first choice's content, which may be absent,
      and the usage counts. */
  datatype Completion = Completion(content: Option<string>, counts: TokenCounts)

  /** The upstream call answers, or raises with a message. */
  datatype ClientOutcome = Answered(completion: Completion) | Raised(message: string)

  /** `generate_chat_response`. Every exception inside the `try` is turned into a reply
      with the prefixed message as the response and the bare message as the usage; an
      absent content is refused by the reply's `response: str` field, and `rejection` is
      the message of that refusal. */
  function GenerateChatResponse(
    requested: Option<string>, configured: string, outcome: ClientOutcome, rejection: string)
    : (r: ChatResponse)
    ensures r.model == ResolveModel(requested, configured)
    ensures !r.isStreaming
    ensures r.usage.TokenUsage? <==> outcome.Answered? && outcome.completion.content.Some?
    ensures r.usage.TokenUsage? ==>
              r.response == outcome.completion.content.value
              && r.usage.counts == outcome.completion.counts
    ensures r.usage.ErrorUsage? ==> r.response == ChatErrorPrefix + r.usage.error
    ensures outcome.Raised? ==> r.usage.error == outcome.message
  {
    var model := ResolveModel(requested, configured);
    var failed := (message: string) =>
      ChatResponse(ChatErrorPrefix + message, model, ErrorUsage(message), false);
    match outcome
    case Raised(message) => failed(message)
    case Answered(Completion(content, counts)) =>
      match content
      case None => failed(rejection)
      case Some(text) => ChatResponse(text, model, TokenUsage(counts), false)
  }
}
