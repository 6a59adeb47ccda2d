/**
 * The chat client's `sendMessage` (components/chat-area.tsx): the guard, the optimistic
 * user message and empty placeholder, the request it sends, the read loop that grows the
 * placeholder as content fragments arrive, and the error paths. The network and the
 * response body are parameters: what `fetch` and the body reader deliver.
 */
module ChatArea {
  import opened Wrappers
  import opened Text
  import Json
  import opened StreamDecoder

  // ---------------------------------------------------------------------------
  // State

  /** The two roles the client uses; the assistant's reply is shown as "system". */
  datatype Role = User | System

  function RoleName(role: Role): string {
    match role
    case User => "user"
    case System => "system"
  }

  datatype Message = Message(id: int, role: Role, content: string)

  const Greeting: string := "How can I help you today?"
  const DefaultModelId: string := "gpt-4.1"

  /** The fixed generation settings of every request; the temperature 0.7 is kept in tenths. */
  const TemperatureTenths: nat := 7
  const MaxTokens: nat := 1000

  /** The texts the client shows when a request fails. */
  const RequestFailedText: string := "API 요청에 실패했습니다."
  const NoBodyText: string := "응답 본문이 없습니다."
  const UnknownErrorText: string := "알 수 없는 오류가 발생했습니다."

  /** The component's state that `sendMessage` reads and writes. */
  datatype ChatState = ChatState(
    messages: seq<Message>,
    input: string,
    isLoading: bool,
    error: Option<string>,
    streamingMessage: string,
    isStreaming: bool,
    selectedModel: string)

  /** The state when the component mounts: one greeting from the "system" side. */
  const InitialState: ChatState :=
    ChatState([Message(1, System, Greeting)], "", false, None, "", false, DefaultModelId)

  /** Message ids are their positions counted from one. `sendMessage` derives new ids from
      the length of the list, so this is what keeps ids distinct. */
  predicate IdsArePositions(messages: seq<Message>) {
    forall i :: 0 <= i < |messages| ==> messages[i].id == i + 1
  }

  /** The streaming cursor is drawn on a message when the client is streaming and the
      message's id equals the number of messages. */
  predicate ShowsCursor(st: ChatState, m: Message) {
    st.isStreaming && m.id == |st.messages|
  }

  /** The positions of the messages drawn with the cursor. When ids are positions this is
      the last message while streaming, and nothing otherwise. */
  function CursorPositions(st: ChatState): (r: set<int>)
    ensures forall i :: i in r ==> 0 <= i < |st.messages| && st.isStreaming
    ensures IdsArePositions(st.messages) ==>
              r == if st.isStreaming && |st.messages| > 0 then {|st.messages| - 1} else {}
  {
    var r := set i | 0 <= i < |st.messages| && ShowsCursor(st, st.messages[i]);
    assert IdsArePositions(st.messages) && st.isStreaming && |st.messages| > 0 ==>
             |st.messages| - 1 in r;
    r
  }

  // ---------------------------------------------------------------------------
  // The request

  datatype WireMessage = WireMessage(role: string, content: string)

  /** The body of the POST to the chat endpoint. */
  datatype RequestData = RequestData(
    messages: seq<WireMessage>,
    model: string,
    temperatureTenths: nat,
    maxTokens: nat,
    stream: bool)

  /** Each message reduced to its role name and content, in order. */
  function ToWire(messages: seq<Message>): (r: seq<WireMessage>)
    ensures |r| == |messages|
    ensures forall i :: 0 <= i < |r| ==>
              r[i] == WireMessage(RoleName(messages[i].role), messages[i].content)
    decreases |messages|
  {
    if |messages| == 0 then []
    else [WireMessage(RoleName(messages[0].role), messages[0].content)] + ToWire(messages[1..])
  }

  // ---------------------------------------------------------------------------
  // The read loop

  /** What the read loop keeps between fragments: the component state, the placeholder's
      id and the text accumulated so far. */
  datatype Reading = Reading(chat: ChatState, target: int, fullContent: string)

  /** The `messages.map` update: the message with the given id gets the content, every other
      message is kept. */
  function SetContent(messages: seq<Message>, id: int, content: string): (r: seq<Message>)
    ensures |r| == |messages|
    ensures forall i :: 0 <= i < |r| ==>
              r[i].id == messages[i].id && r[i].role == messages[i].role
    ensures forall i :: 0 <= i < |r| ==>
              r[i].content == (if messages[i].id == id then content else messages[i].content)
    decreases |messages|
  {
    if |messages| == 0 then []
    else
      var m := messages[0];
      [if m.id == id then m.(content := content) else m] + SetContent(messages[1..], id, content)
  }

  /** JavaScript truthiness of the `content` field: present and not the empty string. */
  predicate Truthy(content: Option<string>) {
    content.Some? && content.value != ""
  }

  /** The text a classified fragment adds to the reply: the content of a record, when truthy. */
  function SignalText(sig: Signal): string {
    if sig.Payload? && Truthy(sig.record.content) then sig.record.content.value else ""
  }

  /** A classified fragment that switches the cursor off: the end marker, or a record whose
      `is_streaming` is exactly `false`. */
  predicate SignalEnds(sig: Signal) {
    sig.EndMarker? || (sig.Payload? && sig.record.isStreaming == Some(false))
  }

  /** The text a list of classified fragments adds, in order. */
  function StreamText(sigs: seq<Signal>): string
    decreases |sigs|
  {
    if |sigs| == 0 then "" else SignalText(sigs[0]) + StreamText(sigs[1..])
  }

  /** Every message carrying the placeholder's id shows the accumulated text. */
  predicate Tracks(s: Reading) {
    forall i :: 0 <= i < |s.chat.messages| && s.chat.messages[i].id == s.target ==>
      s.chat.messages[i].content == s.fullContent
  }

  /** Two message lists with the same ids and roles in the same places. */
  predicate SameShape(a: seq<Message>, b: seq<Message>) {
    |a| == |b| && forall i :: 0 <= i < |a| ==> a[i].id == b[i].id && a[i].role == b[i].role
  }

  /** The read loop changes only the messages and the streaming flag. */
  predicate OnlyMessagesAndStreaming(before: ChatState, after: ChatState) {
    after.(messages := before.messages, isStreaming := before.isStreaming) == before
  }

  /** What a step of the read loop may change: the flag, the accumulated text and the
      content of the messages carrying the placeholder's id; the placeholder keeps showing
      the accumulated text. */
  predicate Evolves(s: Reading, r: Reading) {
    && r.target == s.target
    && OnlyMessagesAndStreaming(s.chat, r.chat)
    && SameShape(s.chat.messages, r.chat.messages)
    && (forall i :: 0 <= i < |r.chat.messages| && r.chat.messages[i].id != s.target ==>
          r.chat.messages[i] == s.chat.messages[i])
    && (Tracks(s) ==> Tracks(r))
  }

  lemma EvolvesTransitive(a: Reading, b: Reading, c: Reading)
    requires Evolves(a, b) && Evolves(b, c)
    ensures Evolves(a, c)
  {
  }

  /** The body of the `for (const line of lines)` loop, for a fragment already classified. */
  function ApplySignal(s: Reading, sig: Signal): (r: Reading)
    ensures Evolves(s, r)
    ensures r.fullContent == s.fullContent + SignalText(sig)
    ensures r.chat.isStreaming <==> s.chat.isStreaming && !SignalEnds(sig)
  {
    match sig
    case EndMarker => s.(chat := s.chat.(isStreaming := false))
    case Payload(rec) =>
      var grown :=
        if Truthy(rec.content) then
          var full := s.fullContent + rec.content.value;
          Reading(s.chat.(messages := SetContent(s.chat.messages, s.target, full)), s.target, full)
        else s;
      if rec.isStreaming == Some(false) then grown.(chat := grown.chat.(isStreaming := false))
      else grown
    case _ => s
  }

  /** Classified fragments, in order. The placeholder always shows exactly the accumulated
      text, which grows by the concatenated truthy contents. */
  function ApplySignals(s: Reading, sigs: seq<Signal>): (r: Reading)
    ensures Evolves(s, r)
    ensures r.fullContent == s.fullContent + StreamText(sigs)
    decreases |sigs|
  {
    if |sigs| == 0 then s
    else
      var t := ApplySignal(s, sigs[0]);
      var r := ApplySignals(t, sigs[1..]);
      EvolvesTransitive(s, t, r);
      AppendAssoc(s.fullContent, SignalText(sigs[0]), StreamText(sigs[1..]));
      r
  }

  /** The cursor stays on exactly when it was on and no fragment ended it. */
  lemma {:induction false} ApplySignalsStreaming(s: Reading, sigs: seq<Signal>)
    ensures ApplySignals(s, sigs).chat.isStreaming <==>
              s.chat.isStreaming && forall k :: 0 <= k < |sigs| ==> !SignalEnds(sigs[k])
    decreases |sigs|
  {
    if |sigs| > 0 {
      ApplySignalsStreaming(ApplySignal(s, sigs[0]), sigs[1..]);
      assert forall k :: 0 < k < |sigs| ==> sigs[k] == sigs[1..][k - 1];
    }
  }

  /** Processing two lists of fragments one after the other is processing their concatenation. */
  lemma {:induction false} ApplySignalsAppend(s: Reading, a: seq<Signal>, b: seq<Signal>)
    ensures ApplySignals(s, a + b) == ApplySignals(ApplySignals(s, a), b)
    decreases |a|
  {
    if |a| == 0 {
      assert a + b == b;
    } else {
      assert (a + b)[1..] == a[1..] + b;
      ApplySignalsAppend(ApplySignal(s, a[0]), a[1..], b);
    }
  }

  /** The fragments of one or more chunks, in order. */
  function ApplyFragments(s: Reading, lines: seq<string>): Reading {
    ApplySignals(s, ClassifyAll(lines))
  }

  lemma ApplyFragmentsAppend(s: Reading, a: seq<string>, b: seq<string>)
    ensures ApplyFragments(s, a + b) == ApplyFragments(ApplyFragments(s, a), b)
  {
    ClassifyAllAppend(a, b);
    ApplySignalsAppend(s, ClassifyAll(a), ClassifyAll(b));
  }

  /** A fragment that is blank, or that lacks the end-of-stream token and does not parse
      once its prefix is removed (an empty payload included), changes nothing: dropping it
      from the stream leaves the outcome as it was. */
  lemma MalformedIsSkipped(s: Reading, before: seq<string>, bad: string, after: seq<string>)
    requires AllSpace(bad) || (!Contains(bad, DoneToken) && Json.Parse(Trim(StripDataPrefix(bad))).None?)
    ensures ApplyFragments(s, before + [bad] + after) == ApplyFragments(s, before + after)
  {
    ApplyFragmentsAppend(s, before + [bad], after);
    ApplyFragmentsAppend(s, before, [bad]);
    ApplyFragmentsAppend(s, before, after);
    assert ClassifyAll([bad]) == [Classify(bad)];
    assert ApplySignals(ApplyFragments(s, before), [Classify(bad)]) == ApplyFragments(s, before);
  }

  /** The `while (true)` loop over the chunks the body delivered: each chunk is fed to the
      carry buffer and its complete fragments are applied. */
  function ReadBody(s: Reading, buffer: string, chunks: seq<string>): (r: (Reading, string))
    ensures Evolves(s, r.0)
    decreases |chunks|
  {
    if |chunks| == 0 then (s, buffer)
    else
      var (lines, next) := Feed(buffer, chunks[0]);
      var t := ApplyFragments(s, lines);
      var r := ReadBody(t, next, chunks[1..]);
      EvolvesTransitive(s, t, r.0);
      r
  }

  /** Reading chunk by chunk is decoding all the chunks first and applying the fragments. */
  lemma {:induction false} ReadBodyFeeds(s: Reading, buffer: string, chunks: seq<string>)
    ensures ReadBody(s, buffer, chunks) ==
              (ApplyFragments(s, FeedAll(buffer, chunks).0), FeedAll(buffer, chunks).1)
    decreases |chunks|
  {
    if |chunks| > 0 {
      var (lines, next) := Feed(buffer, chunks[0]);
      ReadBodyFeeds(ApplyFragments(s, lines), next, chunks[1..]);
      ApplyFragmentsAppend(s, lines, FeedAll(next, chunks[1..]).0);
    }
  }

  /** The outcome of reading depends only on the text of the body, not on how it was cut
      into chunks: it is the complete fragments of the whole text applied in order, and the
      trailing piece without a separator is left in the buffer, never applied. */
  lemma ReadBodyIsChunkingInvariant(s: Reading, chunks: seq<string>)
    ensures ReadBody(s, "", chunks) ==
              (ApplyFragments(s, Fragments(Concat(chunks))), Remainder(Concat(chunks)))
  {
    ReadBodyFeeds(s, "", chunks);
    ChunkingInvariance(chunks, chunks);
  }

  // ---------------------------------------------------------------------------
  // sendMessage

  /** What a `catch` receives: an `Error` with its message, or any other value. */
  datatype Thrown = ErrorObject(message: string) | OtherValue

  /** How the body reader stopped: it reported `done`, or `read()` rejected. */
  datatype ReadEnd = ReadDone | ReadFailed(thrown: Thrown)

  /** What the network does with the request: `fetch` rejects, or a response arrives with
      its status, whether it has a body, the decoded chunks of the body, and how reading ended. */
  datatype Response =
    | Rejected(thrown: Thrown)
    | Responded(ok: bool, hasBody: bool, chunks: seq<string>, readEnd: ReadEnd)

  /** The message shown for a caught value. */
  function ErrorText(e: Thrown): string {
    match e
    case ErrorObject(m) => m
    case OtherValue => UnknownErrorText
  }

  /** The `catch` block: show the error and switch the cursor off; the messages, including
      whatever the placeholder has received, are kept. */
  function Fail(chat: ChatState, e: Thrown): ChatState {
    chat.(error := Some(ErrorText(e)), isStreaming := false)
  }

  /** The response leads to the `catch` block. */
  predicate Fails(response: Response) {
    match response
    case Rejected(_) => true
    case Responded(ok, hasBody, _, readEnd) => !ok || !hasBody || readEnd.ReadFailed?
  }

  /** The error text the `catch` block shows for a failing response. */
  function FailureText(response: Response): string
    requires Fails(response)
  {
    match response
    case Rejected(e) => ErrorText(e)
    case Responded(ok, hasBody, _, readEnd) =>
      if !ok then RequestFailedText
      else if !hasBody then NoBodyText
      else ErrorText(readEnd.thrown)
  }

  /** The state after `sendMessage` returns, and the request it sent, if any. */
  datatype SendResult = SendResult(state: ChatState, request: Option<RequestData>)

  /** The guard of `sendMessage`: an input of white space only, or a request in flight. */
  predicate Guarded(st: ChatState) {
    Trim(st.input) == "" || st.isLoading
  }

  /** The synchronous part before `fetch`: the user's message and the empty placeholder are
      appended with the next two ids, the input is cleared, loading and streaming start and
      the previous error is cleared. */
  function Start(st: ChatState): (r: ChatState)
    ensures var n := |st.messages|;
            && |r.messages| == n + 2
            && r.messages[..n] == st.messages
            && r.messages[n] == Message(n + 1, User, st.input)
            && r.messages[n + 1] == Message(n + 2, System, "")
    ensures IdsArePositions(st.messages) ==> IdsArePositions(r.messages)
    ensures r == st.(messages := r.messages, input := "", isLoading := true, error := None,
                     streamingMessage := "", isStreaming := true)
  {
    var n := |st.messages|;
    var r := st.(
      messages := st.messages + [Message(n + 1, User, st.input), Message(n + 2, System, "")],
      input := "", isLoading := true, error := None, streamingMessage := "", isStreaming := true);
    assert r.messages[..n] == st.messages;
    r
  }

  /** Everything after the placeholder is added, up to the `finally` block: the fetch, the
      status and body checks, the read loop, and the `catch` block. Only the messages with
      the placeholder's id, the cursor and the error change; a failure shows its text and
      switches the cursor off. */
  function Settle(started: ChatState, target: int, response: Response): (r: ChatState)
    ensures SameShape(started.messages, r.messages)
    ensures forall i :: 0 <= i < |r.messages| && r.messages[i].id != target ==>
              r.messages[i] == started.messages[i]
    ensures r == started.(messages := r.messages, isStreaming := r.isStreaming, error := r.error)
    ensures Fails(response) ==> r.error == Some(FailureText(response)) && !r.isStreaming
    ensures !Fails(response) ==> r.error == started.error
  {
    match response
    case Rejected(e) => Fail(started, e)
    case Responded(ok, hasBody, chunks, readEnd) =>
      if !ok then Fail(started, ErrorObject(RequestFailedText))
      else if !hasBody then Fail(started, ErrorObject(NoBodyText))
      else
        var read := ReadBody(Reading(started, target, ""), "", chunks).0;
        match readEnd
        case ReadDone => read.chat
        case ReadFailed(e) => Fail(read.chat, e)
  }

  /** `sendMessage`, with the network's behaviour as a parameter. Nothing happens when the
      input is blank or a request is in flight; otherwise the request carries the whole
      conversation followed by the new message, and afterwards loading is over. */
  function SendMessage(st: ChatState, response: Response): (r: SendResult)
    ensures r.request.None? <==> AllSpace(st.input) || st.isLoading
    ensures r.request.None? ==> r.state == st
    ensures r.request.Some? ==>
              && r.request.value.messages == ToWire(st.messages) + [WireMessage("user", st.input)]
              && r.request.value.model == st.selectedModel
              && r.request.value.temperatureTenths == 7
              && r.request.value.maxTokens == 1000
              && r.request.value.stream
    ensures r.request.Some? ==>
              && !r.state.isLoading
              && r.state.input == ""
              && r.state.streamingMessage == ""
              && r.state.selectedModel == st.selectedModel
              && (r.state.error.Some? <==> Fails(response))
  {
    if Guarded(st) then SendResult(st, None)
    else
      var n := |st.messages|;
      var request := RequestData(
        ToWire(st.messages) + [WireMessage(RoleName(User), st.input)],
        st.selectedModel, TemperatureTenths, MaxTokens, true);
      var after := Settle(Start(st), n + 2, response);
      SendResult(after.(isLoading := false), Some(request))
  }

  /** The mounted state satisfies the id invariant, and every call keeps it, so ids stay
      distinct and the cursor sits on the last message. */
  lemma SendMessageKeepsIds(st: ChatState, response: Response)
    requires IdsArePositions(st.messages)
    ensures IdsArePositions(InitialState.messages)
    ensures IdsArePositions(SendMessage(st, response).state.messages)
  {
    if !Guarded(st) {
      var started := Start(st);
      var after := Settle(started, |st.messages| + 2, response);
      assert SameShape(started.messages, after.messages);
    }
  }

  /** A call past the guard leaves the earlier messages as they were, then the user's
      message, then the reply placeholder. */
  lemma SendMessageAppends(st: ChatState, response: Response)
    requires IdsArePositions(st.messages)
    requires !Guarded(st)
    ensures var msgs := SendMessage(st, response).state.messages;
            var n := |st.messages|;
            && |msgs| == n + 2
            && msgs[..n] == st.messages
            && msgs[n] == Message(n + 1, User, st.input)
            && msgs[n + 1].id == n + 2 && msgs[n + 1].role == System
  {
    var n := |st.messages|;
    var started := Start(st);
    SendMessageSettles(st, response);
    SettleKeepsOthers(started, n + 2, response, n);
  }

  /** Settling touches only the messages carrying the target id: a prefix without it, and
      the message after the prefix when it does not carry it either, stay as they were. */
  lemma SettleKeepsOthers(started: ChatState, target: int, response: Response, n: nat)
    requires n < |started.messages|
    requires forall i :: 0 <= i <= n ==> started.messages[i].id != target
    ensures var msgs := Settle(started, target, response).messages;
            msgs[..n + 1] == started.messages[..n + 1]
  {
  }

  /** A request rejected by `fetch`, answered with an error status, or answered without a
      body leaves the placeholder empty, shows the error and switches the cursor off. */
  lemma SendMessageFailsEarly(st: ChatState, response: Response)
    requires IdsArePositions(st.messages)
    requires !Guarded(st)
    requires response.Rejected? || !response.ok || !response.hasBody
    ensures var after := SendMessage(st, response).state;
            && after.messages[|st.messages| + 1].content == ""
            && after.error == Some(FailureText(response))
            && !after.isStreaming
  {
    SendMessageAppends(st, response);
  }

  /** Reading a response body: the placeholder shows the truthy contents of the complete
      fragments of the whole body in order, whatever the chunking; the cursor stays on only
      when reading ended normally and no fragment ended streaming; a failed read shows its
      error but keeps the text received so far. */
  lemma SendMessageReadsBody(st: ChatState, chunks: seq<string>, readEnd: ReadEnd)
    requires IdsArePositions(st.messages)
    requires !Guarded(st)
    ensures var after := SendMessage(st, Responded(true, true, chunks, readEnd)).state;
            var sigs := ClassifyAll(Fragments(Concat(chunks)));
            && after.messages[|st.messages| + 1].content == StreamText(sigs)
            && (after.isStreaming <==>
                  readEnd.ReadDone? && forall k :: 0 <= k < |sigs| ==> !SignalEnds(sigs[k]))
            && (after.error.Some? <==> readEnd.ReadFailed?)
  {
    var n := |st.messages|;
    var started := Start(st);
    assert started.messages[n + 1].id == n + 2;
    SettleReadsBody(started, n + 2, n + 1, chunks, readEnd);
    SendMessageSettles(st, Responded(true, true, chunks, readEnd));
  }

  /** Past the guard, the outcome of `sendMessage` is the settled start with loading over. */
  lemma SendMessageSettles(st: ChatState, response: Response)
    requires !Guarded(st)
    ensures SendMessage(st, response).state ==
              Settle(Start(st), |st.messages| + 2, response).(isLoading := false)
  {
  }

  /** A body read to its end, or until the read failed, into a fresh placeholder. */
  lemma SettleReadsBody(started: ChatState, target: int, j: int, chunks: seq<string>, readEnd: ReadEnd)
    requires started.isStreaming && started.error == None
    requires 0 <= j < |started.messages| && started.messages[j].id == target
    requires forall i :: 0 <= i < |started.messages| && started.messages[i].id == target ==>
               started.messages[i].content == ""
    ensures var settled := Settle(started, target, Responded(true, true, chunks, readEnd));
            var sigs := ClassifyAll(Fragments(Concat(chunks)));
            && |settled.messages| == |started.messages|
            && settled.messages[j].content == StreamText(sigs)
            && (settled.isStreaming <==>
                  readEnd.ReadDone? && forall k :: 0 <= k < |sigs| ==> !SignalEnds(sigs[k]))
            && (settled.error.Some? <==> readEnd.ReadFailed?)
  {
    BodyShows(started, target, j, chunks);
  }

  /** Reading a whole body into a fresh placeholder: it ends up showing the text of the
      body's fragments, the cursor stays on while no fragment ended streaming, and the
      error is untouched. */
  lemma BodyShows(started: ChatState, target: int, j: int, chunks: seq<string>)
    requires started.isStreaming
    requires 0 <= j < |started.messages| && started.messages[j].id == target
    requires forall i :: 0 <= i < |started.messages| && started.messages[i].id == target ==>
               started.messages[i].content == ""
    ensures var read := ReadBody(Reading(started, target, ""), "", chunks).0;
            var sigs := ClassifyAll(Fragments(Concat(chunks)));
            && |read.chat.messages| == |started.messages|
            && read.chat.messages[j].content == StreamText(sigs)
            && (read.chat.isStreaming <==> forall k :: 0 <= k < |sigs| ==> !SignalEnds(sigs[k]))
            && read.chat.error == started.error
  {
    var s0 := Reading(started, target, "");
    var sigs := ClassifyAll(Fragments(Concat(chunks)));
    ReadBodyIsChunkingInvariant(s0, chunks);
    ApplySignalsStreaming(s0, sigs);
    var read := ApplySignals(s0, sigs);
    assert Tracks(s0);
    assert read.chat.messages[j].id == target;
    assert "" + StreamText(sigs) == StreamText(sigs);
  }

  /** How the body was cut into chunks does not matter to the outcome of `sendMessage`. */
  lemma SendMessageIsChunkingInvariant(
    st: ChatState, ok: bool, hasBody: bool, chunks1: seq<string>, chunks2: seq<string>,
    readEnd: ReadEnd)
    requires Concat(chunks1) == Concat(chunks2)
    ensures SendMessage(st, Responded(ok, hasBody, chunks1, readEnd)) ==
            SendMessage(st, Responded(ok, hasBody, chunks2, readEnd))
  {
    var s0 := Reading(Start(st), |st.messages| + 2, "");
    ReadBodyIsChunkingInvariant(s0, chunks1);
    ReadBodyIsChunkingInvariant(s0, chunks2);
  }
}
