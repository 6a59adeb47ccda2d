# Streaming chat protocol — a Dafny model

This project models the streaming chat protocol between the chat client's `sendMessage`
(components/chat-area.tsx) and the server's `stream_generator` (api/app/services.py).

- **Server side.** The server turns an upstream completion stream into `data: <json>\n\n` frames:
  - one frame per non-empty delta;
  - a closing frame, with `is_streaming: false` and a `completion_tokens` count, or with the error;
  - the end marker `data: [DONE]\n\n`.
- **Client side.** The client reads the response body chunk by chunk:
  - it carries a buffer and splits it on the blank line;
  - it classifies every complete fragment;
  - it accumulates the truthy `content` fields into the placeholder reply.

The model is written as pure functions over immutable state:

| file | module | contents |
|---|---|---|
| `wrappers.dfy` | `Wrappers` | `Option` |
| `text.dfy` | `Text` | the JavaScript string operations the client uses: `trim`, `includes`, `split("\n\n")` |
| `json.dfy` | `Json` | the stream's record; `json.dumps` as `Encode` and `JSON.parse` as `Parse`, with the round trip and the facts the protocol needs proved, not assumed |
| `stream_decoder.dfy` | `StreamDecoder` | the read loop's decoding: carry buffer, split, classification |
| `chat_area.dfy` | `ChatArea` | `sendMessage` as a function of the component state and of what the network does; the streaming-cursor rule |
| `services.dfy` | `Services` | `stream_generator` as the list of frames it yields; the model fallback; `generate_chat_response` |
| `round_trip.dfy` | `RoundTrip` | the server's body read by the client, whatever the chunking |

The main results:

- **Chunking invariance.** The client processes the same fragments, in the same order, however the body is cut into chunks. A trailing piece without a separator is never parsed.
- **Round trip.** The placeholder ends up holding exactly the upstream's text, plus the server's error text when the upstream failed. The cursor is then off, no error is shown, and loading is over.
- **The round trip's condition.** The round trip needs one condition: no string the server sends may contain `[DONE]`. `RoundTrip.DoneDeltaIsDropped` shows that it is needed: a single delta containing the token is shown as nothing at all.

The model follows the code as written:

- The reply placeholder has the role `"system"`.
- A fragment containing `[DONE]` only switches the cursor off. Later fragments are still processed.
- `sendMessage` has no citation, web-search or image paths.

## Model

| member | source | states |
|---|---|---|
| Text.Trim | components/chat-area.tsx:207 | `trim()`: the result is empty exactly when the text is all JavaScript white space; otherwise it starts and ends with a non-space |
| Text.TrimIsMiddle | components/chat-area.tsx:207 | `trim()` removes only white space, and only at the two ends: the result is a stretch of the text with nothing but white space before and after it |
| Text.Contains | components/chat-area.tsx:208 | `includes`, as a scan from the left; its meaning is given by Text.ContainsIffOccurs |
| Text.ContainsIffOccurs | components/chat-area.tsx:208 | `s.includes(p)` holds exactly when `p` occurs in `s` at some position, in both directions |
| Text.Split | components/chat-area.tsx:203 | `split("\n\n")` always returns at least one piece; Text.SplitUnique states what the pieces are |
| Text.SplitJoin | components/chat-area.tsx:203 | `split("\n\n")` loses nothing: joining the pieces with the separator gives back the text |
| Text.SplitPiecesAreWhole | components/chat-area.tsx:203 | every piece of `split("\n\n")` splits into itself alone; with Text.OnePieceIffNoSeparator, no piece contains `\n\n` |
| Text.OnePieceIffNoSeparator | components/chat-area.tsx:203 | a text splits into one piece exactly when it does not contain `\n\n`, in both directions |
| Text.SplitPiecesHoldNoSeparator | components/chat-area.tsx:203 | no piece of `split("\n\n")` contains the separator |
| Text.SplitPiecesEndClean | components/chat-area.tsx:203 | `split` cuts at the leftmost separator: no piece before the last ends with a line feed, so none of them could have given up its last character to start the separator earlier |
| Text.SplitAfterPiece | components/chat-area.tsx:203 | a piece that contains no separator and does not end with a line feed, followed by the separator, is cut off as one piece, whatever comes after |
| Text.SplitUnique | components/chat-area.tsx:203 | `split("\n\n")` is the only list of pieces that joins back to the text with the separator, has no piece containing the separator, and has no piece but the last ending with a line feed: the leftmost split |
| Text.SplitExtend | components/chat-area.tsx:200-204 | appending a chunk keeps every complete piece; only the last piece is re-split with the chunk, which is why carrying just that piece is enough |
| Text.SplitAfterFragment | components/chat-area.tsx:203 | a fragment without line feeds, followed by the blank line, is split off as one piece |
| StreamDecoder.StripDataPrefix | components/chat-area.tsx:215 | `replace(/^data: /, "")` removes the prefix only at the start: prefix plus result is the line when it starts with the prefix, and the line is unchanged otherwise |
| StreamDecoder.Classify | components/chat-area.tsx:206-218 | a fragment is blank iff all white space; it is the end marker iff not blank and containing `[DONE]` anywhere; it is a record iff neither holds and the trimmed, unprefixed text parses, and then it is that parse |
| StreamDecoder.Feed | components/chat-area.tsx:199-204 | one chunk: the complete fragments and the new buffer, joined with the separator, are exactly the old buffer plus the chunk; neither the new buffer nor any fragment contains the separator, and no fragment ends with a line feed; by Text.SplitUnique these fix the result as the leftmost split, with the buffer the text after the last separator |
| StreamDecoder.FeedAll | components/chat-area.tsx:194-204 | the read loop over all chunks; what it yields is given by StreamDecoder.FeedAllSplits and StreamDecoder.ChunkingInvariance |
| StreamDecoder.FeedAllSplits | components/chat-area.tsx:194-204 | feeding chunks from a buffer without a separator yields the complete fragments of the whole text and keeps its last piece as the buffer |
| StreamDecoder.ChunkingInvariance | components/chat-area.tsx:192-204 | two chunkings of the same text give the same fragments, in the same order, and the same final buffer |
| Json.Encode | api/app/services.py:100-112 | `json.dumps` of a record, with the members in the order the server builds them; its meaning is given by Json.ParseOfEncode, Json.EncodeIsOneLine and Json.EncodeFreeOfDone |
| Json.Parse | components/chat-area.tsx:218 | `JSON.parse` of a fragment, restricted to the protocol's record; it reads back what Json.Encode writes (Json.ParseOfEncode) and rejects the empty payload (Json.ParseOfEmpty) |
| Json.ParseOfEmpty | components/chat-area.tsx:218 | the empty text is not a record |
| Json.ParseOfEncode | api/app/services.py:100-112 | `JSON.parse` of what `json.dumps` writes for a record gives back that record |
| Json.ParseStringOfEncode | api/app/services.py:100 | a string literal written with `json.dumps` escaping, including surrogate pairs above U+FFFF, reads back as the original text, whatever follows it |
| Json.EncodeIsOneLine | api/app/services.py:100 | an encoded record is enclosed in braces and holds no line feed, so it never contains the event separator |
| Json.EncodeFreeOfDone | api/app/services.py:100-112 | an encoded record contains `[DONE]` only if one of its string fields does |
| Json.DoneInEscapeComesFromText | api/app/services.py:100 | `[DONE]` in an escaped string body comes from the text itself; escaping never creates it |
| Json.EscapeKeepsDone | api/app/services.py:100 | the converse: `[DONE]` in a string is still there, as it is, once the string is escaped |
| ChatArea.CursorPositions | components/chat-area.tsx:318 | the cursor is drawn only while streaming; when ids are positions, it is on exactly the last message |
| ChatArea.ToWire | components/chat-area.tsx:151-155 | each message becomes `{role, content}` with its role name, in order, with nothing dropped |
| ChatArea.SetContent | components/chat-area.tsx:224-230 | the message with the placeholder's id gets the new content; every message keeps its id and role, and the others keep their content |
| ChatArea.ApplySignal | components/chat-area.tsx:207-235 | one fragment appends its truthy content to the accumulated text; the cursor stays on iff it was on and the fragment is neither the end marker nor `is_streaming === false`; only the placeholder's messages and the flag change, and the placeholder keeps showing the accumulated text |
| ChatArea.ApplySignals | components/chat-area.tsx:206-239 | a run of fragments grows the accumulated text by the in-order concatenation of their truthy contents, with the same frame conditions |
| ChatArea.ApplySignalsStreaming | components/chat-area.tsx:208-235 | after a run of fragments, the cursor is on iff it was on and no fragment ended streaming |
| ChatArea.MalformedIsSkipped | components/chat-area.tsx:207-238 | a fragment that is blank, or lacks `[DONE]` and does not parse once its prefix is removed (an empty payload included), can be removed from the stream without changing the outcome |
| ChatArea.ReadBody | components/chat-area.tsx:194-240 | the read loop changes only the placeholder's messages and the streaming flag |
| ChatArea.ReadBodyIsChunkingInvariant | components/chat-area.tsx:194-204 | reading chunk by chunk is applying the complete fragments of the whole body; the trailing incomplete piece stays in the buffer and is never applied |
| ChatArea.Start | components/chat-area.tsx:131-169 | the user's message gets id length+1 and the empty system placeholder id length+2, appended after the unchanged list; the input is cleared, loading and streaming start, the error is cleared; ids stay positions |
| ChatArea.Settle | components/chat-area.tsx:172-246 | only the placeholder's messages, the flag and the error change; every failing response shows its own text and switches the cursor off; a non-failing one leaves the error as it was |
| ChatArea.SendMessage | components/chat-area.tsx:128-250 | no request and no change iff the input is blank or a request is in flight; otherwise the request carries every prior message, then the user's, plus the selected model, temperature 0.7, 1000 tokens and streaming; afterwards loading is off, the input is empty, and an error is shown iff the response failed |
| ChatArea.SendMessageKeepsIds | components/chat-area.tsx:131-168 | the greeting starts ids at 1, and every call keeps ids equal to positions |
| ChatArea.SendMessageAppends | components/chat-area.tsx:138-168 | past the guard, the earlier messages stay as they were, followed by the user's message and the system placeholder |
| ChatArea.SendMessageFailsEarly | components/chat-area.tsx:172-249 | a rejected fetch, an error status or a missing body leaves the placeholder empty, shows the error and switches the cursor off |
| ChatArea.SendMessageReadsBody | components/chat-area.tsx:189-249 | the placeholder shows the truthy contents of the body's complete fragments; the cursor stays on iff reading ended normally and no fragment ended streaming; a failed read shows its error but keeps the text received |
| ChatArea.SendMessageIsChunkingInvariant | components/chat-area.tsx:194-204 | the outcome of `sendMessage` depends only on the body's text, not on its chunking |
| Services.ResolveModel | api/app/services.py:72 | `request.model or GPT_MODEL`: a requested non-empty name is used; an absent or empty one falls back to the configured model |
| Services.Collected | api/app/services.py:93-96 | the deltas that pass `if content:`: at most one per delta, none of them empty; Services.CollectedOne and Services.CollectedAppend fix which they are |
| Services.CollectedOne | api/app/services.py:93-96 | a single delta is collected, whole, exactly when it is present and non-empty; otherwise nothing is collected |
| Services.CollectedAppend | api/app/services.py:93-96 | the filter goes delta by delta: collecting two runs one after the other is collecting them together, so no deltas are merged or reordered |
| Services.CollectedKeepsText | api/app/services.py:93-96 | skipping absent and empty deltas loses no text: the collected deltas concatenate to the upstream's text |
| Services.StreamFrames | api/app/services.py:90-113 | one delta frame per collected delta, then one closing data frame, then `[DONE]`; frame k is the streaming record of the k-th collected delta, naming the model; only the closing frame says streaming is over; on failure it carries the error |
| Services.StreamFramesContents | api/app/services.py:93-112 | the frames' contents, in order, are the upstream text, followed by the prefixed error message when the stream failed |
| Services.CompletionTokensCountFrames | api/app/services.py:90-105 | `completion_tokens` equals the number of frames that say streaming goes on |
| Services.FrameBody | api/app/services.py:100-113 | a frame as written, `data: ` and the record's JSON or the end marker; RoundTrip.WireFragments and RoundTrip.ClassifyFrame give what the client reads from it |
| Services.WireText | api/app/services.py:100-113 | the response body, each frame followed by the blank line; RoundTrip.WireFragments states that the client splits it back into exactly those frames |
| Services.GenerateChatResponse | api/app/services.py:12-59 | never raises: token usage iff the upstream answered with content, and then the content is the response; otherwise the usage is the error and the response is that error with the prefix; the model is the resolved one |
| RoundTrip.WireFragments | api/app/services.py:100-113 | the client splits the server's body into exactly the frames written, with an empty buffer left |
| RoundTrip.ClassifyFrame | components/chat-area.tsx:206-218 | a data frame free of `[DONE]` is read back as its record, and the end frame as the end marker |
| RoundTrip.StreamFramesFreeOfDone | api/app/services.py:100-112 | when no delta, model or error message contains `[DONE]`, no data frame does |
| RoundTrip.StreamRoundTrip | api/app/services.py:90-113 | for any chunking of the server's body, the placeholder holds the upstream text, plus the error text on failure; the cursor is off, no error is shown, loading is over, and the model used is the client's selection when non-empty |
| RoundTrip.DoneInContentEndsFrame | components/chat-area.tsx:208-211 | a data frame whose content contains `[DONE]` is taken for the end marker, whatever else the content holds |
| RoundTrip.DoneDeltaIsDropped | components/chat-area.tsx:208-211 | without the round trip's condition the text is lost: a single delta containing `[DONE]` makes the client show nothing |

## Left out

- **I/O.** `fetch`, the body reader and `TextDecoder` are parameters (`Response`, `ReadEnd`); chunks are already-decoded strings.
- **The upstream completion client.** It is a parameter, whether it answers or raises. `openai.OpenAI` and `asyncio.sleep` are not modelled.
- **UI effects.** The `setTimeout` scroll, the scrolling effects, React's state batching and the `console.error` logging are outside the data the protocol changes. `sendMessage` is modelled as sequential updates.
- **The model-list fetch (components/chat-area.tsx:105-125).** It is network glue. `selectedModel` is part of the state instead.
- **Rendering.** The typing indicator (components/chat-area.tsx:321) and the other rendering, keyboard handling and layout are left out.
- **`GPT_MODEL`.** It is read from the environment, so it is the `configured` parameter. Its default is `DefaultGptModel`.
- **Other files.** The FastAPI routers, the application, the pydantic models and the configuration files are wiring around the services and are not part of this model.
- **Temperature.** 0.7 is kept as 7 tenths, because floating point is not modelled.
- **`print` on the error path (api/app/services.py:111).** It is left out as output.
- **Json.Parse** accepts only the five protocol fields, with the value types the server writes. It treats any other JSON (other keys, nested values, numbers with sign, fraction or exponent) as malformed. The client would parse such a fragment, append its truthy `content` and honour `is_streaming === false`; the model skips it instead. The server never writes one.
- **Json.Parse** rejects lone surrogate escapes, because Dafny characters are Unicode scalar values.
- **ChatArea.SendMessageReadsBody** states the success path as the code has it. A body that ends without an end marker or `is_streaming: false` leaves the cursor on after loading is over.

