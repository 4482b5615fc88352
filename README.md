# DeepSeek chat page: send, stream and stop

This project models the send/stream path of the chat page in `web/src/App.js`. The page keeps three things:
- a list of messages;
- the text in the input box;
- an `isSending` flag, which turns the send button into a stop button.

A send appends the user's text and an empty assistant entry. It then posts the whole list, mapped to `{role, content}` pairs, to the completion endpoint.

The response arrives as a stream of text chunks. Each chunk is folded into two accumulators: the reasoning text and the final-answer text. A sticky flag chooses between them. The flag is set by the first chunk that contains the literal `=== Final Answer ===`. After each chunk without the marker, the page replaces the last entry of the list with the assistant entry built from the accumulators.

Pressing the button while a request is running aborts the controller, and that controller is shared by the whole page. Completion and a rejected fetch both reset `isSending`.

The modules are:
- `Text`: the substring test and the joining of chunks.
- `Chat`: the message list, the request body and the last-entry update.
- `Reducer`: the chunk fold as pure functions, and its properties. The fold is stated against two reference definitions: `FirstMarker` (the index of the first marker chunk) and `Visible` (the chunks without the marker).
- `Session`: the page's state as classes (`App`, `Controller`, `StreamReader`), the button handler and the loop that reads one response. The loop is proved against `Reducer`.

The page does less than a chat client might be expected to do, and the model follows the code:
- A blank input is sent as it is. Nothing rejects it.
- Empty turns are not filtered out of the request.
- The request body is the bare array of `{role, content}` pairs.
- A chunk that contains the marker is dropped even if the marker was already seen, because the marker test comes before the flag test.
- The page has no thread list, no persistence, no regenerate action and no loading or timing flags.

## Model

| member | source | states |
|---|---|---|
| Text.ContainsIff | web/src/App.js:47 | The `includes` scan is true exactly when the pattern occurs at some position of the chunk (both directions). |
| Text.ShorterNotContains | web/src/App.js:47 | A chunk shorter than the marker never passes the marker test. |
| Text.ConcatAppend | web/src/App.js:53-64 | Appending with `+=` over two runs of chunks gives the two joined texts, one after the other. |
| Chat.WireContent | web/src/App.js:16-19 | The text one entry sends. A non-assistant entry sends its content unchanged. An assistant entry's text starts with its reasoning, and what follows is exactly its final answer. |
| Chat.SendPair | web/src/App.js:105-110 | A send appends exactly two entries: a user entry holding the text as typed, then an assistant entry whose reasoning and final answer are both empty. |
| Chat.Payload | web/src/App.js:13-21 | The request body has one entry per message, in order and with the same role. An assistant entry sends its content followed by its final answer; every other role sends its content unchanged. |
| Chat.PayloadAppend | web/src/App.js:13-21 | Mapping works one entry at a time, so the payload of a joined list is the joined payloads. |
| Chat.SendPayload | web/src/App.js:105-116 | The request after a send is the payload of the earlier list, then the user's text unchanged (blank included), then an empty assistant entry. |
| Chat.ReplaceLast | web/src/App.js:54-72 | The updater keeps the length and every earlier entry, and makes the given entry the last one. On an empty list it makes no change. |
| Chat.ReplaceLastAfterSend | web/src/App.js:54-110 | After a send, an update keeps the history and the user's entry and fills in the assistant entry. |
| Chat.ReplaceLastTwice | web/src/App.js:54-72 | Two successive updates leave only the later entry visible. |
| Reducer.IsMarkerChunk | web/src/App.js:47 | A chunk is a marker chunk exactly when the marker occurs in it at some position. The test looks at that one chunk only. |
| Reducer.Step | web/src/App.js:47-74 | One chunk: the flag becomes the old flag or the marker test. Both texts only grow. A marker chunk adds nothing to either. A chunk without the marker adds exactly its own text, split between the two. Once the flag is set the reasoning text is frozen; while it is unset the final answer is unchanged. |
| Reducer.ReduceFrom | web/src/App.js:33-76 | Reading any chunks only grows both texts. Once the marker is seen the flag stays set and the reasoning text is frozen. |
| Reducer.Reduce | web/src/App.js:33-76 | The state after reading a fresh response's chunks, starting from the initial values ("", "", false). The flag ends set exactly when some chunk carries the marker, and without it the final answer is empty. |
| Reducer.FirstMarker | web/src/App.js:47 | The index of the first chunk that passes the marker test. No earlier chunk passes it, and the chunk at that index does, when there is one. |
| Reducer.Visible | web/src/App.js:47-51 | The chunks left after removing marker chunks: none of them passes the marker test, a response with no marker chunk is unchanged, and a single chunk is dropped exactly when it is a marker chunk. |
| Reducer.VisibleAppend | web/src/App.js:47-51 | Each chunk is dropped or kept on its own, so filtering a joined run gives the two filtered runs joined. |
| Reducer.ReduceFromAppend | web/src/App.js:37-75 | Reading one run of chunks and then another is the same as reading the two joined. |
| Reducer.ReduceSnoc | web/src/App.js:37-75 | Reading one more chunk is one more step. |
| Reducer.AfterMarker | web/src/App.js:35-62 | Once the marker is seen, the flag never resets and the reasoning text stays frozen. The final answer grows by exactly the marker-free chunks that follow, in order. |
| Reducer.ReduceFromSplit | web/src/App.js:33-76 | From a state that has not seen the marker: the chunks before the first marker chunk are added to the reasoning text, and the marker-free chunks after it to the final answer. The flag ends set exactly when a marker chunk exists. |
| Reducer.ReduceSplit | web/src/App.js:33-76 | A whole response: the reasoning text is the chunks before the first marker chunk, joined, and the final answer is the marker-free chunks after it, joined. |
| Reducer.NoMarkerFinal | web/src/App.js:63-73 | With no marker chunk, the reasoning text is all the chunks joined, the final answer is empty and the flag is unset. |
| Reducer.MarkerChunksDropped | web/src/App.js:47-51 | No text of a marker chunk, before or after the marker, reaches either accumulator. Together the two texts are exactly the marker-free chunks, joined in order. |
| Reducer.PublishedStatesGrow | web/src/App.js:53-64 | Each published reasoning text and final answer is a prefix of every later one. Once the flag is set it stays set, with the same reasoning text. |
| Reducer.ExampleChunks | web/src/App.js:47-73 | For any marker of two or more characters, the chunks "A", marker, "B", "C" give reasoning "A", final answer "BC" and the flag set. |
| Reducer.FinalAnswerMarkerExample | web/src/App.js:47-73 | The same example with `=== Final Answer ===` itself. |
| Reducer.SplitMarkerMissed | web/src/App.js:47 | A marker split anywhere across two chunks is not recognised. Neither part passes the test, although their joined text contains the marker. The marker's text ends up in the reasoning, and the final answer stays empty. |
| Reducer.Published | web/src/App.js:56-71 | The entry written after a chunk is an assistant entry carrying the reasoning text. Its final answer is the answer text once the marker was seen, and "" before that. |
| Reducer.MessagesAfter | web/src/App.js:54-75 | The list after a response's chunks keeps its length and every entry but the last. A response with only marker chunks leaves the list unchanged. |
| Reducer.MessagesAfterSnoc | web/src/App.js:47-75 | For each chunk, a marker chunk leaves the message list as it is, and any other chunk republishes the last entry from the updated state. |
| Reducer.StreamedTurn | web/src/App.js:54-111 | After a send and the chunks of its response: the history and the user's entry are unchanged, and the assistant entry holds the reasoning and the final answer as split by the first marker chunk. |
| Reducer.FinalPublished | web/src/App.js:56-71 | The entry published for a whole response holds the split texts. The final answer is shown only when the marker was seen. |
| Reducer.StreamedRequest | web/src/App.js:13-116 | The next request sends the history's payload, the user's text, and (for the streamed turn) all the marker-free text of the response. |
| Session.Controller.constructor | web/src/App.js:4-5 | The page's one controller starts not aborted. |
| Session.App.constructor | web/src/App.js:8-10 | The page starts with no messages, an empty input box and `isSending` false, and uses the one controller it is given. |
| Session.StreamReader.constructor | web/src/App.js:33-35 | A response's reader starts with both texts empty and the flag unset: its state is the fold's initial state. |
| Session.App.OnInput | web/src/App.js:336-338 | Typing sets the input text. |
| Session.App.HandleSendMessage | web/src/App.js:97-124 | The handler flips `isSending`. When busy it aborts the shared controller, returns no request and changes neither the messages nor the input. When idle it appends exactly the user's entry and an empty assistant entry, clears the input, and returns the payload of the new list. |
| Session.App.EndRequest | web/src/App.js:39-88 | Completion and a rejected fetch reset `isSending` and change nothing else. |
| Session.StreamReader.Read | web/src/App.js:38-75 | One chunk changes the reader's state by one `Step`. A marker chunk leaves the messages alone; any other chunk replaces the last entry with the published state. |
| Session.ReadResponse | web/src/App.js:32-79 | Reading the chunks of one response through one fresh reader, in order, leaves the list as `MessagesAfter` says, and changes nothing else. |
| Session.GetStream | web/src/App.js:22-88 | A fetch rejected at once (the controller was already aborted, or the network failed) resets `isSending` and leaves the messages. Otherwise the loop reads every chunk and leaves the list as `MessagesAfter` says. Completion resets `isSending`; a stop press aborts and resets it; a failed read leaves it set. |
| Session.StopThenAskAgain | web/src/App.js:4-124 | After "hello" is sent and stopped during its stream, the next question is still appended, but its request is rejected at once because the page's one controller stays aborted. The list ends as the first exchange left it plus the second send's pair, with an empty assistant entry last. |
| Session.Controller.Abort | web/src/App.js:4-101 | An abort sets the shared controller's aborted state. Nothing in the page clears it again. |

## Left out

- `fetch`, `getReader`, `TextDecoder` and the HTTP headers (web/src/App.js:22-32,43) are foreign I/O. A response is a `Transport` value: its chunks as decoded strings and how the stream ends.
- React's state scheduling and the `.then` chaining are left out. Updates are applied in order, one chunk at a time, and the updater functions passed to `setMessages` are applied to the current list.
- The abort signal's mechanics are left out. An abort is a sticky boolean. A stop press during a stream is modelled as the end of that stream, and every later fetch is rejected at once because the one controller stays aborted.
- A rejected `reader.read()` (`ReadFailed`) is not caught by the fetch's `.catch`, because it belongs to a different promise. `isSending` therefore stays set. The model records this without further consequences.
- The `try`/`catch` around the call to `getStream` (web/src/App.js:115-123) is left out. `getStream` cannot throw synchronously here. The cleanup function it returns is never called by the page.
- The console logging, the JSX layout, markdown rendering, icons and the input box's height computation (web/src/App.js:339-341) are presentation only.
- A user entry's missing `lastAnswer` is written as "". It is never read for non-assistant roles.
- An update on an empty list assigns the property `-1` in JavaScript, which adds no element. The model leaves the list as it is.
