# SimpleIpc in Dafny

A model of the core of SimpleIpc, a .NET library for message passing over named pipes.
Each side of a pipe holds a connection. A connection sends length-prefixed, MessagePack-serialised
envelopes (`MessageWrapper`) of three kinds:

- Send: fire-and-forget.
- Invoke: a request that waits for an answer.
- Response: the answer to an Invoke.

A connection also runs a read loop. The loop routes each incoming envelope as follows:

- a Response completes the pending Invoke with the same id;
- a Send goes to the actions registered for its content type;
- an Invoke goes to the request handlers registered for its type, and each of their replies is sent back.

The registrations live in a callback store (`CallbackStore`): two tables from a content type to
an ordered list of entries. Each entry carries a `CallbackToken`.

A router (`IpcRouter`) keeps one static table of server connections by pipe name. A server
leaves the table when its read loop ends.

Module by module:

| module | file | what it holds |
|---|---|---|
| `Types` | `types.dfy` | bytes, Guids (`GuidSource` stands for `Guid.NewGuid`), `Guid.ToString`, payload objects, the exceptions the code tells apart |
| `MessageTypes` | `message_type.dfy` | the `MessageType` enum and its underlying values |
| `CallbackTokens` | `callback_token.dfy` | `CallbackToken` and its equality |
| `Envelopes` | `message_wrapper.dfy` | `MessageWrapper`, its three constructors, the codec (left uninterpreted) |
| `Results` | `ipc_result.dfy` | `IpcResult` and `IpcResult<T>` and their factories |
| `Framing` | `framing.dfy` | `BitConverter` on 4 bytes, the wire frame, and the read side of the frame, as written and as evidently intended |
| `Streams` | `pipe_stream.dfy` | the pipe stream as a class (scripted read results, bytes written, scripted write faults) and the frame reader as a method |
| `Callbacks` | `callback_store.dfy` | the `CallbackStore` class and the dispatch specifications |
| `Connections` | `connection.dfy` | the `ConnectionBase` class: pending-invocation table, registration, sending, routing, the read loop |
| `Router` | `ipc_router.dfy` | the shared server table and `IpcRouter` |

How the environment is modelled:

- The stream is a sequence of read results, each some bytes or an exception. Once the sequence
  is used up, the peer has closed: every further read returns 0 and the pipe is no longer connected.
- Writes take their results from a second sequence, and a write on a broken pipe throws.
- User callbacks are opaque handler ids. What a handler does when called is a parameter of the
  model (`Behaviour`).
- The MessagePack codec is a record of four total functions that the model never looks into.
  Two properties of it are stated as predicates and assumed where a lemma needs them:
  `WrapperRoundTrips` (an envelope it wrote decodes back to itself) and `EmptyBodyEndsStream`
  (decoding an empty buffer throws MessagePackSerializationException over EndOfStreamException).
- `Guid.NewGuid` is a counter, so every Guid it hands out is fresh and differs from `Guid.Empty` (0).
- Timeouts and cancellation are inputs:
  - `EndInvoke` is called with the slot either completed or not;
  - the read loop's `CancellationToken` says before which loop check it is cancelled.

Dispatch results are traces: the tokens of the handlers that were called, in order, how the
call ended (normally, or with an exception), and the replies that were built.

## Model

| member | source | states |
|---|---|---|
| `Types.GuidSource.NewGuid` | Immense.SimpleIpc/MessageWrapper.cs:13 | the Guid handed out is never `Guid.Empty` and was never handed out before; exactly that one Guid joins the issued ones |
| `Types.GuidToString` | Immense.SimpleIpc/IpcRouter.cs:52 | a Guid's "D" string has 36 characters, none of them white space |
| `Types.GuidToStringInjective` | Immense.SimpleIpc/IpcRouter.cs:52 | two 128-bit Guids with the same string are the same Guid, so fresh Guids give fresh pipe names |
| `Types.HexInjective` | Immense.SimpleIpc/IpcRouter.cs:52 | fixed-width hex numerals of numbers below 16^width are distinct for distinct numbers |
| `MessageTypes.FromOrdinal` | Immense.SimpleIpc/MessageType.cs:9-19 | exactly the values 0 to 3 name a kind, and each names the kind with that underlying value |
| `MessageTypes.Ordinal` | Immense.SimpleIpc/MessageType.cs:9-19 | there are four kinds, and only `Unspecified` has the value 0 |
| `MessageTypes.OrdinalRoundTrip` | Immense.SimpleIpc/MessageType.cs:9-19 | reading back a kind's underlying value gives the kind back |
| `MessageTypes.DefaultIsUnspecified` | Immense.SimpleIpc/MessageType.cs:11-12 | the default value 0 is `Unspecified` |
| `CallbackTokens.Equals` | Immense.SimpleIpc/CallbackToken.cs:16-19 | two tokens are equal exactly when they are the same token, since the id is all a token holds |
| `CallbackTokens.NewToken` | Immense.SimpleIpc/CallbackToken.cs:9-12 | a new token's id is fresh and never `Guid.Empty` |
| `Envelopes.FromFields` | Immense.SimpleIpc/MessageWrapper.cs:11-18 | the serialisation constructor keeps content type, content, kind and ResponseTo as given |
| `Envelopes.Create` | Immense.SimpleIpc/MessageWrapper.cs:20-26 | the envelope has the given id and kind, carries the value serialised under the given type, and keeps ResponseTo at `Guid.Empty` |
| `Envelopes.CreateResponse` | Immense.SimpleIpc/MessageWrapper.cs:28-32 | a Response that carries the serialised value and answers the given request; it is the three-argument envelope with ResponseTo set |
| `Envelopes.CreateAnswersNothing` | Immense.SimpleIpc/MessageWrapper.cs:20-26 | an envelope from the three-argument constructor answers no request, whatever kind it has |
| `Envelopes.ResponseAnswersOnlyItsRequest` | Immense.SimpleIpc/MessageWrapper.cs:28-32 | a reply answers a request id exactly when it is the one it was built for |
| `Envelopes.NewWrapper` | Immense.SimpleIpc/MessageWrapper.cs:20-26 | the three-argument constructor with a fresh id drawn from the Guid source |
| `Envelopes.NewResponse` | Immense.SimpleIpc/MessageWrapper.cs:28-32 | the Response constructor with a fresh id drawn from the Guid source |
| `Results.Empty` | Immense.SimpleIpc/IpcResult.cs:8-11 | a success with the default value and no error |
| `Results.Ok` | Immense.SimpleIpc/IpcResult.cs:46-49 | a success holding v, with no error and no exception |
| `Results.Fail` | Immense.SimpleIpc/IpcResult.cs:26-29 | a failure with the default value, the given error and no exception |
| `Results.FailException` | Immense.SimpleIpc/IpcResult.cs:31-34 | a failure with the given exception and no error |
| `Results.FailExceptionMessage` | Immense.SimpleIpc/IpcResult.cs:36-39 | a failure with both the message and the exception |
| `Results.StatusOk` | Immense.SimpleIpc/IpcResult.cs:41-44 | the non-generic success |
| `Results.StatusFail` | Immense.SimpleIpc/IpcResult.cs:13-16 | the non-generic failure with an error |
| `Results.StatusFailException` | Immense.SimpleIpc/IpcResult.cs:17-20 | the non-generic failure with an exception |
| `Results.StatusFailExceptionMessage` | Immense.SimpleIpc/IpcResult.cs:21-24 | the non-generic failure with both |
| `Results.StatusMirrorsResult` | Immense.SimpleIpc/IpcResult.cs:8-49 | every generic factory, with its value dropped, is the matching non-generic one |
| `Results.SuccessIsOkOrEmpty` | Immense.SimpleIpc/IpcResult.cs:68-86 | a well-formed result is a success exactly when it is `Ok(v)` or `Empty()` |
| `Framing.Int32ToBytes` | Immense.SimpleIpc/ConnectionBase.cs:300 | `BitConverter.GetBytes(int)` gives 4 bytes |
| `Framing.BytesToInt32` | Immense.SimpleIpc/ConnectionBase.cs:233 | `BitConverter.ToInt32` gives a 32-bit value |
| `Framing.Int32RoundTrip` | Immense.SimpleIpc/ConnectionBase.cs:300 | ToInt32 undoes GetBytes for every 32-bit length |
| `Framing.BytesRoundTrip` | Immense.SimpleIpc/ConnectionBase.cs:233 | GetBytes undoes ToInt32 for every 4 bytes, so the prefix encoding is a bijection |
| `Framing.Frame` | Immense.SimpleIpc/ConnectionBase.cs:298-303 | the frame is the 4-byte length followed by exactly the envelope bytes, and its first 4 bytes decode to the body's length |
| `Framing.Zeros` | Immense.SimpleIpc/ConnectionBase.cs:231-235 | a fresh byte array holds n zeros |
| `Framing.NextRead` | Immense.SimpleIpc/ConnectionBase.cs:241 | one ReadAsync delivers at most count bytes from the front of the pipe, or throws and delivers none; a read on a closed pipe returns 0 and leaves it closed |
| `Framing.BodyLoop` | Immense.SimpleIpc/ConnectionBase.cs:237-242 | the body loop as written: a finished body has the frame's length, and the loop spins only once the pipe has run dry |
| `Framing.BodyLoopOnCleanPipe` | Immense.SimpleIpc/ConnectionBase.cs:237-242 | on a pipe without faults the loop spins exactly when the bytes still to come cannot make up the length, and otherwise fills the body |
| `Framing.BodyLoopStep` | Immense.SimpleIpc/ConnectionBase.cs:239-242 | one pass that does not throw overwrites the buffer from offset 0 and adds the count read |
| `Framing.ReadFrameAsWritten` | Immense.SimpleIpc/ConnectionBase.cs:231-242 | reading a frame as written never reconnects the pipe, takes something off it unless it is closed, and never reports the peer closing; a negative length throws OverflowException and one above Array.MaxLength OutOfMemoryException, so every body fits a byte array |
| `Framing.AsWrittenReadsWholeFrame` | Immense.SimpleIpc/ConnectionBase.cs:231-244 | a frame that arrives in one read is read back as the body that was framed, and what follows stays on the pipe |
| `Framing.PrefixShortReadMisparses` | Immense.SimpleIpc/ConnectionBase.cs:232-233 | a length prefix split over two reads is taken with zeros for its missing bytes, so a 256-byte frame is read as an empty one; the corrected reader gets the body |
| `Framing.PartialBodyReadCorrupts` | Immense.SimpleIpc/ConnectionBase.cs:239-242 | a body that arrives in two reads is overwritten by the second one; the corrected reader gets the body |
| `Framing.TruncatedFrameSpins` | Immense.SimpleIpc/ConnectionBase.cs:239-242 | a peer that closes mid-body leaves the loop spinning; the corrected reader reports the close |
| `Framing.ReadExactly` | Immense.SimpleIpc/ConnectionBase.cs:239-242 | reading exactly count bytes ends with all count bytes unless a read threw or the peer closed |
| `Framing.ReadExactlyDelivers` | Immense.SimpleIpc/ConnectionBase.cs:239-242 | on a pipe that holds enough bytes, exactly the next count bytes are taken, in order, and the rest stays |
| `Framing.ReadExactlyReportsClose` | Immense.SimpleIpc/ConnectionBase.cs:239-242 | on a pipe that closes too early, the close is reported with every byte that came |
| `Framing.ReadFrameCorrected` | Immense.SimpleIpc/ConnectionBase.cs:231-242 | the reader as evidently intended never spins, and its bodies fit a byte array |
| `Framing.CorrectedFrameRoundTrip` | Immense.SimpleIpc/ConnectionBase.cs:231-244 | however the pipe splits a frame into reads, the corrected reader gets back the framed body and leaves the rest |
| `Framing.CorrectedFrameDetectsTruncation` | Immense.SimpleIpc/ConnectionBase.cs:239-242 | a frame cut short by the peer is reported as closed |
| `Streams.NextWrite` | Immense.SimpleIpc/ConnectionBase.cs:301-303 | a write that goes through appends exactly its bytes; a write that throws appends none; a broken pipe always throws |
| `Streams.FrameWrite` | Immense.SimpleIpc/ConnectionBase.cs:297-304 | SendInternal writes a prefix of the frame: the whole frame when nothing throws, else nothing or just the length |
| `Streams.FrameWriteClean` | Immense.SimpleIpc/ConnectionBase.cs:297-304 | on a connected pipe whose writes go through, the whole frame is written |
| `Streams.FramesWrite` | Immense.SimpleIpc/ConnectionBase.cs:206-209 | a disconnected pipe receives nothing from a series of sends |
| `Streams.FramesWriteSnoc` | Immense.SimpleIpc/ConnectionBase.cs:206-209 | sending k + 1 frames is sending k frames, then frame k |
| `Streams.FramesWriteClean` | Immense.SimpleIpc/ConnectionBase.cs:206-209 | on a clean pipe, a series of sends writes the frames back to back, in order |
| `Streams.PipeStream.ReadAsync` | Immense.SimpleIpc/ConnectionBase.cs:241 | the bytes delivered land at the offset and the rest of the buffer stays |
| `Streams.PipeStream.WriteAsync` | Immense.SimpleIpc/ConnectionBase.cs:301-304 | the written bytes grow by what the write appended |
| `Streams.PipeStream.WriteFrame` | Immense.SimpleIpc/ConnectionBase.cs:300-303 | the pipe receives what `FrameWrite` says: the prefix, then the body unless the prefix write threw |
| `Streams.PipeStream.ReadFrame` | Immense.SimpleIpc/ConnectionBase.cs:231-242 | the imperative frame read ends as `ReadFrameAsWritten` and leaves the pipe as it says |
| `Streams.PipeStream.ReadPrefix` | Immense.SimpleIpc/ConnectionBase.cs:231-233 | the length is the first read's bytes padded with zeros |
| `Streams.PipeStream.BodyPass` | Immense.SimpleIpc/ConnectionBase.cs:241 | one pass of the body loop keeps what the loop computes and takes something off the pipe |
| `Streams.PipeStream.ReadBody` | Immense.SimpleIpc/ConnectionBase.cs:237-242 | the imperative body loop ends as `BodyLoop`, and reports the spin instead of running for ever |
| `Callbacks.FuncFor` | Immense.SimpleIpc/CallbackStore.cs:236-242 | the four-argument IpcFunc holds the handler as Handler2, with a content type |
| `Callbacks.ParameterlessFunc` | Immense.SimpleIpc/CallbackStore.cs:244-249 | the three-argument IpcFunc holds the handler as Handler, without a content type |
| `Callbacks.Registered` | Immense.SimpleIpc/CallbackStore.cs:86-89 | a type that is not in the table has no entries |
| `Callbacks.RunAction` | Immense.SimpleIpc/CallbackStore.cs:101 | a null delegate throws NullReferenceException; the typed adapter's cast throws InvalidCastException for content that is not an instance of its type (ConnectionBase.cs:157); otherwise the handler runs on the content |
| `Callbacks.RunFunc` | Immense.SimpleIpc/ConnectionBase.cs:170-171 | a null delegate gives null; the typed adapter never gives null (it throws instead) and its cast throws InvalidCastException for an argument that is not an instance of its type |
| `Callbacks.ActionCall` | Immense.SimpleIpc/CallbackStore.cs:93-101 | an entry of another type is skipped and nothing else is; an entry that runs its delegate records its own token |
| `Callbacks.ActionsDispatch` | Immense.SimpleIpc/CallbackStore.cs:91-103 | no more actions are called than the list holds (its order and stopping rule are `ActionsDispatchShape`) |
| `Callbacks.MatchingActions` | Immense.SimpleIpc/CallbackStore.cs:93 | the matching entries come from the list and have the envelope's type |
| `Callbacks.MatchingActionsComplete` | Immense.SimpleIpc/CallbackStore.cs:93 | every entry of the envelope's type is among the matching ones |
| `Callbacks.MatchingActionsAppend` | Immense.SimpleIpc/CallbackStore.cs:91-93 | the matching entries keep list order: filtering a concatenation is concatenating the filtered parts |
| `Callbacks.FirstThrow` | Immense.SimpleIpc/CallbackStore.cs:101 | the actions before index k return normally and the one at k throws |
| `Callbacks.ActionsDispatchMatching` | Immense.SimpleIpc/CallbackStore.cs:91-103 | once the content deserialises, dispatch is running the matching actions in list order |
| `Callbacks.RunActionsShape` | Immense.SimpleIpc/CallbackStore.cs:91-103 | the actions are called in order, each once, up to and including the first that throws, whose exception ends the dispatch |
| `Callbacks.ActionsDispatchShape` | Immense.SimpleIpc/CallbackStore.cs:91-103 | the actions of the envelope's type are called in registration order, each once, and the first exception stops the dispatch and propagates |
| `Callbacks.ActionsRunAllInOrder` | Immense.SimpleIpc.Tests/E2ETests.cs:164-191 | when no action throws, every action of the type is called once, in order, and the dispatch ends normally |
| `Callbacks.ActionsUndecodable` | Immense.SimpleIpc/CallbackStore.cs:95-100 | a null or failing deserialisation stops the dispatch before any action; only an exception propagates |
| `Callbacks.FuncCall` | Immense.SimpleIpc/CallbackStore.cs:129-157 | a func that answers has had its own handler called, and a func calls at most its own handler |
| `Callbacks.FuncsDispatch` | Immense.SimpleIpc/CallbackStore.cs:127-165 | no more replies or calls than the list holds funcs (its order and stopping rule are `FuncsDispatchShape`) |
| `Callbacks.FuncsDispatchUnfold` | Immense.SimpleIpc/CallbackStore.cs:127-165 | the dispatch from entry i is entry i's step, then the rest |
| `Callbacks.DispatchAdvance` | Immense.SimpleIpc/CallbackStore.cs:127-165 | one pass of the foreach either ends the dispatch or moves it to the next func with one more reply |
| `Callbacks.FuncsDispatchShape` | Immense.SimpleIpc/CallbackStore.cs:127-165 | the i-th reply is the i-th func's answer; the first func without an answer ends the dispatch with its outcome, and no later func runs; the handlers called are those of the funcs that answered, in order, then whichever one the stopping func ran |
| `Callbacks.FuncsDispatchCalls` | Immense.SimpleIpc/CallbackStore.cs:127-165 | the handlers called are those of the funcs that answered, in order, then whichever one the stopping func ran |
| `Callbacks.FuncsReplyToRequest` | Immense.SimpleIpc/CallbackStore.cs:159-162 | every reply is a Response to the request and carries the handler's value under its tag |
| `Callbacks.TypedFuncAnswers` | Immense.SimpleIpc/CallbackStore.cs:144-162 | a typed handler given content of its type, or of one deriving from it, answers with one reply tagged with the declared return type, or with the awaited value's type for a task; a null result throws |
| `Callbacks.WithoutSpec` | Immense.SimpleIpc/CallbackStore.cs:183 | RemoveAll keeps exactly the entries without the token, removes as many as it counts, and counts something exactly when some entry carries the token |
| `Callbacks.WithoutDistinct` | Immense.SimpleIpc/CallbackStore.cs:183 | with distinct tokens, removing an entry's token removes that entry and no other |
| `Callbacks.Without` | Immense.SimpleIpc/CallbackStore.cs:183 | RemoveAll never makes a list longer |
| `Callbacks.Occurrences` | Immense.SimpleIpc/CallbackStore.cs:188 | RemoveAll's count is at most the length of the list |
| `Callbacks.WithoutSubsequence` | Immense.SimpleIpc/CallbackStore.cs:188 | RemoveAll keeps only entries that were there |
| `Callbacks.WithoutKeepsDistinct` | Immense.SimpleIpc/CallbackStore.cs:188 | RemoveAll keeps the tokens distinct |
| `Callbacks.MatchingAllActions` | Immense.SimpleIpc/CallbackStore.cs:42-46 | in the store every entry of a type's list has that type, so the type check never skips one |
| `Callbacks.RepliesSentAppend` | Immense.SimpleIpc/CallbackStore.cs:159-164 | one more reply, with a fresh id, extends the replies built so far |
| `Callbacks.CallbackStore.constructor` | Immense.SimpleIpc/CallbackStore.cs:24-33 | a new store has both tables empty, and its tokens come from a fresh Guid source |
| `Callbacks.CallbackStore.AddAction` | Immense.SimpleIpc/CallbackStore.cs:35-53 | a new entry with a fresh token goes at the end of that type's action list (a new list if there was none); the funcs table is unchanged |
| `Callbacks.CallbackStore.AddFunc` | Immense.SimpleIpc/CallbackStore.cs:55-73 | the same for the funcs table; the actions table is unchanged |
| `Callbacks.CallbackStore.InvokeActions` | Immense.SimpleIpc/CallbackStore.cs:75-109 | a null envelope or an unknown type calls nothing; otherwise the loop's trace is the dispatch specification's |
| `Callbacks.CallbackStore.InvokeFuncs` | Immense.SimpleIpc/CallbackStore.cs:111-171 | the calls and outcome are the dispatch specification's, with one Response per reply, answering the request, carrying the reply, with fresh ids in increasing order |
| `Callbacks.CallbackStore.TryRemove` | Immense.SimpleIpc/CallbackStore.cs:173-198 | each table's list for the type loses exactly the entries with the token, and stays under its key; true iff something went |
| `Callbacks.CallbackStore.RemoveFuncs` | Immense.SimpleIpc/CallbackStore.cs:181-184 | the funcs half of TryRemove, returning RemoveAll's count |
| `Callbacks.CallbackStore.RemoveActions` | Immense.SimpleIpc/CallbackStore.cs:186-189 | the actions half of TryRemove, returning RemoveAll's count |
| `Callbacks.CallbackStore.TryRemoveAll` | Immense.SimpleIpc/CallbackStore.cs:200-218 | the type's key goes from both tables and nothing else changes; true iff either had it, even with an empty list |
| `Connections.CompletionSource.SetResult` | Immense.SimpleIpc/ConnectionBase.cs:195 | the first result completes the slot; a second one throws and leaves it as it was |
| `Connections.InvokeOutcome` | Immense.SimpleIpc/ConnectionBase.cs:99-119 | an uncompleted slot is a timeout; the result is a success exactly when the reply deserialises to a value that `is` the return type (of that type or one deriving from it); a throwing deserialisation is a failure with that exception |
| `Connections.InvokeRoundTrip` | Immense.SimpleIpc/ConnectionBase.cs:106-111 | a reply built for a value of the requested type comes back as `Ok` of that value |
| `Connections.InvokeDerivedType` | Immense.SimpleIpc/ConnectionBase.cs:106-111 | a reply whose value derives from the requested type passes the `is` test and comes back as `Ok` of that value |
| `Connections.InvokeWrongType` | Immense.SimpleIpc/ConnectionBase.cs:108-113 | a reply whose value is not an instance of the requested type is "Failed to deserialize message." |
| `Connections.Classify` | Immense.SimpleIpc/ConnectionBase.cs:248-272 | the catch clauses in order: every exception ends the loop; the generic catch takes exactly what the earlier ones do not |
| `Connections.HandlerExceptionEndsRead` | Immense.SimpleIpc/ConnectionBase.cs:268-272 | a pass whose envelope decoded and whose handler threw stops the read loop, through the generic catch, with that exception |
| `Connections.NullEnvelopeEndsRead` | Immense.SimpleIpc/ConnectionBase.cs:187-189 | a body that decodes to null throws NullReferenceException when its kind is read, and the pass stops the read loop with a failure |
| `Connections.StopOf` | Immense.SimpleIpc/ConnectionBase.cs:231-272 | whatever a pass throws ends the loop for one of the catch clauses' reasons, never the loop condition or the cancellation check |
| `Connections.FramesRead` | Immense.SimpleIpc/ConnectionBase.cs:221-242 | n passes read n frames, each off what the one before left |
| `Connections.FramesReadSnoc` | Immense.SimpleIpc/ConnectionBase.cs:221-242 | one more pass reads the next frame off what the earlier passes left |
| `Connections.FramesReadAt` | Immense.SimpleIpc/ConnectionBase.cs:221-242 | pass i reads its frame off exactly what the i passes before it left |
| `Connections.PeerCloseEndsRead` | Immense.SimpleIpc/ConnectionBase.cs:231-262 | on a pipe the peer has closed, the prefix read finds nothing, the frame is the empty body, it does not decode, so no envelope is processed, and the pass stops the loop as closed by the peer ("Pipe was closed at the other end"); the pipe is left disconnected |
| `Connections.PeerCloseEndsLoop` | Immense.SimpleIpc/ConnectionBase.cs:221-262 | in any run of the read loop, a pass that begins with nothing more to come from the peer is the last pass, decodes no envelope, and the loop ends as closed by the peer |
| `Connections.StartedConnectedAt` | Immense.SimpleIpc/ConnectionBase.cs:221 | in a run of passes that each began on a connected pipe, pass i found the pipe that the i passes before it left still connected |
| `Connections.Bodies` | Immense.SimpleIpc/ConnectionBase.cs:298 | the serialised replies, in order |
| `Connections.SentEnvelopeReadsBack` | Immense.SimpleIpc/ConnectionBase.cs:298-303 | an envelope SendInternal framed is read back as that envelope when it arrives in one read |
| `Connections.Connection.constructor` | Immense.SimpleIpc/ConnectionBase.cs:48-56 | a new connection has an empty store built for it, nothing pending, no read task and no ReadingEnded subscriber |
| `Connections.Connection.IsConnected` | Immense.SimpleIpc/ConnectionBase.cs:60 | false without a stream, otherwise the stream's IsConnected |
| `Connections.Connection.BeginRead` | Immense.SimpleIpc/ConnectionBase.cs:63-72 | refused only while an earlier read task is running; otherwise the token is stored and the task starts, or is cancelled at once |
| `Connections.Connection.SendInternal` | Immense.SimpleIpc/ConnectionBase.cs:283-310 | never throws; nothing is written for a timeout below 1 or a missing stream; otherwise the frame is written as `FrameWrite` says |
| `Connections.Connection.Send` | Immense.SimpleIpc/ConnectionBase.cs:278-282 | a fresh Send envelope carrying the content is framed onto the pipe |
| `Connections.Connection.BeginInvoke` | Immense.SimpleIpc/ConnectionBase.cs:86-123 | an id already pending fails and sends nothing, and the finally removes the earlier entry; a refused delay fails with its exception and leaves nothing; otherwise the slot is registered and the envelope sent |
| `Connections.Connection.EndInvoke` | Immense.SimpleIpc/ConnectionBase.cs:99-123 | the result is `InvokeOutcome` of the slot (the `is` test accepts derived types), and the id is no longer pending |
| `Connections.Connection.BeginInvokeContent` | Immense.SimpleIpc/ConnectionBase.cs:126-132 | a fresh Invoke envelope carrying the content, then Invoke |
| `Connections.Connection.On` | Immense.SimpleIpc/ConnectionBase.cs:150-160 | a null callback throws `ArgumentNullException` and changes nothing; otherwise the typed adapter goes at the end of the type's actions |
| `Connections.Connection.OnFunc` | Immense.SimpleIpc/ConnectionBase.cs:163-174 | a null handler throws and changes nothing; otherwise the typed adapter goes at the end of the type's funcs |
| `Connections.Connection.Off` | Immense.SimpleIpc/ConnectionBase.cs:134-140 | the type goes from both tables; the warning is logged iff neither had it |
| `Connections.Connection.OffToken` | Immense.SimpleIpc/ConnectionBase.cs:142-148 | the token's entries go; the warning is logged iff none carried it |
| `Connections.Connection.SendReplies` | Immense.SimpleIpc/ConnectionBase.cs:206-209 | the replies are framed onto the pipe one after the other, as `FramesWrite` says |
| `Connections.Connection.ProcessMessage` | Immense.SimpleIpc/ConnectionBase.cs:187-217 | its outcome and the handlers it calls are `Processing` of the envelope: a null envelope throws; a Response completes the pending slot of its ResponseTo (a second completion throws) and touches no other slot; a Send runs the actions of its type and an Invoke the funcs, sending their replies in order; anything else does nothing |
| `Connections.Connection.ReadOnce` | Immense.SimpleIpc/ConnectionBase.cs:231-246 | one pass reads the next frame off the pipe as `ReadFrameAsWritten` does, processes its envelope as `Processing` says, and stops the loop with the catch clauses' reason exactly when the frame read, the decoding or processing threw; a body that never completes is reported apart; it writes nothing, calls no handler and completes no slot unless the body decodes; a decoded Response completes only its own slot if that slot was not completed yet; a decoded Invoke writes one frame per reply, in order, with fresh ids |
| `Connections.Connection.ReadFromStream` | Immense.SimpleIpc/ConnectionBase.cs:219-277 | the passes read consecutive frames off the pipe, and each began while the pipe was connected; each came after a cancellation check that found none, and every pass but the last went on; the loop ends on the last pass's exception, on a disconnected pipe, or at a check after cancellation; a body that never completes ends the loop only through the token, with TaskCanceledException, and otherwise keeps it running for ever; when it ends, ReadingEnded fires once and the task completes; a read loop that starts on a pipe the peer has closed makes one pass, which processes nothing, and ends as closed by the peer |
| `Connections.Connection.ReadPasses` | Immense.SimpleIpc/ConnectionBase.cs:221-273 | the loop alone: the same passes and the same end as `ReadFromStream`, without the ReadingEnded event |
| `Router.GuidNamesAreNotBlank` | Immense.SimpleIpc/IpcRouter.cs:73 | a Guid's string is never null or white space |
| `Router.NullOrWhiteSpace` | Immense.SimpleIpc/IpcRouter.cs:73 | null and the empty string are blank; a name with any character that is not white space is not |
| `Router.ServerTable.constructor` | Immense.SimpleIpc/IpcRouter.cs:38 | the shared table starts empty |
| `Router.IpcRouter.CreateServerInternal` | Immense.SimpleIpc/IpcRouter.cs:71-90 | a blank name throws `ArgumentNullException` before anything is made; a taken name throws `ArgumentException` and leaves the entry; otherwise a fresh, not yet connected server is registered under the name, with the router subscribed |
| `Router.IpcRouter.CreateServer` | Immense.SimpleIpc/IpcRouter.cs:56-59 | the same three outcomes |
| `Router.IpcRouter.CreateNamelessServer` | Immense.SimpleIpc/IpcRouter.cs:50-54 | the name is a fresh Guid's string; it is never refused as blank |
| `Router.IpcRouter.TryGetServer` | Immense.SimpleIpc/IpcRouter.cs:61-64 | found iff the name is in the table, with its server; nothing changes |
| `Router.IpcRouter.CreateThenGet` | Immense.SimpleIpc/IpcRouter.cs:61-89 | a server that was just created is what TryGetServer finds under its name |
| `Router.IpcRouter.TryRemoveServer` | Immense.SimpleIpc/IpcRouter.cs:66-69 | the entry goes, and is handed back, iff it was there |
| `Router.IpcRouter.ServerConnectionReadingEnded` | Immense.SimpleIpc/IpcRouter.cs:92-102 | the entry under the ending server's name goes, whichever server it holds; only that server loses the router's subscription |
| `Router.IpcRouter.RunServer` | Immense.SimpleIpc/IpcRouter.cs:92-102 | a server whose read loop ends leaves the table; one whose loop never ends (a spinning body read and a token never cancelled) stays |

## Left out

- I/O: the pipe is a scripted sequence of read results and write results. `IsConnected` becomes false once the peer has closed and a read finds nothing more.
- Connect (the client's) and WaitForConnection (the server's) are not part of this model. A server's pipe starts disconnected, and the pipe library decides everything those two do.
- Concurrency: every operation is one atomic step. The semaphores, the `ConcurrentDictionary` atomicity, `Task.Run` and the missing lock between the prefix write and the body write are not modelled.
- Timing: `Task.WhenAny` with `Task.Delay` is the split between `BeginInvoke` and `EndInvoke`. Whether the reply arrived in time is whether the slot was completed when `EndInvoke` runs. The cancellation token passed to the writes shows up only as a scripted write fault.
- Cancellation of a read in progress shows up only as a scripted read fault (`TaskCanceledException`). The token itself is checked at the top of the loop, and by the reads of a body that never completes, where any cancellation eventually ends the wait.
- MessagePack is a record of uninterpreted total functions. Serialisation never fails. How it treats an empty buffer is the predicate `EmptyBodyEndsStream`, a requires of the peer-close contracts and not a fact about every codec.
- Logging: the warnings are not modelled, except `Off`'s, which comes back as a flag.
- The dynamic task unwrapping at CallbackStore.cs:155: a handler result is a value, or a task that has already completed.
- `Dispose` and `GetStream` are not modelled. The factories and dependency-injection wiring (ConnectionFactory.cs, CallbackStoreFactory.cs, IServiceCollectionExtensions.cs) are not part of this model.
- Callbacks.CallbackStore.InvokeFuncs builds every reply first, and `ProcessMessage` then sends them one after the other. The source sends each reply before the next handler runs. Handlers here are pure functions of their argument, so the order of writes and calls is the same.
- Router.IpcRouter.CreateServerInternal does not model the leak when the name is taken. The server is made and subscribed before `TryAdd` fails, and the model drops it without tracking the subscription further.
- Connections.Connection.ReadFromStream does not state, pass by pass, which handlers each frame ran, what it wrote or which slot it completed. These change from one pass to the next with the slots and the write faults, so each pass's effect on them is stated by `ReadOnce`, which passes on what `ProcessMessage` states.
- Callbacks.ActionCall records the token of an entry whose delegate is null, as it does for a delegate that throws. The token stands for the call that was attempted and ended the dispatch with NullReferenceException. `FuncCall` records no token for a null delegate, because there the null comes back as a result and no call is attempted.
- Connections.Connection.ReadFromStream and Connections.Connection.ReadOnce use the frame reader as written, not the corrected one. The model follows the code, and the corrected reader is proved separately (see Findings).
- Connections.Connection.constructor takes the store's codec and behaviour in place of the factory. The null checks on the factory and the logger are not modelled, because both come from dependency injection.
- `ReadingEnded` is a counter of how often it fired, plus a count of subscribers. The router's handler runs through `RunServer`.
- Runtime types: an object carries its runtime type and the types it derives from. `is` and casts consult them. Value types, boxing and user-defined conversions are not modelled.
- Types.GuidSource.NewGuid: Guids are a counter, so two Guids can never collide. Real `Guid.NewGuid` makes a collision only improbable.

## Findings

| source | as written | input that shows it | evidently intended | confidence | as-written member | corrected member |
|---|---|---|---|---|---|---|
| Immense.SimpleIpc/ConnectionBase.cs:232-233 | the count the prefix read returns is ignored, so the length is taken from one read, with zeros for missing bytes | a 256-byte frame whose first read delivers 1 byte is read as a frame of length 0 | read the 4 prefix bytes exactly | not executed | `Framing.PrefixShortReadMisparses` | `Framing.CorrectedFrameRoundTrip` |
| Immense.SimpleIpc/ConnectionBase.cs:239-242 | every body read goes to offset 0 with count messageSize, so a later read overwrites an earlier one | the frame `[2,0,0,0]` then `[10]` then `[20]` is read as the body `[20, 0]` instead of `[10, 20]` | read at offset bytesRead, asking for messageSize - bytesRead bytes | not executed | `Framing.PartialBodyReadCorrupts` | `Framing.CorrectedFrameRoundTrip` |
| Immense.SimpleIpc/ConnectionBase.cs:239-242 | a read that returns 0 is added and the loop goes on, so a peer closing mid-body spins the loop until the read's token is cancelled, and for ever (ReadingEnded never fires) when it never is | `[2,0,0,0]` then `[10]`, then the peer closes | stop when a read returns 0 | not executed | `Framing.TruncatedFrameSpins` | `Framing.CorrectedFrameDetectsTruncation` |
