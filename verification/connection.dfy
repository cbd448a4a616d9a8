/**
 * One end of a pipe connection (ConnectionBase): the pending-invocation table, the handler
 * registry, sending framed envelopes, routing incoming ones, and the read loop.
 */
module Connections {
  import opened Types
  import opened MessageTypes
  import opened CallbackTokens
  import opened Envelopes
  import opened Results
  import opened Framing
  import opened Streams
  import opened Callbacks

  const DefaultTimeoutMs: int := 5000

  const AlreadyReading: Exception := InvalidOperation("Stream is already being read.")
  /** TaskCompletionSource.SetResult on a slot that is already complete. */
  const AlreadyCompleted: Exception :=
    InvalidOperation("An attempt was made to transition a task to a final state when it had already completed.")
  /** Task.Delay with a negative delay other than -1 (the infinite one). */
  const DelayOutOfRange: Exception :=
    Failure("ArgumentOutOfRangeException",
            "The value needs to be either -1 (signifying an infinite timeout), 0 or a positive integer. (Parameter 'millisecondsDelay')")

  const TimedOutMessage: string := "Timed out while invoking message."
  const DeserializeFailedMessage: string := "Failed to deserialize message."

  function AlreadyWaitingMessage(id: Guid): string
  {
    "Already waiting for invoke completion of message ID " + GuidToString(id) + "."
  }

  /** TaskCompletionSource<MessageWrapper>: a slot that is completed at most once. */
  class CompletionSource {
    var result: Option<MessageWrapper>

    constructor ()
      ensures result.None?
    {
      result := None;
    }

    method SetResult(w: MessageWrapper) returns (c: Completion)
      modifies this
      ensures old(result).None? ==> result == Some(w) && c == Normal
      ensures old(result).Some? ==> result == old(result) && c == Raised(AlreadyCompleted)
    {
      if result.Some? {
        return Raised(AlreadyCompleted);
      }
      result := Some(w);
      c := Normal;
    }
  }

  /**
   * What Invoke gives back once it stops waiting (lines 99-113): a timeout when the slot was
   * not completed, otherwise the reply's content deserialised under its own type, which must
   * be an instance of the requested return type (that type or one deriving from it).
   */
  function InvokeOutcome(reply: Option<MessageWrapper>, returnType: TypeTag, codec: Codec): (r: IpcResult<Obj>)
    ensures WellFormed(r)
    ensures reply.None? ==> r == Fail(TimedOutMessage)
    ensures r.isSuccess <==>
      (reply.Some? && r.value.Some?
       && codec.deserialize(reply.value.contentType, reply.value.content) == Value(r.value.value)
       && InstanceOf(r.value.value, returnType))
    ensures reply.Some? && codec.deserialize(reply.value.contentType, reply.value.content).Threw? ==>
      r == FailException(codec.deserialize(reply.value.contentType, reply.value.content).e)
  {
    match reply
    case None => Fail(TimedOutMessage)
    case Some(w) =>
      match codec.deserialize(w.contentType, w.content)
      case Threw(e) => FailException(e)
      case Null => Fail(DeserializeFailedMessage)
      case Value(v) => if InstanceOf(v, returnType) then Ok(v) else Fail(DeserializeFailedMessage)
  }

  /**
   * A reply built by the responding side's InvokeFuncs for a value of the requested return
   * type comes back out of Invoke as that value, when the payload codec round-trips.
   */
  lemma InvokeRoundTrip(id: Guid, codec: Codec, v: Obj, requestId: Guid)
    requires PayloadRoundTrips(codec)
    ensures InvokeOutcome(Some(CreateResponse(id, codec, v.runtimeType, v, requestId)), v.runtimeType, codec) == Ok(v)
  {
  }

  /**
   * A reply whose value is of a type deriving from the requested one comes back as that value
   * too: the `is` test accepts it.
   */
  lemma InvokeDerivedType(id: Guid, codec: Codec, v: Obj, requestId: Guid, returnType: TypeTag)
    requires PayloadRoundTrips(codec) && returnType in v.baseTypes
    ensures InvokeOutcome(Some(CreateResponse(id, codec, v.runtimeType, v, requestId)), returnType, codec) == Ok(v)
  {
  }

  /** A reply whose value is not an instance of the requested type is a deserialisation failure. */
  lemma InvokeWrongType(id: Guid, codec: Codec, t: TypeTag, v: Obj, requestId: Guid, returnType: TypeTag)
    requires PayloadRoundTrips(codec) && v.runtimeType == t && !InstanceOf(v, returnType)
    ensures InvokeOutcome(Some(CreateResponse(id, codec, t, v, requestId)), returnType, codec)
         == Fail(DeserializeFailedMessage)
  {
  }

  datatype TaskStatus = Running | RanToCompletion | Canceled

  /**
   * When the read loop's CancellationToken is cancelled, as seen from the loop: never, before
   * BeginRead started the task, or before the given check at the top of the loop (0 is the
   * first).
   */
  datatype CancellationToken = NeverCancelled | CancelledBeforeStart | CancelledBeforeCheck(check: nat)

  predicate CancellationRequested(t: CancellationToken, check: nat)
  {
    t.CancelledBeforeStart? || (t.CancelledBeforeCheck? && t.check <= check)
  }

  /** Why the read loop stopped: its condition, the cancellation check, or one of the catches. */
  datatype EndReason =
    | NotConnected          // the while condition (line 221)
    | CancellationSeen      // lines 225-229
    | Aborted               // ThreadAbortException, lines 248-252
    | ReadCanceled          // TaskCanceledException, or a message saying the operation was canceled
    | ClosedByPeer          // MessagePackSerializationException over EndOfStreamException
    | Failed(e: Exception)  // anything else, lines 268-272

  datatype ReadEnd = Ended(reason: EndReason) | NeverEnds

  /** The catch clauses of lines 248-272, tried in order. Every exception ends the loop. */
  function Classify(e: Exception): (r: EndReason)
    ensures r != NotConnected && r != CancellationSeen
    ensures r.Failed? <==> !(e.ThreadAbort? || e.TaskCanceled? || (e.Serialization? && e.endOfStream)
                            || e.Message() == OperationCanceledMessage)
    ensures r.Failed? ==> r.e == e
    ensures r == ClosedByPeer <==> e.Serialization? && e.endOfStream
  {
    if e.ThreadAbort? then Aborted
    else if e.TaskCanceled? then ReadCanceled
    else if e.Serialization? && e.endOfStream then ClosedByPeer
    else if e.Message() == OperationCanceledMessage then ReadCanceled
    else Failed(e)
  }

  /** How ProcessMessage ends on an envelope, and the handlers it calls, in order. */
  datatype Processed = Processed(outcome: Completion, called: seq<CallbackToken>)

  /**
   * One pass of the read loop: the frame it read and, when the frame's body decoded to an
   * envelope or to null, how processing it went.
   */
  datatype Pass = Pass(frame: FrameOutcome, processed: Processed)

  /** What ProcessMessage is handed for a decoded body: null is None. */
  function Envelope(d: Decoded<MessageWrapper>): Option<MessageWrapper>
  {
    if d.Value? then Some(d.value) else None
  }

  /**
   * The exception a pass raises, if any, in the order lines 231-246 meet them: the frame
   * read's, the envelope decoding's, or processing's.
   */
  function Thrown(p: Pass, codec: Codec): Option<Exception>
  {
    match p.frame
    case FrameFault(e) => Some(e)
    case Body(b) =>
      (match codec.deserializeWrapper(b)
       case Threw(e) => Some(e)
       case _ => if p.processed.outcome.Raised? then Some(p.processed.outcome.e) else None)
    case _ => None
  }

  /** Whether the loop stops after a pass, and why: whatever the pass throws goes to the catches. */
  function StopOf(p: Pass, codec: Codec): (r: Option<EndReason>)
    ensures r.Some? ==> r.value != NotConnected && r.value != CancellationSeen
  {
    match Thrown(p, codec)
    case None => None
    case Some(e) => Some(Classify(e))
  }

  /**
   * An exception from a user handler reaches the generic catch: the pass that raised it ends
   * the loop, reported as a failure.
   */
  lemma HandlerExceptionEndsRead(b: ByteArray, codec: Codec, called: seq<CallbackToken>, kind: string, text: string)
    requires codec.deserializeWrapper(b).Value? && text != OperationCanceledMessage
    ensures StopOf(Pass(Body(b), Processed(Raised(Failure(kind, text)), called)), codec)
         == Some(Failed(Failure(kind, text)))
  {
  }

  /** A body that decodes to null throws when its kind is read (line 189), and that ends the loop too. */
  lemma NullEnvelopeEndsRead(b: ByteArray, codec: Codec)
    requires codec.deserializeWrapper(b).Null?
    ensures StopOf(Pass(Body(b), Processed(Raised(NullReference), [])), codec) == Some(Failed(NullReference))
  {
  }

  /**
   * A pass over a pipe the peer has closed: the prefix read finds nothing, so the size is 0,
   * and decoding the empty body throws the end-of-stream exception that the catch at lines
   * 258-262 reports as a close. No envelope is processed.
   */
  lemma PeerCloseEndsRead(codec: Codec, p: Pass, connected: bool)
    requires EmptyBodyEndsStream(codec)
    requires p.frame == ReadFrameAsWritten(Incoming([], connected)).outcome
    ensures p.frame == Body([]) && !Decodes(p, codec) && Handed(p, codec).None?
    ensures StopOf(p, codec) == Some(ClosedByPeer)
    ensures ReadFrameAsWritten(Incoming([], connected)).after == Incoming([], false)
  {
    assert Zeros(PrefixLength) == [0, 0, 0, 0];
  }

  /** The frames n passes of the read loop take off the pipe, one after the other, and what is left. */
  function FramesRead(s: Incoming, n: nat): (r: (seq<FrameOutcome>, Incoming))
    ensures |r.0| == n
    decreases n
  {
    if n == 0 then ([], s)
    else
      var f := ReadFrameAsWritten(s);
      var rest := FramesRead(f.after, n - 1);
      ([f.outcome] + rest.0, rest.1)
  }

  /** One more pass reads the next frame off what the earlier ones left. */
  lemma {:induction false} FramesReadSnoc(s: Incoming, n: nat)
    ensures var r := FramesRead(s, n);
      var f := ReadFrameAsWritten(r.1);
      FramesRead(s, n + 1) == (r.0 + [f.outcome], f.after)
    decreases n
  {
    var f := ReadFrameAsWritten(s);
    var next := FramesRead(s, n + 1);
    var rest1 := FramesRead(f.after, n);
    assert next == ([f.outcome] + rest1.0, rest1.1);
    if n > 0 {
      FramesReadSnoc(f.after, n - 1);
      var rest := FramesRead(f.after, n - 1);
      assert FramesRead(s, n) == ([f.outcome] + rest.0, rest.1);
      var g := ReadFrameAsWritten(rest.1);
      assert rest1 == (rest.0 + [g.outcome], g.after);
      assert [f.outcome] + (rest.0 + [g.outcome]) == ([f.outcome] + rest.0) + [g.outcome];
    } else {
      assert rest1 == ([], f.after);
      assert [f.outcome] + [] == [] + [f.outcome];
    }
  }

  /** Pass i reads its frame off what the i passes before it left. */
  lemma {:induction false} FramesReadAt(s: Incoming, n: nat, i: nat)
    requires i < n
    ensures FramesRead(s, n).0[i] == ReadFrameAsWritten(FramesRead(s, i).1).outcome
    decreases i
  {
    var f := ReadFrameAsWritten(s);
    var all := FramesRead(s, n);
    var rest := FramesRead(f.after, n - 1);
    assert all.0 == [f.outcome] + rest.0;
    if i == 0 {
      assert all.0[0] == f.outcome;
    } else {
      var before := FramesRead(s, i);
      assert before.1 == FramesRead(f.after, i - 1).1;
      FramesReadAt(f.after, n - 1, i - 1);
      assert all.0[i] == rest.0[i - 1];
    }
  }

  /** Each of the first n passes over the pipe that started as s0 began on a connected pipe. */
  predicate StartedConnected(s0: Incoming, n: nat)
    decreases n
  {
    n == 0 || (s0.connected && StartedConnected(ReadFrameAsWritten(s0).after, n - 1))
  }

  /** Pass i of the first n started on a connected pipe. */
  lemma {:induction false} StartedConnectedAt(s0: Incoming, n: nat, i: nat)
    requires StartedConnected(s0, n) && i < n
    ensures FramesRead(s0, i).1.connected
    decreases n
  {
    if i > 0 {
      StartedConnectedAt(ReadFrameAsWritten(s0).after, n - 1, i - 1);
    }
  }

  /** A pass that starts on a connected pipe extends the run of such passes. */
  lemma {:induction false} StartedConnectedSnoc(s0: Incoming, n: nat)
    requires StartedConnected(s0, n) && FramesRead(s0, n).1.connected
    ensures StartedConnected(s0, n + 1)
    decreases n
  {
    if n > 0 {
      StartedConnectedSnoc(ReadFrameAsWritten(s0).after, n - 1);
    }
  }

  /** The passes read the frames of the pipe that started as s0, in order, leaving now. */
  ghost predicate FramesInOrder(s0: Incoming, passes: seq<Pass>, now: Incoming)
  {
    var r := FramesRead(s0, |passes|);
    now == r.1 && forall i | 0 <= i < |passes| :: passes[i].frame == r.0[i]
  }

  lemma FramesInOrderSnoc(s0: Incoming, passes: seq<Pass>, now: Incoming, p: Pass)
    requires FramesInOrder(s0, passes, now) && p.frame == ReadFrameAsWritten(now).outcome
    ensures FramesInOrder(s0, passes + [p], ReadFrameAsWritten(now).after)
  {
    var r := FramesRead(s0, |passes|);
    var f := ReadFrameAsWritten(now);
    FramesReadSnoc(s0, |passes|);
    var ps := passes + [p];
    var r2 := FramesRead(s0, |ps|);
    assert |ps| == |passes| + 1;
    assert r2 == (r.0 + [f.outcome], f.after);
    forall i | 0 <= i < |ps| ensures ps[i].frame == r2.0[i] {
      if i < |passes| {
        assert ps[i] == passes[i] && r2.0[i] == r.0[i];
      } else {
        assert ps[i] == p && r2.0[i] == f.outcome;
      }
    }
  }

  /** The passes read the frames in order, and each of them began on a connected pipe. */
  ghost predicate ReadInOrder(s0: Incoming, passes: seq<Pass>, now: Incoming)
  {
    FramesInOrder(s0, passes, now) && StartedConnected(s0, |passes|)
  }

  lemma ReadInOrderSnoc(s0: Incoming, passes: seq<Pass>, now: Incoming, p: Pass)
    requires ReadInOrder(s0, passes, now) && now.connected && p.frame == ReadFrameAsWritten(now).outcome
    ensures ReadInOrder(s0, passes + [p], ReadFrameAsWritten(now).after)
  {
    FramesInOrderSnoc(s0, passes, now, p);
    StartedConnectedSnoc(s0, |passes|);
  }

  /** The loop went on after the pass: nothing was thrown and the frame was complete. */
  predicate WentOn(p: Pass, codec: Codec)
  {
    StopOf(p, codec).None? && !p.frame.Spins?
  }

  /**
   * How a read loop that made the given passes ended: a stopping last pass gives its reason,
   * a spinning last pass never ends unless the token can be cancelled, and any other reason
   * is the loop's condition or the cancellation check, after passes that all went on.
   */
  predicate EndedAfter(end: ReadEnd, passes: seq<Pass>, codec: Codec, cancel: CancellationToken)
  {
    (passes != [] && StopOf(passes[|passes| - 1], codec).Some? ==>
       end == Ended(StopOf(passes[|passes| - 1], codec).value))
    && (passes != [] && passes[|passes| - 1].frame.Spins? ==>
          end == (if cancel == NeverCancelled then NeverEnds else Ended(Classify(TaskCanceled))))
    && (end.Ended? && end.reason != NotConnected && end.reason != CancellationSeen ==>
          passes != [] && (StopOf(passes[|passes| - 1], codec).Some? || passes[|passes| - 1].frame.Spins?))
    && (end == Ended(NotConnected) || end == Ended(CancellationSeen) ==>
          forall i | 0 <= i < |passes| :: WentOn(passes[i], codec))
  }

  /**
   * Once the pipe has nothing more to deliver, the pass that finds it so is the loop's last,
   * and the loop ends as closed by the peer.
   */
  lemma PeerCloseEndsLoop(codec: Codec, s0: Incoming, passes: seq<Pass>, now: Incoming,
                          end: ReadEnd, cancel: CancellationToken, i: nat)
    requires EmptyBodyEndsStream(codec)
    requires ReadInOrder(s0, passes, now) && EndedAfter(end, passes, codec, cancel)
    requires forall j | 0 <= j < |passes| - 1 :: WentOn(passes[j], codec)
    requires i < |passes| && FramesRead(s0, i).1.script == []
    ensures i == |passes| - 1 && end == Ended(ClosedByPeer) && !Decodes(passes[i], codec)
  {
    var start := FramesRead(s0, i).1;
    FramesReadAt(s0, |passes|, i);
    assert start == Incoming([], start.connected);
    PeerCloseEndsRead(codec, passes[i], start.connected);
    assert !WentOn(passes[i], codec);
  }

  /**
   * Whether a pass got as far as ProcessMessage: its frame was read and its body decoded,
   * to an envelope or to null.
   */
  predicate Decodes(p: Pass, codec: Codec)
  {
    p.frame.Body? && !codec.deserializeWrapper(p.frame.bytes).Threw?
  }

  /** The envelope a pass decoded, if any. */
  function Handed(p: Pass, codec: Codec): Option<MessageWrapper>
  {
    if p.frame.Body? then Envelope(codec.deserializeWrapper(p.frame.bytes)) else None
  }

  /** The serialised envelopes of the replies, in order. */
  function Bodies(codec: Codec, sent: seq<MessageWrapper>): (b: seq<ByteArray>)
    ensures |b| == |sent| && forall i | 0 <= i < |sent| :: b[i] == codec.serializeWrapper(sent[i])
  {
    seq(|sent|, i requires 0 <= i < |sent| => codec.serializeWrapper(sent[i]))
  }

  /** A frame SendInternal wrote is read back, by the read loop, as the envelope it framed. */
  lemma SentEnvelopeReadsBack(codec: Codec, w: MessageWrapper, more: seq<byte>,
                              tail: seq<ReadOutcome>, connected: bool)
    requires WrapperRoundTrips(codec)
    ensures var body := codec.serializeWrapper(w);
      var r := ReadFrameAsWritten(Incoming([Data(Frame(body) + more)] + tail, connected));
      r.outcome.Body? && codec.deserializeWrapper(r.outcome.bytes) == Value(w)
  {
    AsWrittenReadsWholeFrame(codec.serializeWrapper(w), more, tail, connected);
  }

  class Connection {
    const pipeName: string
    const store: CallbackStore
    /** Where Guid.NewGuid takes envelope ids from. */
    const ids: GuidSource
    const codec: Codec
    var stream: PipeStream?
    /** _invokesPendingCompletion. */
    var pending: map<Guid, CompletionSource>
    var readTask: Option<TaskStatus>
    var readCancel: CancellationToken
    /** How often ReadingEnded has fired. */
    var readingEndedCount: nat
    /** How many handlers are subscribed to ReadingEnded. */
    var readingEndedHandlers: nat

    ghost predicate Valid()
      reads this, store, store.tokens
    {
      store.Valid() && store.tokens != ids && store.codec == codec
    }

    constructor (pipeName: string, codec: Codec, behaviour: Behaviour, ids: GuidSource, stream: PipeStream?)
      ensures Valid() && fresh(store) && fresh(store.tokens)
      ensures store.actions == map[] && store.funcs == map[] && store.behaviour == behaviour
      ensures this.pipeName == pipeName && this.codec == codec && this.ids == ids && this.stream == stream
      ensures pending == map[] && readTask.None? && readCancel == NeverCancelled
      ensures readingEndedCount == 0 && readingEndedHandlers == 0
    {
      this.pipeName := pipeName;
      this.codec := codec;
      this.ids := ids;
      this.stream := stream;
      store := new CallbackStore(codec, behaviour);
      pending := map[];
      readTask := None;
      readCancel := NeverCancelled;
      readingEndedCount := 0;
      readingEndedHandlers := 0;
    }

    /** `_pipeStream?.IsConnected ?? false`. */
    function IsConnected(): (r: bool)
      reads this, stream
      ensures stream == null ==> !r
      ensures stream != null ==> (r <==> stream.incoming.connected)
    {
      stream != null && stream.IsConnected()
    }

    /** BeginRead (lines 63-72): refused while an earlier read task has not completed. */
    method BeginRead(token: CancellationToken) returns (c: Completion)
      modifies this
      ensures old(readTask) == Some(Running) ==>
        (c == Raised(AlreadyReading) && readTask == old(readTask) && readCancel == old(readCancel))
      ensures old(readTask) != Some(Running) ==>
        (c == Normal && readCancel == token
         && readTask == Some(if token.CancelledBeforeStart? then Canceled else Running))
      ensures stream == old(stream) && pending == old(pending)
      ensures readingEndedCount == old(readingEndedCount) && readingEndedHandlers == old(readingEndedHandlers)
    {
      if readTask == Some(Running) {
        return Raised(AlreadyReading);
      }
      readCancel := token;
      readTask := Some(if token.CancelledBeforeStart? then Canceled else Running);
      c := Normal;
    }

    /**
     * SendInternal(wrapper, timeoutMs) (lines 283-310): nothing is written for a timeout
     * below 1 or a missing stream; otherwise the frame is written. It never throws.
     */
    method SendInternal(wrapper: MessageWrapper, timeoutMs: int)
      modifies stream
      ensures stream != null ==> stream.incoming == old(stream.incoming)
      ensures stream != null && timeoutMs < 1 ==>
        stream.written == old(stream.written) && stream.writeFaults == old(stream.writeFaults)
      ensures stream != null && timeoutMs >= 1 ==>
        var w := FrameWrite(old(stream.incoming.connected), old(stream.writeFaults), codec.serializeWrapper(wrapper));
        stream.written == old(stream.written) + w.appended && stream.writeFaults == w.faultsAfter
    {
      if timeoutMs < 1 {
        return;
      }
      if stream == null {
        return;
      }
      var wrapperBytes := codec.serializeWrapper(wrapper);
      stream.WriteFrame(wrapperBytes);
    }

    /** SendInternal(contentType, content, timeoutMs) and Send (lines 176-180, 278-282). */
    method Send(contentType: TypeTag, content: Obj, timeoutMs: int) returns (wrapper: MessageWrapper)
      modifies stream, ids
      ensures wrapper == Create(wrapper.id, codec, contentType, content, MessageType.Send)
      ensures wrapper.id != EmptyGuid && !old(ids.Issued(wrapper.id))
      ensures stream != null ==> stream.incoming == old(stream.incoming)
      ensures stream != null && timeoutMs < 1 ==>
        stream.written == old(stream.written) && stream.writeFaults == old(stream.writeFaults)
      ensures stream != null && timeoutMs >= 1 ==>
        var w := FrameWrite(old(stream.incoming.connected), old(stream.writeFaults), codec.serializeWrapper(wrapper));
        stream.written == old(stream.written) + w.appended && stream.writeFaults == w.faultsAfter
    {
      wrapper := NewWrapper(ids, codec, contentType, content, MessageType.Send);
      SendInternal(wrapper, timeoutMs);
    }

    /**
     * Invoke<TReturnType>(wrapper, timeoutMs) up to its wait (lines 88-97). An id already
     * pending gives a failure and sends nothing, and the finally still removes the id, taking
     * the earlier caller's entry with it. Otherwise the slot is registered and the envelope
     * sent; a delay Task.Delay refuses ends the call here too.
     */
    method BeginInvoke(wrapper: MessageWrapper, timeoutMs: int)
      returns (tcs: CompletionSource, early: Option<IpcResult<Obj>>)
      modifies this, stream
      ensures stream == old(stream) && (stream != null ==> stream.incoming == old(stream.incoming))
      ensures fresh(tcs) && tcs.result.None?
      ensures wrapper.id in old(pending) ==>
        (early == Some(Fail(AlreadyWaitingMessage(wrapper.id))) && pending == old(pending) - {wrapper.id}
         && (stream != null ==> stream.written == old(stream.written) && stream.writeFaults == old(stream.writeFaults)))
      ensures wrapper.id !in old(pending) && timeoutMs < -1 ==>
        (early == Some(FailException(DelayOutOfRange)) && pending == old(pending))
      ensures wrapper.id !in old(pending) && timeoutMs >= -1 ==>
        (early.None? && pending == old(pending)[wrapper.id := tcs])
      ensures wrapper.id !in old(pending) && stream != null && timeoutMs >= 1 ==>
        var w := FrameWrite(old(stream.incoming.connected), old(stream.writeFaults), codec.serializeWrapper(wrapper));
        stream.written == old(stream.written) + w.appended && stream.writeFaults == w.faultsAfter
      ensures stream != null && timeoutMs < 1 ==>
        stream.written == old(stream.written) && stream.writeFaults == old(stream.writeFaults)
      ensures readTask == old(readTask) && readCancel == old(readCancel)
      ensures readingEndedCount == old(readingEndedCount) && readingEndedHandlers == old(readingEndedHandlers)
    {
      tcs := new CompletionSource();
      if wrapper.id in pending {
        pending := pending - {wrapper.id};
        return tcs, Some(Fail(AlreadyWaitingMessage(wrapper.id)));
      }
      pending := pending[wrapper.id := tcs];
      SendInternal(wrapper, timeoutMs);
      if timeoutMs < -1 {
        pending := pending - {wrapper.id};
        assert pending == old(pending);
        return tcs, Some(FailException(DelayOutOfRange));
      }
      early := None;
    }

    /**
     * The rest of Invoke (lines 99-123), once the wait is over: the outcome read off the
     * slot, and the finally removing the id. With the infinite timeout (-1) the wait is only
     * over once the slot has completed.
     */
    method EndInvoke(wrapper: MessageWrapper, tcs: CompletionSource, returnType: TypeTag, timeoutMs: int)
      returns (r: IpcResult<Obj>)
      requires timeoutMs != -1 || tcs.result.Some?
      modifies this
      ensures r == InvokeOutcome(tcs.result, returnType, codec)
      ensures pending == old(pending) - {wrapper.id}
      ensures stream == old(stream) && readTask == old(readTask) && readCancel == old(readCancel)
      ensures readingEndedCount == old(readingEndedCount) && readingEndedHandlers == old(readingEndedHandlers)
    {
      if tcs.result.None? {
        r := Fail(TimedOutMessage);
      } else {
        var result := tcs.result.value;
        var deserialized := codec.deserialize(result.contentType, result.content);
        if deserialized.Value? && InstanceOf(deserialized.value, returnType) {
          r := Ok(deserialized.value);
        } else if deserialized.Threw? {
          r := FailException(deserialized.e);
        } else {
          r := Fail(DeserializeFailedMessage);
        }
      }
      pending := pending - {wrapper.id};
    }

    /** Invoke<TContentType, TReturnType> (lines 126-132): a fresh Invoke envelope, then Invoke. */
    method BeginInvokeContent(contentType: TypeTag, content: Obj, timeoutMs: int)
      returns (wrapper: MessageWrapper, tcs: CompletionSource, early: Option<IpcResult<Obj>>)
      modifies this, stream, ids
      ensures stream == old(stream) && (stream != null ==> stream.incoming == old(stream.incoming))
      ensures wrapper == Create(wrapper.id, codec, contentType, content, MessageType.Invoke)
      ensures wrapper.id != EmptyGuid && !old(ids.Issued(wrapper.id))
      ensures fresh(tcs) && tcs.result.None?
      ensures wrapper.id in old(pending) ==>
        (early == Some(Fail(AlreadyWaitingMessage(wrapper.id))) && pending == old(pending) - {wrapper.id})
      ensures wrapper.id !in old(pending) && timeoutMs >= -1 ==>
        (early.None? && pending == old(pending)[wrapper.id := tcs])
      ensures wrapper.id !in old(pending) && stream != null && timeoutMs >= 1 ==>
        var w := FrameWrite(old(stream.incoming.connected), old(stream.writeFaults), codec.serializeWrapper(wrapper));
        stream.written == old(stream.written) + w.appended && stream.writeFaults == w.faultsAfter
    {
      wrapper := NewWrapper(ids, codec, contentType, content, MessageType.Invoke);
      tcs, early := BeginInvoke(wrapper, timeoutMs);
    }

    /** On<TContentType>(callback) (lines 150-160): the typed adapter goes into the store. */
    method On(contentType: TypeTag, callback: Option<HandlerId>) returns (r: Returns<CallbackToken>)
      requires Valid()
      modifies store, store.tokens
      ensures Valid()
      ensures callback.None? ==>
        (r == Throws(ArgumentNull("callback")) && store.actions == old(store.actions) && store.funcs == old(store.funcs))
      ensures callback.Some? ==>
        (r.Returned? && !old(store.tokens.Issued(r.value.id))
         && store.actions == old(store.actions)[contentType :=
              Registered(old(store.actions), contentType) + [IpcAction(contentType, Some(Typed(callback.value, contentType)), r.value)]]
         && store.funcs == old(store.funcs))
    {
      if callback.None? {
        return Throws(ArgumentNull("callback"));
      }
      var token := store.AddAction(contentType, Some(Typed(callback.value, contentType)));
      r := Returned(token);
    }

    /** On<TContentType, ReturnType>(handler) (lines 163-174). */
    method OnFunc(contentType: TypeTag, returnType: TypeTag, handler: Option<HandlerId>)
      returns (r: Returns<CallbackToken>)
      requires Valid()
      modifies store, store.tokens
      ensures Valid()
      ensures handler.None? ==>
        (r == Throws(ArgumentNull("handler")) && store.actions == old(store.actions) && store.funcs == old(store.funcs))
      ensures handler.Some? ==>
        (r.Returned? && !old(store.tokens.Issued(r.value.id))
         && store.funcs == old(store.funcs)[contentType :=
              Registered(old(store.funcs), contentType)
              + [FuncFor(Some(Typed(handler.value, contentType)), contentType, returnType, r.value)]]
         && store.actions == old(store.actions))
    {
      if handler.None? {
        return Throws(ArgumentNull("handler"));
      }
      var token := store.AddFunc(Some(Typed(handler.value, contentType)), contentType, returnType);
      r := Returned(token);
    }

    /** Off<TContentType>() (lines 134-140): true when the warning is logged. */
    method Off(contentType: TypeTag) returns (warned: bool)
      requires Valid()
      modifies store
      ensures Valid()
      ensures store.funcs == old(store.funcs) - {contentType} && store.actions == old(store.actions) - {contentType}
      ensures warned <==> contentType !in old(store.funcs) && contentType !in old(store.actions)
    {
      var found := store.TryRemoveAll(contentType);
      warned := !found;
    }

    /** Off<TContentType>(token) (lines 142-148). */
    method OffToken(contentType: TypeTag, token: CallbackToken) returns (warned: bool)
      requires Valid()
      modifies store
      ensures Valid()
      ensures store.funcs == if contentType in old(store.funcs)
        then old(store.funcs)[contentType := Without(old(store.funcs)[contentType], FuncToken, token)]
        else old(store.funcs)
      ensures store.actions == if contentType in old(store.actions)
        then old(store.actions)[contentType := Without(old(store.actions)[contentType], ActionToken, token)]
        else old(store.actions)
      ensures warned <==>
        (Occurrences(Registered(old(store.funcs), contentType), FuncToken, token)
         + Occurrences(Registered(old(store.actions), contentType), ActionToken, token) == 0)
    {
      var found := store.TryRemove(contentType, token);
      warned := !found;
    }

    /** The replies InvokeFuncs hands to SendInternal, sent one after the other. */
    method SendReplies(sent: seq<MessageWrapper>)
      modifies stream
      ensures stream != null ==> stream.incoming == old(stream.incoming)
      ensures stream != null ==>
        var w := FramesWrite(old(stream.incoming.connected), old(stream.writeFaults), Bodies(codec, sent));
        stream.written == old(stream.written) + w.appended && stream.writeFaults == w.faultsAfter
    {
      if stream == null {
        // SendInternal returns at once for every reply.
        return;
      }
      ghost var bodies := Bodies(codec, sent);
      ghost var connected, faults, written := stream.incoming.connected, stream.writeFaults, stream.written;
      for k := 0 to |sent|
        invariant stream.incoming == old(stream.incoming)
        invariant var w := FramesWrite(connected, faults, bodies[..k]);
          stream.written == written + w.appended && stream.writeFaults == w.faultsAfter
      {
        FramesWriteSnoc(connected, faults, bodies, k);
        ghost var init := FramesWrite(connected, faults, bodies[..k]);
        ghost var frame := FrameWrite(connected, init.faultsAfter, bodies[k]);
        SendInternal(sent[k], DefaultTimeoutMs);
        AppendAssociates(written, init.appended, frame.appended);
      }
      assert bodies[..|sent|] == bodies;
    }

    /**
     * How ProcessMessage ends on an envelope in the current state, and the handlers it calls:
     * a null envelope throws when its kind is read, a response completes its slot (once), a message runs
     * the actions of its type and a request the funcs of its type.
     */
    ghost function Processing(wrapper: Option<MessageWrapper>): Processed
      reads this, store, pending.Values
    {
      match wrapper
      case None => Processed(Raised(NullReference), [])
      case Some(w) =>
        match w.messageType
        case Unspecified => Processed(Normal, [])
        case Response =>
          Processed(if w.responseTo in pending && pending[w.responseTo].result.Some?
                    then Raised(AlreadyCompleted) else Normal, [])
        case Send =>
          var d := ActionsDispatch(Registered(store.actions, w.contentType), w, codec, store.behaviour);
          Processed(d.outcome, d.called)
        case Invoke =>
          var d := FuncsDispatch(Registered(store.funcs, w.contentType), w, codec, store.behaviour);
          Processed(d.outcome, d.called)
    }

    /**
     * ProcessMessage (lines 187-217), on the envelope the read loop decoded (None: it
     * decoded to null). It returns how it ended, the handlers it called and the replies it
     * sent.
     */
    method ProcessMessage(wrapper: Option<MessageWrapper>)
      returns (c: Completion, called: seq<CallbackToken>, sent: seq<MessageWrapper>)
      requires Valid()
      modifies stream, ids, pending.Values
      ensures Valid()
      ensures Processed(c, called) == old(Processing(wrapper))
      ensures stream != null ==> stream.incoming == old(stream.incoming)
      ensures wrapper.None? ==> sent == []
      ensures sent == [] && stream != null ==>
        stream.written == old(stream.written) && stream.writeFaults == old(stream.writeFaults)
      ensures forall g | g in pending && !(wrapper.Some? && wrapper.value.messageType.Response?
                                           && wrapper.value.responseTo in pending
                                           && pending[g] == pending[wrapper.value.responseTo]) ::
        pending[g].result == old(pending[g].result)
      ensures wrapper.Some? ==> var w := wrapper.value;
        match w.messageType
        case Unspecified => sent == []
        case Response =>
          sent == []
          && (w.responseTo in pending ==>
                var slot := pending[w.responseTo];
                (old(slot.result).None? ==> slot.result == Some(w))
                && (old(slot.result).Some? ==> slot.result == old(slot.result)))
        case Send => sent == []
        case Invoke =>
          var d := FuncsDispatch(Registered(store.funcs, w.contentType), w, codec, store.behaviour);
          |sent| == |d.replies|
          && (forall i | 0 <= i < |sent| ::
                sent[i] == CreateResponse(sent[i].id, codec, d.replies[i].contentType, d.replies[i].value, w.id)
                && sent[i].id != EmptyGuid && !old(ids.Issued(sent[i].id)))
          && (stream != null ==>
                var wr := FramesWrite(old(stream.incoming.connected), old(stream.writeFaults), Bodies(codec, sent));
                stream.written == old(stream.written) + wr.appended && stream.writeFaults == wr.faultsAfter)
    {
      sent, called := [], [];
      if wrapper.None? {
        return Raised(NullReference), [], [];
      }
      var w := wrapper.value;
      match w.messageType {
        case Response =>
          c := Normal;
          if w.responseTo in pending {
            c := pending[w.responseTo].SetResult(w);
          }
        case Send =>
          var d := store.InvokeActions(wrapper);
          c, called := d.outcome, d.called;
        case Invoke =>
          var responses;
          called, responses, c := store.InvokeFuncs(wrapper, ids);
          SendReplies(responses);
          sent := responses;
        case Unspecified =>
          c := Normal;
      }
    }

    /**
     * One pass of the read loop after the cancellation check (lines 231-246): read the next
     * frame, decode the envelope and process it. The loop stops on whatever the pass throws,
     * classified by the catch clauses; a frame whose body never completes is reported apart.
     */
    method ReadOnce() returns (stop: Option<EndReason>, spins: bool, ghost pass: Pass,
                               ghost sent: seq<MessageWrapper>)
      requires Valid() && stream != null
      modifies stream, ids, pending.Values
      ensures Valid()
      ensures var f := ReadFrameAsWritten(old(stream.incoming));
        pass.frame == f.outcome && stream.incoming == f.after
      ensures Progress(old(stream.incoming), stream.incoming)
      ensures spins <==> pass.frame.Spins?
      ensures stop == StopOf(pass, codec)
      ensures Decodes(pass, codec) ==> pass.processed == old(Processing(Handed(pass, codec)))
      ensures !Decodes(pass, codec) ==> pass.processed == Processed(Normal, [])
      // what processing did to the slots and the pipe
      ensures !Decodes(pass, codec) || Handed(pass, codec).None? ==> sent == []
      ensures sent == [] ==> stream.written == old(stream.written) && stream.writeFaults == old(stream.writeFaults)
      ensures var env := Handed(pass, codec);
        forall g | g in pending && !(env.Some? && env.value.messageType.Response?
                                     && env.value.responseTo in pending
                                     && pending[g] == pending[env.value.responseTo]) ::
          pending[g].result == old(pending[g].result)
      ensures Decodes(pass, codec) && Handed(pass, codec).Some? ==> var w := Handed(pass, codec).value;
        match w.messageType
        case Response =>
          sent == []
          && (w.responseTo in pending ==>
                var slot := pending[w.responseTo];
                (old(slot.result).None? ==> slot.result == Some(w))
                && (old(slot.result).Some? ==> slot.result == old(slot.result)))
        case Invoke =>
          var d := FuncsDispatch(Registered(store.funcs, w.contentType), w, codec, store.behaviour);
          |sent| == |d.replies|
          && (forall i | 0 <= i < |sent| ::
                sent[i] == CreateResponse(sent[i].id, codec, d.replies[i].contentType, d.replies[i].value, w.id)
                && sent[i].id != EmptyGuid && !old(ids.Issued(sent[i].id)))
          && (var wr := FramesWrite(stream.incoming.connected, old(stream.writeFaults), Bodies(codec, sent));
              stream.written == old(stream.written) + wr.appended && stream.writeFaults == wr.faultsAfter)
        case _ => sent == []
    {
      sent := [];
      stop, spins := None, false;
      var frame := stream.ReadFrame();
      pass := Pass(frame, Processed(Normal, []));
      if frame.FrameFault? {
        stop := Some(Classify(frame.e));
        return;
      } else if frame.Spins? {
        spins := true;
        return;
      }
      var decoded := codec.deserializeWrapper(frame.bytes);
      if decoded.Threw? {
        stop := Some(Classify(decoded.e));
        return;
      }
      var c, called, replies := ProcessMessage(Envelope(decoded));
      pass, sent := Pass(frame, Processed(c, called)), replies;
      if c.Raised? {
        stop := Some(Classify(c.e));
      }
    }

    /**
     * ReadFromStream (lines 219-277): while the pipe is connected, check for cancellation,
     * then read, decode and process the next frame; any exception ends the loop. ReadingEnded
     * then fires once. A frame whose body never completes keeps the loop reading for ever:
     * unless the token is cancelled, which the pending read reports as a TaskCanceledException,
     * the task stays running and ReadingEnded never fires (NeverEnds).
     */
    method ReadFromStream() returns (end: ReadEnd, ghost passes: seq<Pass>)
      requires Valid() && readTask == Some(Running)
      modifies this, stream, ids, pending.Values
      ensures Valid()
      ensures stream == old(stream) && pending == old(pending) && readCancel == old(readCancel)
      ensures readingEndedHandlers == old(readingEndedHandlers)
      ensures end.Ended? ==> readTask == Some(RanToCompletion) && readingEndedCount == old(readingEndedCount) + 1
      ensures end.NeverEnds? ==>
        (readTask == old(readTask) && readingEndedCount == old(readingEndedCount)
         && readCancel == NeverCancelled && stream != null && stream.incoming.script == [])
      ensures stream != null ==> ReadInOrder(old(stream.incoming), passes, stream.incoming)
      ensures forall i | 0 <= i < |passes| :: !CancellationRequested(readCancel, i)
      ensures forall i | 0 <= i < |passes| - 1 :: WentOn(passes[i], codec)
      ensures EndedAfter(end, passes, codec, readCancel)
      ensures end == Ended(NotConnected) ==> !IsConnected()
      ensures end == Ended(CancellationSeen) ==> CancellationRequested(readCancel, |passes|)
      ensures !old(IsConnected()) ==> end == Ended(NotConnected) && passes == []
      ensures old(IsConnected()) && CancellationRequested(readCancel, 0) ==>
        end == Ended(CancellationSeen) && passes == []
      ensures EmptyBodyEndsStream(codec) && stream != null && old(stream.incoming.script) == [] && passes != [] ==>
        |passes| == 1 && end == Ended(ClosedByPeer) && !Decodes(passes[0], codec)
    {
      end, passes := ReadPasses();
      if EmptyBodyEndsStream(codec) && stream != null && old(stream.incoming.script) == [] && passes != [] {
        PeerCloseEndsLoop(codec, old(stream.incoming), passes, stream.incoming, end, readCancel, 0);
      }
      if end.Ended? {
        readingEndedCount := readingEndedCount + 1;
        readTask := Some(RanToCompletion);
      }
    }

    /** The loop of lines 221-273, up to the point where ReadingEnded would fire. */
    method ReadPasses() returns (end: ReadEnd, ghost passes: seq<Pass>)
      requires Valid()
      modifies stream, ids, pending.Values
      ensures Valid()
      ensures end.NeverEnds? ==> readCancel == NeverCancelled && stream != null && stream.incoming.script == []
      ensures stream != null ==> ReadInOrder(old(stream.incoming), passes, stream.incoming)
      ensures forall i | 0 <= i < |passes| :: !CancellationRequested(readCancel, i)
      ensures forall i | 0 <= i < |passes| - 1 :: WentOn(passes[i], codec)
      ensures EndedAfter(end, passes, codec, readCancel)
      ensures end == Ended(NotConnected) ==> !IsConnected()
      ensures end == Ended(CancellationSeen) ==> CancellationRequested(readCancel, |passes|)
      ensures !old(IsConnected()) ==> end == Ended(NotConnected) && passes == []
      ensures old(IsConnected()) && CancellationRequested(readCancel, 0) ==>
        end == Ended(CancellationSeen) && passes == []
    {
      passes := [];
      var check := 0;
      end := Ended(NotConnected);
      while stream != null && stream.IsConnected()
        invariant Valid()
        invariant end == Ended(NotConnected) && |passes| == check
        invariant stream != null ==> ReadInOrder(old(stream.incoming), passes, stream.incoming)
        invariant forall i | 0 <= i < check :: !CancellationRequested(readCancel, i) && WentOn(passes[i], codec)
        invariant check > 0 ==> old(IsConnected())
        decreases if stream != null && stream.incoming.connected then 1 else 0,
                  if stream != null then Weight(stream.incoming.script) else 0
      {
        if CancellationRequested(readCancel, check) {
          end := Ended(CancellationSeen);
          return;
        }
        ghost var before := stream.incoming;
        var stop, spins;
        ghost var pass, sent;
        stop, spins, pass, sent := ReadOnce();
        ReadInOrderSnoc(old(stream.incoming), passes, before, pass);
        passes := passes + [pass];
        if spins {
          end := if readCancel == NeverCancelled then NeverEnds else Ended(Classify(TaskCanceled));
          return;
        } else if stop.Some? {
          end := Ended(stop.value);
          return;
        }
        check := check + 1;
      }
    }
  }
}
