/**
 * The named pipe as the connection sees it: the results its coming reads will deliver, the
 * bytes written to it so far, and the results its coming writes will have.
 */
module Streams {
  import opened Types
  import opened Framing

  /** WriteAsync on a pipe that is no longer connected. */
  const PipeBroken: Exception := Failure("IOException", "Pipe is broken.")

  datatype WriteStep = WriteStep(appended: seq<byte>, faultsAfter: seq<Option<Exception>>,
                                 fault: Option<Exception>)

  /**
   * One WriteAsync call: on a broken pipe it throws; otherwise the next scripted write result
   * decides (None, or no script left, means the write goes through). A write that throws
   * writes nothing.
   */
  function NextWrite(connected: bool, faults: seq<Option<Exception>>, bytes: seq<byte>): (w: WriteStep)
    ensures w.fault.None? ==> connected && w.appended == bytes
    ensures w.fault.Some? ==> w.appended == []
    ensures !connected ==> w.fault == Some(PipeBroken) && w.faultsAfter == faults
    ensures connected ==> w.faultsAfter == (if faults == [] then [] else faults[1..])
  {
    if !connected then WriteStep([], faults, Some(PipeBroken))
    else if faults != [] && faults[0].Some? then WriteStep([], faults[1..], faults[0])
    else WriteStep(bytes, if faults == [] then [] else faults[1..], None)
  }

  /**
   * SendInternal's two writes: the length prefix, then, if that went through, the body. What
   * reaches the pipe is always a prefix of the frame, and the whole frame when nothing failed.
   */
  function FrameWrite(connected: bool, faults: seq<Option<Exception>>, body: ByteArray): (w: WriteStep)
    ensures w.appended <= Frame(body)
    ensures w.fault.None? ==> w.appended == Frame(body)
    ensures w.fault.Some? ==> w.appended == [] || w.appended == Frame(body)[..PrefixLength]
    ensures !connected ==> w.appended == [] && w.faultsAfter == faults
  {
    Int32RoundTrip(|body|);
    var prefix := Int32ToBytes(|body|);
    var p := NextWrite(connected, faults, prefix);
    if p.fault.Some? then p
    else
      var b := NextWrite(connected, p.faultsAfter, body);
      assert Frame(body) == prefix + body;
      assert Frame(body)[..PrefixLength] == prefix;
      WriteStep(p.appended + b.appended, b.faultsAfter, b.fault)
  }

  predicate NoFaults(faults: seq<Option<Exception>>)
  {
    forall i | 0 <= i < |faults| :: faults[i].None?
  }

  /** On a connected pipe whose writes all go through, a frame write writes the whole frame. */
  lemma FrameWriteClean(faults: seq<Option<Exception>>, body: ByteArray)
    requires NoFaults(faults)
    ensures FrameWrite(true, faults, body).appended == Frame(body)
    ensures NoFaults(FrameWrite(true, faults, body).faultsAfter)
  {
    Int32RoundTrip(|body|);
    var p := NextWrite(true, faults, Int32ToBytes(|body|));
    assert NoFaults(p.faultsAfter);
  }

  /**
   * Several SendInternal calls in a row, one frame each: what reaches the pipe is the frames'
   * writes one after the other, each taking its write results after the previous one's.
   */
  function FramesWrite(connected: bool, faults: seq<Option<Exception>>, bodies: seq<ByteArray>): (w: WriteStep)
    ensures !connected ==> w.appended == [] && w.faultsAfter == faults
    decreases |bodies|
  {
    if bodies == [] then WriteStep([], faults, None)
    else
      var init := FramesWrite(connected, faults, bodies[..|bodies| - 1]);
      var f := FrameWrite(connected, init.faultsAfter, bodies[|bodies| - 1]);
      WriteStep(init.appended + f.appended, f.faultsAfter, f.fault)
  }

  /** Writing the first k + 1 frames is writing the first k, then frame k. */
  lemma FramesWriteSnoc(connected: bool, faults: seq<Option<Exception>>, bodies: seq<ByteArray>, k: nat)
    requires k < |bodies|
    ensures var init := FramesWrite(connected, faults, bodies[..k]);
      var f := FrameWrite(connected, init.faultsAfter, bodies[k]);
      FramesWrite(connected, faults, bodies[..k + 1]) == WriteStep(init.appended + f.appended, f.faultsAfter, f.fault)
  {
    assert bodies[..k + 1][..k] == bodies[..k];
  }

  /** The frames of the bodies, back to back. */
  function Frames(bodies: seq<ByteArray>): seq<byte>
    decreases |bodies|
  {
    if bodies == [] then [] else Frames(bodies[..|bodies| - 1]) + Frame(bodies[|bodies| - 1])
  }

  /** On a connected pipe whose writes all go through, every frame is written whole, in order. */
  lemma {:induction false} FramesWriteClean(faults: seq<Option<Exception>>, bodies: seq<ByteArray>)
    requires NoFaults(faults)
    ensures FramesWrite(true, faults, bodies).appended == Frames(bodies)
    ensures NoFaults(FramesWrite(true, faults, bodies).faultsAfter)
    decreases |bodies|
  {
    if bodies != [] {
      var init := bodies[..|bodies| - 1];
      FramesWriteClean(faults, init);
      FrameWriteClean(FramesWrite(true, faults, init).faultsAfter, bodies[|bodies| - 1]);
    }
  }

  class PipeStream {
    var incoming: Incoming
    var written: seq<byte>
    var writeFaults: seq<Option<Exception>>

    constructor (script: seq<ReadOutcome>, connected: bool, writeFaults: seq<Option<Exception>>)
      ensures incoming == Incoming(script, connected)
      ensures written == [] && this.writeFaults == writeFaults
    {
      incoming := Incoming(script, connected);
      written := [];
      this.writeFaults := writeFaults;
    }

    function IsConnected(): bool
      reads this
    {
      incoming.connected
    }

    /** ReadAsync(buffer, offset, count): the bytes delivered land at buffer[offset..]. */
    method ReadAsync(buffer: array<byte>, offset: nat, count: nat) returns (n: nat, fault: Option<Exception>)
      requires offset + count <= buffer.Length
      modifies this, buffer
      ensures var step := NextRead(old(incoming), count);
        n == |step.got| && fault == step.fault && incoming == step.after
        && buffer[..] == old(buffer[..offset]) + step.got + old(buffer[offset + n..])
      ensures written == old(written) && writeFaults == old(writeFaults)
    {
      var step := NextRead(incoming, count);
      n := |step.got|;
      fault := step.fault;
      forall i | 0 <= i < n {
        buffer[offset + i] := step.got[i];
      }
      incoming := step.after;
    }

    /** WriteAsync(bytes, 0, bytes.Length) (and the FlushAsync after it, which changes nothing). */
    method WriteAsync(bytes: seq<byte>) returns (fault: Option<Exception>)
      modifies this
      ensures var w := NextWrite(old(incoming.connected), old(writeFaults), bytes);
        fault == w.fault && written == old(written) + w.appended && writeFaults == w.faultsAfter
      ensures incoming == old(incoming)
    {
      var w := NextWrite(incoming.connected, writeFaults, bytes);
      written := written + w.appended;
      writeFaults := w.faultsAfter;
      fault := w.fault;
    }

    /** The frame write of SendInternal: prefix, then body unless the prefix write threw. */
    method WriteFrame(body: ByteArray)
      modifies this
      ensures var w := FrameWrite(old(incoming.connected), old(writeFaults), body);
        written == old(written) + w.appended && writeFaults == w.faultsAfter
      ensures incoming == old(incoming)
    {
      Int32RoundTrip(|body|);
      var fault := WriteAsync(Int32ToBytes(|body|));
      if fault.None? {
        fault := WriteAsync(body);
      }
    }

    /**
     * Lines 231-242 of ConnectionBase.cs: the length prefix, a zeroed buffer of that length
     * (`new byte[n]` throws for a negative n and for one above Array.MaxLength), then the
     * body loop.
     */
    method ReadFrame() returns (outcome: FrameOutcome)
      modifies this
      ensures ReadFrameAsWritten(old(incoming)) == FrameRead(outcome, incoming)
      ensures written == old(written) && writeFaults == old(writeFaults)
    {
      var fault, messageSize := ReadPrefix();
      if fault.Some? {
        return FrameFault(fault.value);
      }
      if messageSize < 0 {
        return FrameFault(Overflow);
      }
      if messageSize > MaxArrayLength {
        return FrameFault(OutOfMemory);
      }
      var buffer := new byte[messageSize](_ => 0);
      assert buffer[..] == Zeros(messageSize);
      outcome := ReadBody(buffer);
    }

    /** Lines 231-233: one read of up to 4 bytes into a zeroed buffer, taken as the length. */
    method ReadPrefix() returns (fault: Option<Exception>, messageSize: int)
      modifies this
      ensures var p := NextRead(old(incoming), PrefixLength);
        incoming == p.after && fault == p.fault
        && (fault.None? ==> messageSize == BytesToInt32(p.got + Zeros(PrefixLength - |p.got|)))
      ensures written == old(written) && writeFaults == old(writeFaults)
    {
      var sizeBuffer := new byte[PrefixLength](_ => 0);
      var n;
      n, fault := ReadAsync(sizeBuffer, 0, PrefixLength);
      ghost var p := NextRead(old(incoming), PrefixLength);
      messageSize := 0;
      if fault.None? {
        assert sizeBuffer[..] == p.got + Zeros(PrefixLength - |p.got|);
        messageSize := BytesToInt32(sizeBuffer[..]);
      }
    }

    /** One pass of the body loop: a read of up to buffer.Length bytes into offset 0. */
    method BodyPass(buffer: array<byte>, bytesRead: nat) returns (got: nat, fault: Option<Exception>)
      requires bytesRead < buffer.Length <= MaxArrayLength && incoming.script != []
      modifies this, buffer
      ensures fault.Some? ==>
        BodyLoop(old(incoming), buffer.Length, old(buffer[..]), bytesRead) == FrameRead(FrameFault(fault.value), incoming)
      ensures fault.None? ==>
        BodyLoop(old(incoming), buffer.Length, old(buffer[..]), bytesRead)
        == BodyLoop(incoming, buffer.Length, buffer[..], bytesRead + got)
      ensures Weight(incoming.script) < Weight(old(incoming.script))
      ensures written == old(written) && writeFaults == old(writeFaults)
    {
      ghost var before := buffer[..];
      ghost var step := NextRead(incoming, buffer.Length);
      BodyLoopStep(incoming, buffer.Length, before, bytesRead);
      got, fault := ReadAsync(buffer, 0, buffer.Length);
      assert before[..0] + step.got == step.got;
      assert buffer[..] == step.got + before[got..];
    }

    /**
     * Lines 237-242 as written: every pass reads up to buffer.Length bytes into offset 0 and
     * adds the count. When the pipe has nothing more to deliver and the body is not complete,
     * every further read returns 0 and the loop would run for ever; the method reports Spins
     * there instead.
     */
    method ReadBody(buffer: array<byte>) returns (outcome: FrameOutcome)
      requires buffer.Length <= MaxArrayLength
      modifies this, buffer
      ensures BodyLoop(old(incoming), buffer.Length, old(buffer[..]), 0) == FrameRead(outcome, incoming)
      ensures written == old(written) && writeFaults == old(writeFaults)
    {
      var bytesRead := 0;
      ghost var target := BodyLoop(incoming, buffer.Length, buffer[..], 0);
      while bytesRead < buffer.Length
        invariant 0 <= bytesRead
        invariant BodyLoop(incoming, buffer.Length, buffer[..], bytesRead) == target
        invariant written == old(written) && writeFaults == old(writeFaults)
        decreases Weight(incoming.script)
      {
        if incoming.script == [] {
          return Spins;
        }
        var got, f := BodyPass(buffer, bytesRead);
        if f.Some? {
          return FrameFault(f.value);
        }
        ghost var now := buffer[..];
        assert BodyLoop(incoming, buffer.Length, now, bytesRead + got) == target;
        bytesRead := bytesRead + got;
      }
      return Body(buffer[..]);
    }
  }
}
