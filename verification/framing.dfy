/**
 * The wire frame: a 4-byte length (BitConverter on a little-endian host) and then the
 * serialised envelope; and how the read loop takes frames off the pipe, as written and as
 * evidently intended.
 */
module Framing {
  import opened Types

  const PrefixLength: nat := 4

  predicate IsInt32(n: int)
  {
    -0x8000_0000 <= n < 0x8000_0000
  }

  /** BitConverter.GetBytes(int): two's complement, least significant byte first. */
  function Int32ToBytes(n: int): (b: seq<byte>)
    requires IsInt32(n)
    ensures |b| == PrefixLength
  {
    var u := if n < 0 then n + 0x1_0000_0000 else n;
    var q1 := u / 256;
    var q2 := q1 / 256;
    var q3 := q2 / 256;
    [(u % 256) as byte, (q1 % 256) as byte, (q2 % 256) as byte, q3 as byte]
  }

  /** BitConverter.ToInt32(b, 0). */
  function BytesToInt32(b: seq<byte>): (n: int)
    requires |b| == PrefixLength
    ensures IsInt32(n)
  {
    var u := b[0] as int + 256 * (b[1] as int + 256 * (b[2] as int + 256 * b[3] as int));
    if u >= 0x8000_0000 then u - 0x1_0000_0000 else u
  }

  /** One base-256 digit: the low byte and the rest of a number. */
  lemma Digit(x: int, low: int)
    requires 0 <= low < 256 && 0 <= x
    ensures (low + 256 * x) / 256 == x && (low + 256 * x) % 256 == low
  {
  }

  /** ToInt32 undoes GetBytes. */
  lemma Int32RoundTrip(n: int)
    requires IsInt32(n)
    ensures BytesToInt32(Int32ToBytes(n)) == n
  {
    var u := if n < 0 then n + 0x1_0000_0000 else n;
    var q1 := u / 256;
    var q2 := q1 / 256;
    var q3 := q2 / 256;
    assert u == u % 256 + 256 * q1;
    assert q1 == q1 % 256 + 256 * q2;
    assert q2 == q2 % 256 + 256 * q3;
    assert q1 < 0x100_0000 && q2 < 0x1_0000 && q3 < 256;
    var b := Int32ToBytes(n);
    assert b[0] as int + 256 * (b[1] as int + 256 * (b[2] as int + 256 * b[3] as int)) == u;
  }

  /** GetBytes undoes ToInt32: every 4-byte prefix stands for exactly one length. */
  lemma BytesRoundTrip(b: seq<byte>)
    requires |b| == PrefixLength
    ensures Int32ToBytes(BytesToInt32(b)) == b
  {
    var c2 := b[2] as int + 256 * b[3] as int;
    var c1 := b[1] as int + 256 * c2;
    var u := b[0] as int + 256 * c1;
    Digit(c1, b[0] as int);
    Digit(c2, b[1] as int);
    Digit(b[3] as int, b[2] as int);
    var r := Int32ToBytes(BytesToInt32(b));
    assert r[0] == b[0] && r[1] == b[1] && r[2] == b[2] && r[3] == b[3];
  }

  /** The bytes SendInternal writes for a serialised envelope: its length, then the envelope. */
  function Frame(body: ByteArray): (f: seq<byte>)
    ensures |f| == PrefixLength + |body| && f[PrefixLength..] == body
    ensures BytesToInt32(f[..PrefixLength]) == |body|
  {
    Int32RoundTrip(|body|);
    var f := Int32ToBytes(|body|) + body;
    assert f[..PrefixLength] == Int32ToBytes(|body|);
    f
  }

  function Zeros(n: nat): (z: seq<byte>)
    ensures |z| == n && forall i | 0 <= i < n :: z[i] == 0
  {
    seq(n, _ => 0)
  }

  /** What one ReadAsync call on the pipe delivers: some bytes, or an exception. */
  datatype ReadOutcome = Data(bytes: seq<byte>) | Fault(e: Exception)

  /**
   * The reading side of a pipe: the results its coming reads will deliver, in order, and
   * IsConnected. Once the script is used up the peer has closed: every read returns 0.
   */
  datatype Incoming = Incoming(script: seq<ReadOutcome>, connected: bool)

  /** All the bytes the script still holds, in order. */
  function Bytes(script: seq<ReadOutcome>): seq<byte>
  {
    if script == [] then []
    else (if script[0].Data? then script[0].bytes else []) + Bytes(script[1..])
  }

  /** A measure that every read that consumes something makes smaller. */
  function Weight(script: seq<ReadOutcome>): nat
  {
    |script| + |Bytes(script)|
  }

  /** A well-behaved pipe: no faults, and no read returns 0 before the peer closes. */
  predicate AllData(script: seq<ReadOutcome>)
  {
    forall i | 0 <= i < |script| :: script[i].Data? && script[i].bytes != []
  }

  lemma BytesCons(x: ReadOutcome, rest: seq<ReadOutcome>)
    ensures Bytes([x] + rest) == (if x.Data? then x.bytes else []) + Bytes(rest)
  {
    assert ([x] + rest)[1..] == rest;
  }

  datatype ReadStep = ReadStep(got: seq<byte>, fault: Option<Exception>, after: Incoming)

  /** PipeStream.ReadAsync(buffer, offset, count): at most count bytes, taken from the front. */
  function NextRead(s: Incoming, count: nat): (r: ReadStep)
    ensures |r.got| <= count
    ensures r.fault.Some? ==> r.got == []
    ensures Bytes(s.script) == r.got + Bytes(r.after.script)
    ensures r.after.connected == (s.connected && (count == 0 || s.script != []))
    ensures count > 0 && s.script != [] ==> Weight(r.after.script) < Weight(s.script)
    ensures count == 0 || s.script == [] ==> r.after.script == s.script && r.got == [] && r.fault.None?
    ensures AllData(s.script) && count > 0 && s.script != [] ==> r.got != [] && r.fault.None?
    ensures AllData(s.script) ==> AllData(r.after.script)
  {
    if count == 0 then ReadStep([], None, s)
    else if s.script == [] then ReadStep([], None, Incoming([], false))
    else
      var rest := s.script[1..];
      assert s.script == [s.script[0]] + rest;
      BytesCons(s.script[0], rest);
      match s.script[0]
      case Fault(e) => ReadStep([], Some(e), s.(script := rest))
      case Data(d) =>
        if |d| <= count then ReadStep(d, None, s.(script := rest))
        else
          BytesCons(Data(d[count..]), rest);
          assert d == d[..count] + d[count..];
          ReadStep(d[..count], None, s.(script := [Data(d[count..])] + rest))
  }

  /** How reading one frame ended. */
  datatype FrameOutcome =
    | Body(bytes: ByteArray)      // the body bytes handed to the deserialiser
    | FrameFault(e: Exception)    // a read threw, or the length was negative
    | PeerClosed                  // a read returned 0 before the frame was complete
    | Spins                       // the loop never ends: every further read returns 0

  datatype FrameRead = FrameRead(outcome: FrameOutcome, after: Incoming)

  /**
   * ConnectionBase.cs lines 237-242 as written: every pass reads up to `size` bytes into
   * offset 0 and adds the count, until the sum reaches size.
   */
  function BodyLoop(s: Incoming, size: nat, buffer: seq<byte>, bytesRead: int): (r: FrameRead)
    requires |buffer| == size <= MaxArrayLength && bytesRead >= 0
    ensures r.outcome.Body? ==> |r.outcome.bytes| == size
    ensures r.outcome.Spins? ==> r.after.script == []
    ensures !r.outcome.PeerClosed?
    ensures Weight(r.after.script) <= Weight(s.script) && (r.after.connected ==> s.connected)
    decreases Weight(s.script)
  {
    if bytesRead >= size then FrameRead(Body(buffer), s)
    else if s.script == [] then FrameRead(Spins, s)
    else
      var r := NextRead(s, size);
      if r.fault.Some? then FrameRead(FrameFault(r.fault.value), r.after)
      else BodyLoop(r.after, size, r.got + buffer[|r.got|..], bytesRead + |r.got|)
  }

  /**
   * On a well-behaved pipe the body loop spins exactly when the bytes still to come cannot
   * make up the count, and otherwise fills the buffer.
   */
  lemma {:induction false} BodyLoopOnCleanPipe(s: Incoming, size: nat, buffer: seq<byte>, bytesRead: int)
    requires |buffer| == size <= MaxArrayLength && bytesRead >= 0 && AllData(s.script)
    ensures var r := BodyLoop(s, size, buffer, bytesRead);
      (r.outcome.Spins? <==> bytesRead + |Bytes(s.script)| < size)
      && (r.outcome.Body? <==> bytesRead + |Bytes(s.script)| >= size)
    decreases Weight(s.script)
  {
    if bytesRead < size && s.script != [] {
      var r := NextRead(s, size);
      BodyLoopOnCleanPipe(r.after, size, r.got + buffer[|r.got|..], bytesRead + |r.got|);
    }
  }

  /** One pass of the body loop that does not throw. */
  lemma BodyLoopStep(s: Incoming, size: nat, buffer: seq<byte>, bytesRead: int)
    requires |buffer| == size <= MaxArrayLength && 0 <= bytesRead < size && s.script != []
    ensures var r := NextRead(s, size);
      r.fault.None? ==>
        BodyLoop(s, size, buffer, bytesRead) == BodyLoop(r.after, size, r.got + buffer[|r.got|..], bytesRead + |r.got|)
  {
  }

  /**
   * Reading a frame never reconnects the pipe, and either takes something off the pipe or
   * finds it closed.
   */
  predicate Progress(s: Incoming, t: Incoming)
  {
    (t.connected ==> s.connected)
    && (if s.script == [] then !t.connected else Weight(t.script) < Weight(s.script))
  }

  /**
   * Lines 231-242 as written: one read of up to 4 bytes into a zeroed buffer, whatever it
   * returned, then the body loop. `new byte[n]` throws for a negative length and for one
   * above Array.MaxLength.
   */
  function ReadFrameAsWritten(s: Incoming): (r: FrameRead)
    ensures r.outcome.Body? ==> |r.outcome.bytes| <= MaxArrayLength
    ensures !r.outcome.PeerClosed?
    ensures Progress(s, r.after)
  {
    var p := NextRead(s, PrefixLength);
    if p.fault.Some? then FrameRead(FrameFault(p.fault.value), p.after)
    else
      var size := BytesToInt32(p.got + Zeros(PrefixLength - |p.got|));
      if size < 0 then FrameRead(FrameFault(Overflow), p.after)
      else if size > MaxArrayLength then FrameRead(FrameFault(OutOfMemory), p.after)
      else BodyLoop(p.after, size, Zeros(size), 0)
  }

  /** A frame that arrives in one read (or a larger one) is read back as written. */
  lemma AsWrittenReadsWholeFrame(body: ByteArray, more: seq<byte>, tail: seq<ReadOutcome>,
                                 connected: bool)
    ensures var r := ReadFrameAsWritten(Incoming([Data(Frame(body) + more)] + tail, connected));
      r.outcome == Body(body)
      && r.after.script == (if more == [] then tail else [Data(more)] + tail)
  {
    var f := Frame(body) + more;
    var s := Incoming([Data(f)] + tail, connected);
    assert s.script[0] == Data(f) && s.script[1..] == tail;
    var p := NextRead(s, PrefixLength);
    assert f[..PrefixLength] == Frame(body)[..PrefixLength];
    assert p.got == f[..PrefixLength] && p.fault.None?;
    assert p.got + Zeros(0) == p.got;
    var size := |body|;
    assert BytesToInt32(p.got + Zeros(PrefixLength - |p.got|)) == size;
    var rest := f[PrefixLength..];
    assert rest == body + more;
    if size == 0 {
      assert body == [] && Zeros(0) == body;
      if more == [] {
        assert |f| == PrefixLength && p.after.script == tail;
      } else {
        assert p.after.script == [Data(more)] + tail;
      }
    } else {
      assert p.after.script == [Data(rest)] + tail;
      var q := NextRead(p.after, size);
      assert p.after.script[0] == Data(rest) && p.after.script[1..] == tail;
      assert rest[..size] == body;
      assert q.got == body && q.fault.None?;
      assert q.got + Zeros(size)[|q.got|..] == body;
      if more == [] {
        assert rest == body && q.after.script == tail;
      } else {
        assert rest[size..] == more;
        assert q.after.script == [Data(more)] + tail;
      }
      assert BodyLoop(q.after, size, body, size) == FrameRead(Body(body), q.after);
    }
  }

  /**
   * Line 232 keeps only what the first read returned: a prefix split over two reads is
   * taken with zeros for its missing bytes. Here a 256-byte frame whose first read delivers
   * one byte is read as a frame of length 0.
   */
  lemma PrefixShortReadMisparses()
    ensures var body := Zeros(256);
      var s := Incoming([Data(Frame(body)[..1]), Data(Frame(body)[1..])], true);
      ReadFrameAsWritten(s).outcome == Body([]) && ReadFrameCorrected(s).outcome == Body(body)
  {
    var body := Zeros(256);
    var f := Frame(body);
    assert f[..PrefixLength] == [0, 1, 0, 0];
    var s := Incoming([Data(f[..1]), Data(f[1..])], true);
    var p := NextRead(s, PrefixLength);
    assert s.script[1..] == [Data(f[1..])];
    assert p.got == [0] && p.fault.None? && p.after.script == [Data(f[1..])];
    assert p.got + Zeros(3) == [0, 0, 0, 0];
    assert ReadFrameAsWritten(s).outcome == Body(Zeros(0));
    assert Zeros(0) == [];
    assert Bytes(s.script) == f + [] by {
      BytesCons(Data(f[1..]), []);
      BytesCons(Data(f[..1]), [Data(f[1..])]);
      assert s.script == [Data(f[..1])] + [Data(f[1..])];
      assert f[..1] + f[1..] == f;
    }
    CorrectedFrameRoundTrip(body, [], s);
  }

  /**
   * Lines 239-242 read every pass into offset 0: a body that arrives in two reads is
   * overwritten by the second one.
   */
  lemma PartialBodyReadCorrupts()
    ensures var s := Incoming([Data(Int32ToBytes(2)), Data([10]), Data([20])], true);
      ReadFrameAsWritten(s).outcome == Body([20, 0])
      && ReadFrameCorrected(s).outcome == Body([10, 20])
  {
    var s := Incoming([Data(Int32ToBytes(2)), Data([10]), Data([20])], true);
    Int32RoundTrip(2);
    var p := NextRead(s, PrefixLength);
    assert p.got == Int32ToBytes(2) && p.after.script == [Data([10]), Data([20])];
    assert p.got + Zeros(0) == p.got;
    var q := NextRead(p.after, 2);
    assert q.got == [10] && q.after.script == [Data([20])];
    assert [10] + Zeros(2)[1..] == [10, 0];
    var t := NextRead(q.after, 2);
    assert t.got == [20] && t.after.script == [];
    assert [20] + [10, 0][1..] == [20, 0];
    assert ReadFrameAsWritten(s).outcome == Body([20, 0]);
    var body: ByteArray := [10, 20];
    assert Frame(body) == Int32ToBytes(2) + [10, 20];
    assert Bytes(s.script) == Frame(body) + [] by {
      BytesCons(Data([20]), []);
      BytesCons(Data([10]), [Data([20])]);
      BytesCons(Data(Int32ToBytes(2)), [Data([10]), Data([20])]);
      assert s.script == [Data(Int32ToBytes(2))] + [Data([10]), Data([20])];
      assert [Data([10]), Data([20])] == [Data([10])] + [Data([20])];
    }
    CorrectedFrameRoundTrip(body, [], s);
  }

  /**
   * Lines 239-242 never look at the read count: if the peer closes in the middle of a body,
   * every further read returns 0 and the loop spins for ever, so ReadingEnded never fires.
   */
  lemma TruncatedFrameSpins()
    ensures var s := Incoming([Data(Int32ToBytes(2)), Data([10])], true);
      ReadFrameAsWritten(s).outcome == Spins && ReadFrameCorrected(s).outcome == PeerClosed
  {
    var s := Incoming([Data(Int32ToBytes(2)), Data([10])], true);
    Int32RoundTrip(2);
    var p := NextRead(s, PrefixLength);
    assert p.got == Int32ToBytes(2) && p.after.script == [Data([10])];
    assert p.got + Zeros(0) == p.got;
    var q := NextRead(p.after, 2);
    assert q.got == [10] && q.after.script == [];
    assert ReadFrameAsWritten(s).outcome == Spins;
    var body: ByteArray := [10, 20];
    assert Bytes(s.script) == Frame(body)[..PrefixLength + 1] by {
      BytesCons(Data([10]), []);
      BytesCons(Data(Int32ToBytes(2)), [Data([10])]);
      assert s.script == [Data(Int32ToBytes(2))] + [Data([10])];
    }
    CorrectedFrameDetectsTruncation(body, s);
  }

  /** The result of reading an exact number of bytes. */
  datatype Exact = Exact(got: seq<byte>, fault: Option<Exception>, closed: bool, after: Incoming)

  /**
   * Reading exactly `count` bytes: each read appends at offset |got| and asks only for what
   * is missing; a read that returns 0 means the peer has closed.
   */
  function ReadExactly(s: Incoming, count: nat, got: seq<byte>): (r: Exact)
    requires |got| <= count
    ensures r.fault.None? && !r.closed ==> |r.got| == count
    decreases Weight(s.script)
  {
    if |got| == count then Exact(got, None, false, s)
    else
      var r := NextRead(s, count - |got|);
      if r.fault.Some? then Exact(got, r.fault, false, r.after)
      else if r.got == [] then Exact(got, None, true, r.after)
      else ReadExactly(r.after, count, got + r.got)
  }

  /** On a well-behaved pipe that holds enough bytes, ReadExactly takes exactly those needed. */
  lemma {:induction false} ReadExactlyDelivers(s: Incoming, count: nat, got: seq<byte>)
    requires |got| <= count && AllData(s.script)
    requires count - |got| <= |Bytes(s.script)|
    ensures var r := ReadExactly(s, count, got);
      r.fault.None? && !r.closed
      && r.got == got + Bytes(s.script)[..count - |got|]
      && Bytes(r.after.script) == Bytes(s.script)[count - |got|..]
      && AllData(r.after.script) && r.after.connected == s.connected
    decreases Weight(s.script)
  {
    if |got| < count {
      var r := NextRead(s, count - |got|);
      assert s.script != [];
      ReadExactlyDelivers(r.after, count, got + r.got);
      var rest := Bytes(r.after.script);
      var k' := count - |got + r.got|;
      SplitAt(r.got, rest, count - |got|);
      AppendAssociates(got, r.got, rest[..k']);
    } else {
      assert got + Bytes(s.script)[..0] == got && Bytes(s.script)[0..] == Bytes(s.script);
    }
  }

  lemma AppendAssociates(a: seq<byte>, b: seq<byte>, c: seq<byte>)
    ensures a + b + c == a + (b + c)
  {
  }

  /** Cutting a + b at k, past the end of a, cuts b at k - |a|. */
  lemma SplitAt(a: seq<byte>, b: seq<byte>, k: nat)
    requires |a| <= k <= |a| + |b|
    ensures (a + b)[..k] == a + b[..k - |a|] && (a + b)[k..] == b[k - |a|..]
  {
  }

  /** On a well-behaved pipe that closes too early, ReadExactly reports the close. */
  lemma {:induction false} ReadExactlyReportsClose(s: Incoming, count: nat, got: seq<byte>)
    requires |got| <= count && AllData(s.script)
    requires |Bytes(s.script)| < count - |got|
    ensures var r := ReadExactly(s, count, got);
      r.fault.None? && r.closed && r.got == got + Bytes(s.script)
    decreases Weight(s.script)
  {
    var r := NextRead(s, count - |got|);
    if s.script != [] {
      ReadExactlyReportsClose(r.after, count, got + r.got);
    }
  }

  /**
   * The body read as evidently intended: read the prefix exactly, then exactly that many
   * body bytes; a short read at either point is the peer closing.
   */
  function ReadFrameCorrected(s: Incoming): (r: FrameRead)
    ensures r.outcome.Body? ==> |r.outcome.bytes| <= MaxArrayLength
    ensures !r.outcome.Spins?
  {
    var p := ReadExactly(s, PrefixLength, []);
    if p.fault.Some? then FrameRead(FrameFault(p.fault.value), p.after)
    else if p.closed then FrameRead(PeerClosed, p.after)
    else
      var size := BytesToInt32(p.got);
      if size < 0 then FrameRead(FrameFault(Overflow), p.after)
      else if size > MaxArrayLength then FrameRead(FrameFault(OutOfMemory), p.after)
      else
        var b := ReadExactly(p.after, size, []);
        if b.fault.Some? then FrameRead(FrameFault(b.fault.value), b.after)
        else if b.closed then FrameRead(PeerClosed, b.after)
        else FrameRead(Body(b.got), b.after)
  }

  /**
   * Frames round-trip however the pipe splits them into reads: the corrected reader takes
   * back exactly the body that was framed and leaves what follows for the next frame.
   */
  lemma CorrectedFrameRoundTrip(body: ByteArray, more: seq<byte>, s: Incoming)
    requires AllData(s.script) && Bytes(s.script) == Frame(body) + more
    ensures var r := ReadFrameCorrected(s);
      r.outcome == Body(body) && Bytes(r.after.script) == more && AllData(r.after.script)
      && r.after.connected == s.connected
  {
    var prefix := Frame(body)[..PrefixLength];
    assert Frame(body) == prefix + body;
    assert Frame(body) + more == prefix + (body + more);
    ReadExactlyDelivers(s, PrefixLength, []);
    var p := ReadExactly(s, PrefixLength, []);
    SplitAt(prefix, body + more, PrefixLength);
    assert p.got == prefix;
    ReadExactlyDelivers(p.after, |body|, []);
    SplitAt(body, more, |body|);
  }

  /** A frame cut short by the peer closing is reported as closed, and the reader returns. */
  lemma CorrectedFrameDetectsTruncation(body: ByteArray, s: Incoming)
    requires AllData(s.script)
    requires |Bytes(s.script)| < |Frame(body)| && Bytes(s.script) == Frame(body)[..|Bytes(s.script)|]
    ensures ReadFrameCorrected(s).outcome == PeerClosed
  {
    var f := Frame(body);
    var n := |Bytes(s.script)|;
    if n < PrefixLength {
      ReadExactlyReportsClose(s, PrefixLength, []);
    } else {
      ReadExactlyDelivers(s, PrefixLength, []);
      var p := ReadExactly(s, PrefixLength, []);
      assert p.got == Bytes(s.script)[..PrefixLength] == f[..PrefixLength];
      assert BytesToInt32(p.got) == |body|;
      assert |Bytes(p.after.script)| == n - PrefixLength < |body|;
      ReadExactlyReportsClose(p.after, |body|, []);
    }
  }
}
