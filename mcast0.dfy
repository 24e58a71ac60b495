/** The guest side of the frame protocol: the mcast0 kernel module's
    transmit path, which prefixes every outgoing frame with its 2-byte
    length, and its receive thread, which takes each TCP read as exactly
    one length-prefixed frame and injects it into the network stack. */
module Mcast0 {
  import opened Wire

  /** Capacity of the receive thread's buffer `buf`: no read returns more. */
  const RX_BUFFER_SIZE: nat := 2048
  /** Length of the frame-length prefix (`sizeof(unsigned short)`). */
  const PREFIX_LEN: nat := 2
  /** Largest frame that fits, together with its prefix, in one read. */
  const MAX_SINGLE_READ_FRAME: nat := RX_BUFFER_SIZE - PREFIX_LEN
  /** Linux errno for an interrupted call; a read returns its negation. */
  const EINTR: int := 4
  /** Pause, in milliseconds, after a read error other than `-EINTR`. */
  const ERROR_BACKOFF_MS: nat := 100

  /** The bytes of one Ethernet frame (an skb's data). */
  type Frame = seq<Byte>

  // ---------------------------------------------------------------------
  // Transmit path

  /** The single gathered message the transmit path hands to the socket:
      the frame length truncated to `unsigned short`, in native
      (little-endian) order, followed by the frame bytes. */
  function Encode(frame: Frame): (msg: seq<Byte>)
    ensures |msg| == PREFIX_LEN + |frame|
    ensures LeU16(msg[0], msg[1]) == |frame| % U16_MODULUS
    ensures msg[PREFIX_LEN..] == frame
  {
    U16Le(|frame| % U16_MODULUS) + frame
  }

  // ---------------------------------------------------------------------
  // Per-read decoding

  /** The length a read declares in its first two bytes. */
  function DeclaredLength(data: seq<Byte>): (framelen: nat)
    requires |data| >= PREFIX_LEN
    ensures framelen < U16_MODULUS
  {
    LeU16(data[0], data[1])
  }

  /** A read is accepted when it is longer than the prefix and declares a
      non-zero length that the bytes after the prefix cover. */
  predicate Accepts(data: seq<Byte>)
    ensures Accepts(data) ==> |data| > PREFIX_LEN && PREFIX_LEN < PREFIX_LEN + DeclaredLength(data) <= |data|
  {
    |data| > PREFIX_LEN && 0 < DeclaredLength(data) <= |data| - PREFIX_LEN
  }

  /** The frame the receive thread injects for one read of `data`, or None
      when it silently drops the read. Only the declared number of bytes
      after the prefix are taken; everything else in the read is ignored. */
  function Decode(data: seq<Byte>): (r: Option<Frame>)
    ensures |data| <= PREFIX_LEN ==> r.None?
    ensures r.Some? <==> Accepts(data)
    ensures r.Some? ==> |r.value| == DeclaredLength(data) > 0
    ensures r.Some? ==> r.value == data[PREFIX_LEN..PREFIX_LEN + DeclaredLength(data)]
  {
    if |data| > PREFIX_LEN then
      var framelen := DeclaredLength(data);
      if 0 < framelen <= |data| - PREFIX_LEN then
        Some(data[PREFIX_LEN..PREFIX_LEN + framelen])
      else
        None
    else
      None
  }

  /** Round trip: every frame of 1 to 2046 bytes that reaches the receive
      thread as one whole read comes out unchanged. */
  lemma RoundTrip(frame: Frame)
    requires 1 <= |frame| <= MAX_SINGLE_READ_FRAME
    ensures |Encode(frame)| <= RX_BUFFER_SIZE
    ensures Decode(Encode(frame)) == Some(frame)
  {
    var msg := Encode(frame);
    assert DeclaredLength(msg) == |frame|;
    assert msg[PREFIX_LEN..PREFIX_LEN + |frame|] == msg[PREFIX_LEN..];
  }

  /** An empty frame is sent as a bare prefix, which the decoder drops. */
  lemma EmptyFrameDropped()
    ensures Encode([]) == [0, 0]
    ensures Decode(Encode([])) == None
  {
  }

  /** Bytes after an accepted frame in the same read change nothing:
      they are neither injected nor parsed as a further frame. */
  lemma {:induction false} TrailingBytesIgnored(data: seq<Byte>, extra: seq<Byte>)
    requires Accepts(data)
    ensures Decode(data + extra) == Decode(data)
  {
    var whole := data + extra;
    assert whole[0] == data[0] && whole[1] == data[1];
    var framelen := DeclaredLength(data);
    assert whole[PREFIX_LEN..PREFIX_LEN + framelen] == data[PREFIX_LEN..PREFIX_LEN + framelen];
  }

  /** Two frames coalesced into one read, the first of 1 to 65535 bytes:
      only the first is injected. */
  lemma CoalescedReadLosesSecond(first: Frame, second: Frame)
    requires 1 <= |first| < U16_MODULUS
    ensures Decode(Encode(first) + Encode(second)) == Some(first)
  {
    var msg := Encode(first);
    assert DeclaredLength(msg) == |first|;
    assert Accepts(msg);
    TrailingBytesIgnored(msg, Encode(second));
    assert msg[PREFIX_LEN..PREFIX_LEN + |first|] == first;
  }

  /** An empty frame coalesced with the next message in one read declares
      length 0, so the whole read, next frame included, is dropped. */
  lemma CoalescedAfterEmptyDropped(second: Frame)
    ensures Decode(Encode([]) + Encode(second)) == None
  {
    var data := Encode([]) + Encode(second);
    assert data[0] == 0 && data[1] == 0;
  }

  /** A frame below 65536 bytes split across reads: a read holding only
      the first part of its message is dropped. */
  lemma SplitReadDropped(frame: Frame, k: nat)
    requires |frame| < U16_MODULUS
    requires k < |Encode(frame)|
    ensures Decode(Encode(frame)[..k]) == None
  {
    var part := Encode(frame)[..k];
    if |part| > PREFIX_LEN {
      assert part[0] == Encode(frame)[0] && part[1] == Encode(frame)[1];
      assert DeclaredLength(part) == |frame|;
    }
  }

  /** A frame below 65536 bytes but too long for the buffer can never
      arrive whole: a read returns at most 2048 bytes, so any read of the
      start of its message is dropped. */
  lemma OversizeFrameNeverDelivered(frame: Frame, k: nat)
    requires MAX_SINGLE_READ_FRAME < |frame| < U16_MODULUS
    requires k <= RX_BUFFER_SIZE
    ensures Decode(Encode(frame)[..k]) == None
  {
    SplitReadDropped(frame, k);
  }

  /** A frame of 65536 bytes or more has its length truncated in the
      prefix: a read of the message start then injects a shorter frame. */
  lemma WrappedLengthMisframes(frame: Frame)
    requires U16_MODULUS <= |frame|
    requires 0 < |frame| % U16_MODULUS <= MAX_SINGLE_READ_FRAME
    ensures Decode(Encode(frame)[..RX_BUFFER_SIZE]) == Some(frame[..|frame| % U16_MODULUS])
  {
    var msg := Encode(frame);
    var part := msg[..RX_BUFFER_SIZE];
    var framelen := |frame| % U16_MODULUS;
    assert part[0] == msg[0] && part[1] == msg[1];
    assert DeclaredLength(part) == framelen;
    assert part[PREFIX_LEN..PREFIX_LEN + framelen] == msg[PREFIX_LEN..][..framelen];
  }

  // ---------------------------------------------------------------------
  // Receive thread

  /** What one blocking read into `buf` returns: the bytes received (a
      count of zero or more), or a negative errno. */
  datatype RecvResult = Received(bytes: seq<Byte>) | Failed(rc: int)

  /** What the socket layer guarantees of a read: no more bytes than the
      buffer holds, and a failure code that is negative. */
  predicate IsRecvResult(r: RecvResult)
  {
    match r
    case Received(bytes) => |bytes| <= RX_BUFFER_SIZE
    case Failed(rc) => rc < 0
  }

  /** What one loop iteration does with its read. */
  datatype RxEvent =
    | Injected(frame: Frame)   // an skb holding the frame went to the stack
    | Dropped                  // the read was not a well-formed frame
    | Retried                  // `-EINTR`: try again at once
    | BackedOff(ms: nat)       // any other error: pause, then try again

  /** The outcome of one iteration of the receive loop for read `r`. */
  function Step(r: RecvResult): (e: RxEvent)
    ensures r.Failed? && r.rc == -EINTR ==> e == Retried
    ensures r.Failed? && r.rc != -EINTR ==> e == BackedOff(ERROR_BACKOFF_MS)
    ensures r.Received? ==> (e.Injected? || e.Dropped?)
    ensures r.Received? ==> (e.Injected? <==> Accepts(r.bytes))
    ensures e.Injected? ==> r.Received? && Decode(r.bytes) == Some(e.frame)
  {
    match r
    case Failed(rc) => if rc == -EINTR then Retried else BackedOff(ERROR_BACKOFF_MS)
    case Received(bytes) =>
      match Decode(bytes)
      case Some(frame) => Injected(frame)
      case None => Dropped
  }

  /** The frames a read contributes to the stack: at most one. */
  function FramesOf(r: RecvResult): (frames: seq<Frame>)
    ensures |frames| <= 1
    ensures r.Failed? ==> frames == []
    ensures |frames| == 1 <==> Step(r).Injected?
    ensures |frames| == 1 ==> Decode(r.bytes) == Some(frames[0])
  {
    match Step(r)
    case Injected(frame) => [frame]
    case _ => []
  }

  /** The frames handed to the stack, in order, for a sequence of reads. */
  function Delivered(recvs: seq<RecvResult>): (frames: seq<Frame>)
    ensures |frames| <= |recvs|
  {
    if recvs == [] then [] else FramesOf(recvs[0]) + Delivered(recvs[1..])
  }

  lemma {:induction false} DeliveredAppend(a: seq<RecvResult>, b: seq<RecvResult>)
    ensures Delivered(a + b) == Delivered(a) + Delivered(b)
  {
    if a == [] {
      assert a + b == b;
    } else {
      assert (a + b)[1..] == a[1..] + b;
      DeliveredAppend(a[1..], b);
    }
  }

  /** One more read adds its frame, if any, after those already delivered. */
  lemma DeliveredSnoc(a: seq<RecvResult>, r: RecvResult)
    ensures Delivered(a + [r]) == Delivered(a) + FramesOf(r)
  {
    DeliveredAppend(a, [r]);
    assert [r][1..] == [];
  }

  /** Errors do not end the receive loop: a failed read, `-EINTR` or
      otherwise, contributes nothing and the reads after it are still
      processed. */
  lemma ErrorDoesNotStopLoop(before: seq<RecvResult>, rc: int, after: seq<RecvResult>)
    requires rc < 0
    ensures Delivered(before + [Failed(rc)] + after) == Delivered(before) + Delivered(after)
  {
    var failed := before + [Failed(rc)];
    DeliveredAppend(failed, after);
    DeliveredSnoc(before, Failed(rc));
    assert Delivered(failed) == Delivered(before);
  }

  /** Every delivered frame was decoded from one successful read. */
  lemma {:induction false} DeliveredFromReads(recvs: seq<RecvResult>, j: nat)
    requires j < |Delivered(recvs)|
    ensures exists i :: 0 <= i < |recvs| && recvs[i].Received? && Decode(recvs[i].bytes) == Some(Delivered(recvs)[j])
  {
    var head := FramesOf(recvs[0]);
    if j < |head| {
      assert Decode(recvs[0].bytes) == Some(Delivered(recvs)[j]);
    } else {
      DeliveredFromReads(recvs[1..], j - |head|);
      var i :| 0 <= i < |recvs[1..]| && recvs[1..][i].Received? && Decode(recvs[1..][i].bytes) == Some(Delivered(recvs[1..])[j - |head|]);
      assert recvs[i + 1] == recvs[1..][i];
    }
  }

  /** When each frame of 1 to 2046 bytes arrives as exactly one read, the
      stack receives exactly the frames that were sent, in order. */
  lemma {:induction false} OneReadPerFrameDelivers(frames: seq<Frame>, recvs: seq<RecvResult>)
    requires |recvs| == |frames|
    requires forall i :: 0 <= i < |frames| ==> 1 <= |frames[i]| <= MAX_SINGLE_READ_FRAME
    requires forall i :: 0 <= i < |frames| ==> recvs[i] == Received(Encode(frames[i]))
    ensures Delivered(recvs) == frames
  {
    if frames != [] {
      RoundTrip(frames[0]);
      OneReadPerFrameDelivers(frames[1..], recvs[1..]);
    }
  }

  /** The receive thread: one blocking read into the reused buffer per
      iteration until the thread is told to stop (here: when the reads run
      out). It yields, per read, the iteration's outcome, and the frames it
      copied into fresh skbs and handed to the stack. */
  method RxThread(recvs: seq<RecvResult>) returns (events: seq<RxEvent>, injected: seq<Frame>)
    requires forall i :: 0 <= i < |recvs| ==> IsRecvResult(recvs[i])
    ensures |events| == |recvs|
    ensures forall i :: 0 <= i < |recvs| ==> events[i] == Step(recvs[i])
    ensures injected == Delivered(recvs)
  {
    var buf := new Byte[RX_BUFFER_SIZE];
    events, injected := [], [];
    var i := 0;
    while i < |recvs|
      invariant 0 <= i <= |recvs|
      invariant |events| == i
      invariant forall k :: 0 <= k < i ==> events[k] == Step(recvs[k])
      invariant injected == Delivered(recvs[..i])
    {
      var event: RxEvent;
      match recvs[i] {
      case Failed(rc) =>
        if rc == -EINTR {
          event := Retried;
        } else {
          event := BackedOff(ERROR_BACKOFF_MS);
        }
      case Received(bytes) =>
        event := TakeFrame(buf, bytes);
      }
      DeliveredSnoc(recvs[..i], recvs[i]);
      assert recvs[..i + 1] == recvs[..i] + [recvs[i]];
      if event.Injected? {
        injected := injected + [event.frame];
      }
      events := events + [event];
      i := i + 1;
    }
    assert recvs[..i] == recvs;
  }

  /** One successful read: receive into the reused buffer, check the
      declared length against the bytes read, and copy an accepted frame
      out into a fresh skb. Only the bytes of this read decide the outcome,
      whatever an earlier read left in `buf`. */
  method TakeFrame(buf: array<Byte>, bytes: seq<Byte>) returns (event: RxEvent)
    requires |bytes| <= buf.Length
    modifies buf
    ensures buf[..|bytes|] == bytes && buf[|bytes|..] == old(buf[|bytes|..])
    ensures event == Step(Received(bytes))
  {
    var len := Receive(buf, bytes);
    event := Dropped;
    if len > PREFIX_LEN {
      var framelen := LeU16(buf[0], buf[1]);
      assert framelen == DeclaredLength(bytes);
      if framelen > 0 && framelen <= len - PREFIX_LEN {
        assert forall k :: 0 <= k < len ==> buf[k] == bytes[k] by {
          assert buf[..len] == bytes;
        }
        var frame := CopyOut(buf, PREFIX_LEN, framelen);
        assert frame == bytes[PREFIX_LEN..PREFIX_LEN + framelen];
        event := Injected(frame);
      }
    }
  }

  /** Copies `count` bytes of `buf` starting at `from` into a freshly
      allocated skb data area and returns its contents. */
  method CopyOut(buf: array<Byte>, from: nat, count: nat) returns (frame: Frame)
    requires from + count <= buf.Length
    ensures frame == buf[from..from + count]
  {
    var skb := new Byte[count];
    var k := 0;
    while k < count
      invariant 0 <= k <= count
      invariant forall m :: 0 <= m < k ==> skb[m] == buf[from + m]
    {
      skb[k] := buf[from + k];
      k := k + 1;
    }
    frame := skb[..];
  }
}
