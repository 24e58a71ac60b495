/** The two ends together: what the host service echoes back, read by the
    mcast0 receive thread. Both ends take one read as one frame, so these
    properties hold when each message arrives as exactly one read. */
module Link {
  import opened Wire
  import Mcast0
  import WslMcastSvc

  /** A receive holding a well-formed frame (a non-zero announced length
      that the received bytes cover) is echoed as exactly that frame with
      its header, and the kernel decoder accepts the echo and extracts the
      same frame it would have extracted from the original receive. */
  lemma WellFormedEchoAccepted(data: seq<Byte>)
    requires Mcast0.Accepts(data)
    ensures WslMcastSvc.Echo(data) == Some(data[..2 + Mcast0.DeclaredLength(data)])
    ensures Mcast0.Decode(data[..2 + Mcast0.DeclaredLength(data)]) == Mcast0.Decode(data)
    ensures Mcast0.Decode(data).Some?
  {
    var framelen := Mcast0.DeclaredLength(data);
    var echo := data[..2 + framelen];
    assert echo[0] == data[0] && echo[1] == data[1];
    Mcast0.TrailingBytesIgnored(echo, data[2 + framelen..]);
    assert echo + data[2 + framelen..] == data;
  }

  /** The kernel accepts an echo exactly when the receive it came from was
      well formed: an echo of a zero-length announcement is a bare header,
      and an echo of an over-long announcement is the whole short receive,
      both of which the decoder drops. */
  lemma {:induction false} EchoAcceptedIffWellFormed(data: seq<Byte>)
    requires |data| >= 2
    ensures WslMcastSvc.Echo(data).Some?
    ensures Mcast0.Accepts(WslMcastSvc.Echo(data).value) <==> Mcast0.Accepts(data)
  {
    var echo := WslMcastSvc.Echo(data).value;
    assert echo[0] == data[0] && echo[1] == data[1];
    if Mcast0.Accepts(data) {
      WellFormedEchoAccepted(data);
    } else if Mcast0.DeclaredLength(data) == 0 {
      assert !Mcast0.Accepts(echo);
    } else {
      assert echo == data;
    }
  }

  /** A frame of 1 to 2046 bytes sent by the transmit path and received
      whole by the host comes back unchanged, and the receive thread
      extracts the original frame from it. */
  lemma EchoReturnsFrame(frame: Mcast0.Frame)
    requires 1 <= |frame| <= Mcast0.MAX_SINGLE_READ_FRAME
    ensures WslMcastSvc.Echo(Mcast0.Encode(frame)) == Some(Mcast0.Encode(frame))
    ensures Mcast0.Decode(Mcast0.Encode(frame)) == Some(frame)
  {
    var msg := Mcast0.Encode(frame);
    Mcast0.RoundTrip(frame);
    assert msg[..2 + |frame|] == msg;
  }

  /** The host has the same one-read-one-frame limit as the kernel: when
      two messages arrive in one receive, only the first is echoed and the
      second is discarded. */
  lemma HostCoalescedEchoLosesSecond(first: Mcast0.Frame, second: Mcast0.Frame)
    requires 1 <= |first| < U16_MODULUS
    ensures WslMcastSvc.Echo(Mcast0.Encode(first) + Mcast0.Encode(second)) == Some(Mcast0.Encode(first))
  {
    var msg := Mcast0.Encode(first);
    var data := msg + Mcast0.Encode(second);
    assert Mcast0.DeclaredLength(msg) == |first| by {
      SmallLengthUnwrapped(|first|);
    }
    assert data[0] == msg[0] && data[1] == msg[1];
    WellFormedEchoAccepted(data);
    assert data[..2 + |first|] == msg;
  }

  /** A length below 65536 survives the truncation to 16 bits. */
  lemma SmallLengthUnwrapped(n: nat)
    requires n < U16_MODULUS
    ensures n % U16_MODULUS == n
  {
  }

  /** The messages the transmit path sends for `frames`. */
  function EncodeAll(frames: seq<Mcast0.Frame>): (msgs: seq<seq<Byte>>)
    ensures |msgs| == |frames|
    ensures forall i :: 0 <= i < |frames| ==> msgs[i] == Mcast0.Encode(frames[i])
  {
    if frames == [] then [] else [Mcast0.Encode(frames[0])] + EncodeAll(frames[1..])
  }

  /** The reads the receive thread sees when every echo arrives as one read. */
  function AsReads(msgs: seq<seq<Byte>>): (recvs: seq<Mcast0.RecvResult>)
    ensures |recvs| == |msgs|
    ensures forall i :: 0 <= i < |msgs| ==> recvs[i] == Mcast0.Received(msgs[i])
  {
    if msgs == [] then [] else [Mcast0.Received(msgs[0])] + AsReads(msgs[1..])
  }

  /** The host echoes a stream of frames of 1 to 2046 bytes, one receive
      per message, back verbatim. */
  lemma {:induction false} EchoesOfFrames(frames: seq<Mcast0.Frame>)
    requires forall i :: 0 <= i < |frames| ==> 1 <= |frames[i]| <= Mcast0.MAX_SINGLE_READ_FRAME
    ensures WslMcastSvc.Echoes(EncodeAll(frames)) == EncodeAll(frames)
  {
    if frames != [] {
      var msgs := EncodeAll(frames);
      EchoReturnsFrame(frames[0]);
      assert msgs[1..] == EncodeAll(frames[1..]);
      EchoesOfFrames(frames[1..]);
    }
  }

  /** End to end: frames of 1 to 2046 bytes sent by the transmit path,
      each received whole by the host and each echo read whole by the
      receive thread, are injected into the guest stack exactly as sent,
      in order. */
  lemma LoopbackDeliversFrames(frames: seq<Mcast0.Frame>)
    requires forall i :: 0 <= i < |frames| ==> 1 <= |frames[i]| <= Mcast0.MAX_SINGLE_READ_FRAME
    ensures Mcast0.Delivered(AsReads(WslMcastSvc.Echoes(EncodeAll(frames)))) == frames
  {
    EchoesOfFrames(frames);
    Mcast0.OneReadPerFrameDelivers(frames, AsReads(EncodeAll(frames)));
  }
}
