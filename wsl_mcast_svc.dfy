/** The host side of the frame protocol: the Windows service's receive
    loop, which reads the 2-byte little-endian length from each receive
    and echoes the announced frame back over the same connection. */
module WslMcastSvc {
  import opened Wire

  /** Capacity of the reused receive buffer `buf`. */
  const BUFFER_SIZE: nat := 2048
  /** Length of the frame-length header. */
  const HEADER_LEN: nat := 2

  /** `Math.Min(2 + framelen, n)`: the number of received bytes echoed. */
  function EchoCount(framelen: nat, n: nat): (count: nat)
    ensures count <= n && count <= HEADER_LEN + framelen
    ensures count == n || count == HEADER_LEN + framelen
  {
    if HEADER_LEN + framelen < n then HEADER_LEN + framelen else n
  }

  /** The length a receive announces in its first two bytes. */
  function FrameLen(data: seq<Byte>): (framelen: nat)
    requires |data| >= HEADER_LEN
    ensures framelen < U16_MODULUS
  {
    LeU16(data[0], data[1])
  }

  /** The send issued for one receive of `data` (with at least one byte),
      or None when nothing is sent. A receive of two or more bytes is
      echoed from offset 0, as far as the announced frame reaches but never
      beyond the bytes received. */
  function Echo(data: seq<Byte>): (sent: Option<seq<Byte>>)
    ensures sent.Some? <==> |data| >= HEADER_LEN
    ensures sent.Some? ==> |sent.value| == EchoCount(FrameLen(data), |data|)
    ensures sent.Some? ==> sent.value <= data
    ensures sent.Some? ==> HEADER_LEN <= |sent.value| <= |data|
  {
    if |data| >= HEADER_LEN then Some(data[..EchoCount(FrameLen(data), |data|)]) else None
  }

  /** The sends one receive contributes: at most one. */
  function SendsOf(data: seq<Byte>): (sends: seq<seq<Byte>>)
    ensures |sends| <= 1
    ensures |sends| == 1 <==> |data| >= HEADER_LEN
    ensures |sends| == 1 ==> Echo(data) == Some(sends[0])
  {
    match Echo(data)
    case Some(s) => [s]
    case None => []
  }

  /** The sends in order for a connection's sequence of receives. The first
      empty receive (the peer closed) ends the loop; nothing after it is
      read or sent. */
  function Echoes(receives: seq<seq<Byte>>): (sends: seq<seq<Byte>>)
    ensures |sends| <= |receives|
  {
    if receives == [] || receives[0] == [] then []
    else SendsOf(receives[0]) + Echoes(receives[1..])
  }

  /** No receive before index `i` was a close. */
  predicate OpenThrough(receives: seq<seq<Byte>>, i: nat)
    requires i <= |receives|
  {
    forall k :: 0 <= k < i ==> receives[k] != []
  }

  lemma {:induction false} EchoesAppend(a: seq<seq<Byte>>, b: seq<seq<Byte>>)
    requires OpenThrough(a, |a|)
    ensures Echoes(a + b) == Echoes(a) + Echoes(b)
  {
    if a == [] {
      assert a + b == b;
    } else {
      assert (a + b)[0] == a[0];
      assert (a + b)[1..] == a[1..] + b;
      EchoesAppend(a[1..], b);
    }
  }

  /** One more receive that is not a close adds its send, if any, at the end. */
  lemma EchoesSnoc(a: seq<seq<Byte>>, data: seq<Byte>)
    requires OpenThrough(a, |a|) && data != []
    ensures Echoes(a + [data]) == Echoes(a) + SendsOf(data)
  {
    EchoesAppend(a, [data]);
    assert [data][1..] == [];
  }

  /** A close ends the loop: nothing received after the first close, and
      nothing after any close, produces a send. */
  lemma {:induction false} NoSendAfterClose(before: seq<seq<Byte>>, after: seq<seq<Byte>>)
    ensures Echoes(before + [[]] + after) == Echoes(before)
  {
    var whole := before + [[]] + after;
    if before == [] {
      assert whole[0] == [];
    } else if before[0] == [] {
      assert whole[0] == [];
    } else {
      assert whole[0] == before[0];
      assert whole[1..] == before[1..] + [[]] + after;
      NoSendAfterClose(before[1..], after);
    }
  }

  /** Every send is a prefix, from offset 0, of the receive of the same
      iteration, and at most BUFFER_SIZE bytes long. */
  lemma {:induction false} EchoesArePrefixes(receives: seq<seq<Byte>>, j: nat)
    requires forall i :: 0 <= i < |receives| ==> |receives[i]| <= BUFFER_SIZE
    requires j < |Echoes(receives)|
    ensures exists i :: 0 <= i < |receives| && Echo(receives[i]) == Some(Echoes(receives)[j]) && Echoes(receives)[j] <= receives[i]
    ensures |Echoes(receives)[j]| <= BUFFER_SIZE
  {
    var head := SendsOf(receives[0]);
    if j < |head| {
      assert Echo(receives[0]) == Some(Echoes(receives)[j]);
    } else {
      EchoesArePrefixes(receives[1..], j - |head|);
      var i :| 0 <= i < |receives[1..]| && Echo(receives[1..][i]) == Some(Echoes(receives[1..])[j - |head|]);
      assert receives[i + 1] == receives[1..][i];
      assert Echo(receives[i + 1]) == Some(Echoes(receives)[j]);
    }
  }

  /** The service's receive loop on an accepted connection: each receive
      refills the reused buffer; a receive of no bytes ends the loop; a
      receive of two or more bytes is echoed. The model stops when the
      given receives run out, where the service would block. */
  method Serve(receives: seq<seq<Byte>>) returns (sends: seq<seq<Byte>>)
    requires forall i :: 0 <= i < |receives| ==> |receives[i]| <= BUFFER_SIZE
    ensures sends == Echoes(receives)
  {
    var buf := new Byte[BUFFER_SIZE];
    sends := [];
    var i := 0;
    while i < |receives|
      invariant 0 <= i <= |receives|
      invariant OpenThrough(receives, i)
      invariant sends == Echoes(receives[..i])
    {
      var n := Receive(buf, receives[i]);
      if n <= 0 {
        NoSendAfterClose(receives[..i], receives[i + 1..]);
        assert receives == receives[..i] + [[]] + receives[i + 1..];
        break;
      }
      if n >= HEADER_LEN {
        var framelen := LeU16(buf[0], buf[1]);
        assert framelen == FrameLen(receives[i]);
        var count := EchoCount(framelen, n);
        assert buf[..count] == receives[i][..count];
        sends := sends + [buf[..count]];
      }
      EchoesSnoc(receives[..i], receives[i]);
      assert receives[..i + 1] == receives[..i] + [receives[i]];
      i := i + 1;
    }
    if i == |receives| {
      assert receives[..i] == receives;
    }
  }
}
