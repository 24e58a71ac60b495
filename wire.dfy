/** Bytes as they travel over the TCP stream between the guest kernel module
    and the host service, the little-endian 16-bit length both sides share,
    and the way a receive call fills a reused buffer. */
module Wire {

  /** One octet. */
  type Byte = b: int | 0 <= b < 256

  /** Number of values an `unsigned short` / `u16` / `ushort` can hold. */
  const U16_MODULUS: nat := 65536

  datatype Option<+T> = None | Some(value: T)

  /** The unsigned 16-bit value whose little-endian memory image is [lo, hi]:
      what `memcpy(&u16, buf, 2)` yields on a little-endian machine and what
      `BitConverter.ToUInt16(buf, 0)` yields on Windows. */
  function LeU16(lo: Byte, hi: Byte): (v: nat)
    ensures v < U16_MODULUS
    ensures v % 256 == lo && v / 256 == hi
  {
    lo + 256 * hi
  }

  /** The two-byte little-endian memory image of a 16-bit value. */
  function U16Le(v: nat): (b: seq<Byte>)
    requires v < U16_MODULUS
    ensures |b| == 2 && LeU16(b[0], b[1]) == v
  {
    [v % 256, v / 256]
  }

  /** One successful receive into a buffer that is reused across receives:
      the `data` delivered land at the front of `buf`; the remainder still
      holds whatever an earlier receive left there. The count returned is
      the receive's byte count. */
  method Receive(buf: array<Byte>, data: seq<Byte>) returns (n: nat)
    requires |data| <= buf.Length
    modifies buf
    ensures n == |data| && buf[..n] == data
    ensures buf[n..] == old(buf[n..])
  {
    n := 0;
    while n < |data|
      invariant 0 <= n <= |data|
      invariant forall k :: 0 <= k < n ==> buf[k] == data[k]
      invariant forall k :: |data| <= k < buf.Length ==> buf[k] == old(buf[k])
    {
      buf[n] := data[n];
      n := n + 1;
    }
    assert buf[..n] == data;
  }
}
