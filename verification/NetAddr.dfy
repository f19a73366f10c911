/** IP addresses as net/netip has them, without zones; `Unset` is the invalid zero value. */
module NetAddr {

  type Byte = b: nat | b < 256

  datatype Addr = Unset | V4(bytes: seq<Byte>) | V6(bytes: seq<Byte>)

  const MAPPED: seq<Byte> := [0, 0, 0, 0, 0, 0, 0, 0, 0, 0, 255, 255]

  /** An IPv4-mapped IPv6 address is the IPv4 address it carries. */
  function Unmap(a: Addr): Addr {
    if a.V6? && |a.bytes| == 16 && a.bytes[..12] == MAPPED then V4(a.bytes[12..]) else a
  }

  /** The address in 4 or 16 bytes; anything else is none. */
  function FromSlice(bs: seq<Byte>): Addr {
    if |bs| == 4 then V4(bs) else if |bs| == 16 then V6(bs) else Unset
  }

  /** Ten zero bytes and two of 255 in front of an IPv4 address: that is what is unmapped, and
      nothing else is changed. */
  lemma UnmapExactly(a: Addr, v4: seq<Byte>)
    requires |v4| == 4
    ensures a == V6([0, 0, 0, 0, 0, 0, 0, 0, 0, 0, 255, 255] + v4) ==> Unmap(a) == V4(v4)
    ensures Unmap(a) != a ==> a.V6? && |a.bytes| == 16 && a.bytes[..12] == [0, 0, 0, 0, 0, 0, 0, 0, 0, 0, 255, 255]
    ensures a.V4? || a.Unset? ==> Unmap(a) == a
  {
    var bs := MAPPED + v4;
    assert bs[..12] == MAPPED && bs[12..] == v4;
  }
}
