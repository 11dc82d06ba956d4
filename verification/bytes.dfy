/** Fixed-width integers of the C program, and how a multi-byte integer is laid out in memory. */
module Bytes {

  type uint8 = x: int | 0 <= x < 0x100
  type uint16 = x: int | 0 <= x < 0x1_0000
  type uint32 = x: int | 0 <= x < 0x1_0000_0000
  type uint64 = x: int | 0 <= x < 0x1_0000_0000_0000_0000
  type int64 = x: int | -0x8000_0000_0000_0000 <= x < 0x8000_0000_0000_0000

  datatype Option<T> = None | Some(value: T)

  /** The byte order of the host: a plain store of a multi-byte integer writes its bytes in this order. */
  datatype ByteOrder = LittleEndian | BigEndian

  function Pow256(n: nat): (p: nat)
    ensures p >= 1
  {
    if n == 0 then 1 else 256 * Pow256(n - 1)
  }

  /** The n low-order bytes of v, least significant first. */
  function LittleEndianBytes(v: nat, n: nat): (bs: seq<uint8>)
    ensures |bs| == n
  {
    if n == 0 then [] else [v % 256] + LittleEndianBytes(v / 256, n - 1)
  }

  /** The value of a byte sequence read least significant byte first. */
  function FromLittleEndian(bs: seq<uint8>): (v: nat)
    ensures v < Pow256(|bs|)
  {
    if bs == [] then 0
    else
      var rest := FromLittleEndian(bs[1..]);
      assert bs[0] + 256 * rest <= 255 + 256 * (Pow256(|bs| - 1) - 1);
      bs[0] + 256 * rest
  }

  function Reverse<T>(s: seq<T>): (r: seq<T>)
    ensures |r| == |s|
    ensures forall i :: 0 <= i < |s| ==> r[i] == s[|s| - 1 - i]
  {
    if s == [] then [] else Reverse(s[1..]) + [s[0]]
  }

  /** The bytes a plain store of the n-byte integer v writes on a host of the given byte order. */
  function Native(order: ByteOrder, v: nat, n: nat): (bs: seq<uint8>)
    ensures |bs| == n
  {
    match order
    case LittleEndian => LittleEndianBytes(v, n)
    case BigEndian => Reverse(LittleEndianBytes(v, n))
  }

  /** The integer a plain load of bs reads on a host of the given byte order. */
  function FromNative(order: ByteOrder, bs: seq<uint8>): nat
  {
    match order
    case LittleEndian => FromLittleEndian(bs)
    case BigEndian => FromLittleEndian(Reverse(bs))
  }

  /** htole16: the 16-bit value whose native store writes v least significant byte first, on either host. */
  function HostToLittleEndian16(order: ByteOrder, v: uint16): (w: uint16)
    ensures Native(order, w, 2) == [v % 256, v / 256]
  {
    match order
    case LittleEndian =>
      assert LittleEndianBytes(v, 2) == [v % 256, v / 256 % 256];
      v
    case BigEndian =>
      var lo, hi := v % 256, v / 256;
      var w := lo * 256 + hi;
      assert w % 256 == hi && w / 256 == lo;
      assert LittleEndianBytes(w, 2) == [hi, lo];
      assert Reverse([hi, lo]) == [lo, hi];
      w
  }

  lemma {:induction false} LittleEndianRoundTrip(v: nat, n: nat)
    requires v < Pow256(n)
    ensures FromLittleEndian(LittleEndianBytes(v, n)) == v
  {
    if n > 0 {
      LittleEndianRoundTrip(v / 256, n - 1);
      assert LittleEndianBytes(v, n)[1..] == LittleEndianBytes(v / 256, n - 1);
    }
  }

  /** Loading what a store wrote gives back the stored value, whatever the host's byte order. */
  lemma NativeRoundTrip(order: ByteOrder, v: nat, n: nat)
    requires v < Pow256(n)
    ensures FromNative(order, Native(order, v, n)) == v
  {
    LittleEndianRoundTrip(v, n);
    var bs := LittleEndianBytes(v, n);
    assert Reverse(Reverse(bs)) == bs;
  }
}
