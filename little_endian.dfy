/**
 * Little-endian, two's-complement byte layout of fixed-width integers
 * (section 5.2.2.2 of OPC 10000-6): the first byte is the least significant.
 */
module LittleEndian {
  import opened Integers

  /** The number a little-endian byte string denotes. */
  function LeValue(bs: seq<uint8>): (v: nat)
    ensures v < Pow256(|bs|)
  {
    if bs == [] then 0 else bs[0] as nat + 256 * LeValue(bs[1..])
  }

  /** The w-byte little-endian representation of x. */
  function LeBytes(x: nat, w: nat): (bs: seq<uint8>)
    requires x < Pow256(w)
    ensures |bs| == w
    ensures LeValue(bs) == x
  {
    if w == 0 then [] else [(x % 256) as uint8] + LeBytes(x / 256, w - 1)
  }

  /** Every byte string is the representation of its own value: LeBytes and LeValue are inverse bijections. */
  lemma {:induction false} LeBytesOfLeValue(bs: seq<uint8>)
    ensures LeBytes(LeValue(bs), |bs|) == bs
  {
    if bs != [] {
      LeBytesOfLeValue(bs[1..]);
      var v := LeValue(bs);
      assert v % 256 == bs[0] as nat && v / 256 == LeValue(bs[1..]);
    }
  }

  /** The two's-complement image of v in w bytes: the residue of v modulo 256^w. */
  function ToTwosComplement(v: int, w: nat): (u: nat)
    requires 0 < w && -Pow256(w) / 2 <= v < Pow256(w) / 2
    ensures u < Pow256(w)
    ensures u == v % Pow256(w)
  {
    var m := Pow256(w);
    if v < 0 then ModBelow(v + m, m); v + m else ModSmall(v, m); v
  }

  /** The signed value whose two's-complement image in w bytes is u; the top bit is the sign. */
  function FromTwosComplement(u: nat, w: nat): (v: int)
    requires 0 < w && u < Pow256(w)
    ensures -Pow256(w) / 2 <= v < Pow256(w) / 2
    ensures v % Pow256(w) == u
    ensures v < 0 <==> u >= Pow256(w) / 2
  {
    var m := Pow256(w);
    if u < m / 2 then ModSmall(u, m); u else ModBelow(u, m); u - m
  }

  lemma ModSmall(a: int, m: int)
    requires 0 <= a < m
    ensures a % m == a
  {
  }

  lemma ModBelow(a: int, m: int)
    requires 0 <= a < m
    ensures (a - m) % m == a
  {
  }

  /** The signed value a little-endian two's-complement byte string denotes. */
  function DecodeSigned(bs: seq<uint8>): (v: int)
    requires |bs| > 0
    ensures -Pow256(|bs|) / 2 <= v < Pow256(|bs|) / 2
  {
    FromTwosComplement(LeValue(bs), |bs|)
  }

  /** The w-byte little-endian two's-complement representation of v. */
  function EncodeSigned(v: int, w: nat): (bs: seq<uint8>)
    requires 0 < w && -Pow256(w) / 2 <= v < Pow256(w) / 2
    ensures |bs| == w
    ensures DecodeSigned(bs) == v
  {
    LeBytes(ToTwosComplement(v, w), w)
  }

  /** Every non-empty byte string is the signed representation of the value it decodes to. */
  lemma SignedBytesRoundTrip(bs: seq<uint8>)
    requires |bs| > 0
    ensures EncodeSigned(DecodeSigned(bs), |bs|) == bs
  {
    LeBytesOfLeValue(bs);
  }

  /** Minus one is all ones: the Int32 -1 is FF FF FF FF. */
  lemma MinusOneInt32()
    ensures EncodeSigned(-1, 4) == [0xFF, 0xFF, 0xFF, 0xFF]
  {
  }
}
