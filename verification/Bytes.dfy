/** Bytes as bit vectors, and exclusive-or on buffers. */
module Bytes {
  type Byte = bv8

  function XorByte(a: Byte, b: Byte): Byte { a ^ b }

  function XorBytes(a: seq<Byte>, b: seq<Byte>): (r: seq<Byte>)
    requires |a| == |b|
    ensures |r| == |a|
    ensures forall i :: 0 <= i < |r| ==> r[i] == XorByte(a[i], b[i])
  {
    seq(|a|, i requires 0 <= i < |a| => XorByte(a[i], b[i]))
  }

  function Zeros(n: nat): (r: seq<Byte>)
    ensures |r| == n
  {
    seq(n, _ => 0)
  }

  lemma XorByteAssoc(a: Byte, b: Byte, c: Byte)
    ensures XorByte(XorByte(a, b), c) == XorByte(a, XorByte(b, c))
    ensures XorByte(a, b) == XorByte(b, a)
  {}

  lemma XorByteUnit(a: Byte, b: Byte)
    ensures XorByte(a, a) == 0 && XorByte(a, 0) == a
    ensures XorByte(a, b) == 0 <==> a == b
  {}
}
