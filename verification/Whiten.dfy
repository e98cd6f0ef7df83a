/** Data whitening (src/ll/whiten.rs): a 7-bit LFSR seeded from the channel, XORed over a buffer in
    place, least significant bit of each byte first. */
module Whiten {
  import opened Bytes

  type Lfsr = bv16

  function WhiteningInit(channel: Byte): Byte { 0x40 | (channel & 0x3F) }

  /** The keystream bit the register shows. */
  function KeyBit(l: Lfsr): Byte { ((l >> 6) & 1) as Byte }

  function Next(l: Lfsr): Lfsr { ((l << 1) | (((l >> 6) ^ (l >> 3)) & 1)) & 0x7F }

  function NextN(l: Lfsr, n: bv8): Lfsr
    decreases n
  {
    if n == 0 then l else Next(NextN(l, n - 1))
  }

  /** The first `n` keystream bits from state `l`, packed from bit 0 up. */
  function KeyBits(l: Lfsr, n: bv8): Byte
    requires n <= 8
    decreases n
  {
    if n == 0 then 0 else SetBit(KeyBits(l, n - 1), KeyBit(NextN(l, n - 1)), n - 1)
  }

  function SetBit(out: Byte, bit: Byte, i: bv8): Byte
    requires i < 8
  {
    out | (bit << i)
  }

  function KeyByte(l: Lfsr): Byte { KeyBits(l, 8) }

  function NextByte(l: Lfsr): Lfsr { NextN(l, 8) }

  /** The register after `n` whole bytes. */
  function StateAfter(l: Lfsr, n: nat): Lfsr
    decreases n
  {
    if n == 0 then l else NextByte(StateAfter(l, n - 1))
  }

  function Seed(channel: Byte): Lfsr { WhiteningInit(channel) as Lfsr }

  /** Byte `i` of a buffer is XORed with byte `i` of the channel's keystream. */
  function Whitened(buf: seq<Byte>, channel: Byte): (r: seq<Byte>)
    ensures |r| == |buf|
  {
    seq(|buf|, i requires 0 <= i < |buf| => XorByte(buf[i], KeyByte(StateAfter(Seed(channel), i))))
  }

  function LowMask(i: bv8): Byte
    requires i <= 8
  {
    if i == 8 then 0xFF else (1 << i) - 1
  }

  function DataBit(b: Byte, i: bv8): Byte
    requires i < 8
  {
    (b >> i) & 1
  }

  /** What the inner loop of `whiten` has in `out` after `i` bits. */
  function Mixed(b: Byte, key: Byte, i: bv8): Byte
    requires i <= 8
  {
    (b & LowMask(i)) ^ key
  }

  predicate FitsBelow(key: Byte, i: bv8)
    requires i <= 8
  {
    key & !LowMask(i) == 0
  }

  lemma MixBit(b: Byte, key: Byte, bit: Byte, i: bv8)
    requires i < 8 && bit <= 1 && FitsBelow(key, i)
    ensures SetBit(Mixed(b, key, i), XorByte(DataBit(b, i), bit), i) == Mixed(b, SetBit(key, bit, i), i + 1)
    ensures FitsBelow(SetBit(key, bit, i), i + 1)
  {}

  lemma MixEnds(b: Byte, key: Byte)
    ensures FitsBelow(0, 0) && Mixed(b, 0, 0) == 0
    ensures Mixed(b, key, 8) == XorByte(b, key)
  {}

  lemma KeyBitBound(l: Lfsr)
    ensures KeyBit(l) <= 1
  {}

  lemma KeyUnfold(l: Lfsr, i: bv8)
    requires i < 8
    ensures NextN(l, 0) == l && NextN(l, i + 1) == Next(NextN(l, i))
    ensures KeyBits(l, 0) == 0 && KeyBits(l, i + 1) == SetBit(KeyBits(l, i), KeyBit(NextN(l, i)), i)
  {}

  /** Whitens one byte; the inner loop of `whiten`. */
  method WhitenByte(b: Byte, start: Lfsr) returns (out: Byte, lfsr: Lfsr)
    ensures out == XorByte(b, KeyByte(start))
    ensures lfsr == NextByte(start)
  {
    hide Next, NextN, KeyBit, KeyBits, SetBit, Mixed, FitsBelow, XorByte, DataBit;
    out := 0;
    lfsr := start;
    KeyUnfold(start, 0);
    MixEnds(b, KeyByte(start));
    var i: bv8 := 0;
    while i < 8
      invariant i <= 8
      invariant lfsr == NextN(start, i)
      invariant FitsBelow(KeyBits(start, i), i)
      invariant out == Mixed(b, KeyBits(start, i), i)
      decreases 8 - i
    {
      KeyUnfold(start, i);
      KeyBitBound(lfsr);
      MixBit(b, KeyBits(start, i), KeyBit(lfsr), i);
      out := SetBit(out, XorByte(DataBit(b, i), KeyBit(lfsr)), i);
      lfsr := Next(lfsr);
      i := i + 1;
    }
  }

  /** Whitens the slice `buf[..n]` in place. */
  method Whiten(buf: array<Byte>, n: nat, channel: Byte)
    requires n <= buf.Length
    modifies buf
    ensures buf[..n] == Whitened(old(buf[..n]), channel)
    ensures buf[n..] == old(buf[n..])
  {
    hide KeyByte, NextByte, Seed, XorByte;
    var lfsr := Seed(channel);
    var i := 0;
    while i < n
      invariant i <= n
      invariant lfsr == StateAfter(Seed(channel), i)
      invariant forall j :: 0 <= j < i ==> buf[j] == XorByte(old(buf[j]), KeyByte(StateAfter(Seed(channel), j)))
      invariant forall j :: i <= j < buf.Length ==> buf[j] == old(buf[j])
    {
      var out;
      out, lfsr := WhitenByte(buf[i], lfsr);
      buf[i] := out;
      i := i + 1;
    }
  }
}
