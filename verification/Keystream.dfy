/** Facts about the whitening keystream: whitening is an involution that adds a fixed pattern, the
    LFSR is linear, injective and never stops, and different channels differ in every byte. */
module Keystream {
  import opened Bytes
  import opened Crc
  import opened CrcAlgebra
  import opened Whiten

  /** A register with no bits above the seven the LFSR uses. */
  predicate Seven(l: Lfsr) { l & 0xFF80 == 0 }

  function XorLfsr(a: Lfsr, b: Lfsr): Lfsr { a ^ b }

  /** The keystream bit on show. */
  predicate Top(l: Lfsr) { l & 0x40 != 0 }

  /** The keystream from state `l` as `n` bytes. */
  function KeyStream(l: Lfsr, n: nat): (r: seq<Byte>)
    ensures |r| == n
    ensures forall i :: 0 <= i < n ==> r[i] == KeyByte(StateAfter(l, i))
  {
    seq(n, i requires 0 <= i < n => KeyByte(StateAfter(l, i)))
  }

  /** The same keystream bit by bit. */
  function StreamBits(l: Lfsr, n: nat): (r: seq<bool>)
    ensures |r| == n
    decreases n
  {
    if n == 0 then [] else [Top(l)] + StreamBits(Next(l), n - 1)
  }

  /** The state `n` bits on. */
  function Advance(l: Lfsr, n: nat): Lfsr
    decreases n
  {
    if n == 0 then l else Advance(Next(l), n - 1)
  }

  lemma {:induction false} StreamBitsAt(l: Lfsr, n: nat, i: nat)
    requires i < n
    ensures StreamBits(l, n)[i] == Top(Advance(l, i))
    decreases n
  {
    hide Next, Top;
    if i > 0 {
      StreamBitsAt(Next(l), n - 1, i - 1);
    }
  }

  // ---------- Bit-vector facts ----------

  lemma NextSeven(l: Lfsr)
    ensures Seven(Next(l))
    ensures Seven(l) && l != 0 ==> Next(l) != 0
    ensures KeyBit(l) == if Top(l) then 1 else 0
  {}

  lemma NextXor(a: Lfsr, b: Lfsr)
    ensures Next(XorLfsr(a, b)) == XorLfsr(Next(a), Next(b))
    ensures KeyBit(XorLfsr(a, b)) == XorByte(KeyBit(a), KeyBit(b))
  {}

  lemma NextInjective(a: Lfsr, b: Lfsr)
    requires Seven(a) && Seven(b) && Next(a) == Next(b)
    ensures a == b
  {}

  /** Seven successive output bits are the register, most significant bit first. */
  lemma TopShowsRegister(l: Lfsr)
    ensures Top(Next(l)) == (l & 0x20 != 0)
    ensures Top(Next(Next(l))) == (l & 0x10 != 0)
    ensures Top(Next(Next(Next(l)))) == (l & 0x08 != 0)
    ensures Top(Next(Next(Next(Next(l))))) == (l & 0x04 != 0)
    ensures Top(Next(Next(Next(Next(Next(l)))))) == (l & 0x02 != 0)
    ensures Top(Next(Next(Next(Next(Next(Next(l))))))) == (l & 0x01 != 0)
  {}

  lemma BitsDetermineRegister(a: Lfsr, b: Lfsr)
    requires Seven(a) && Seven(b)
    requires (a & 0x40 != 0) == (b & 0x40 != 0) && (a & 0x20 != 0) == (b & 0x20 != 0)
    requires (a & 0x10 != 0) == (b & 0x10 != 0) && (a & 0x08 != 0) == (b & 0x08 != 0)
    requires (a & 0x04 != 0) == (b & 0x04 != 0) && (a & 0x02 != 0) == (b & 0x02 != 0)
    requires (a & 0x01 != 0) == (b & 0x01 != 0)
    ensures a == b
  {}

  function PlaceBit(bit: Byte, i: bv8): Byte
    requires i < 8
  {
    bit << i
  }

  lemma SetBitIsXor(x: Byte, p: Byte, i: bv8)
    requires i < 8 && p <= 1 && FitsBelow(x, i)
    ensures SetBit(x, p, i) == XorByte(x, PlaceBit(p, i)) && FitsBelow(SetBit(x, p, i), i + 1)
  {}

  lemma PlaceBitXor(p: Byte, q: Byte, i: bv8)
    requires i < 8 && p <= 1 && q <= 1
    ensures PlaceBit(XorByte(p, q), i) == XorByte(PlaceBit(p, i), PlaceBit(q, i))
  {
    if p == 0 {
    } else if q == 0 {
    } else {
      assert p == 1 && q == 1;
    }
  }

  lemma FitsBelowXor(x: Byte, y: Byte, p: Byte, q: Byte, i: bv8)
    requires i <= 8 && FitsBelow(x, i) && FitsBelow(y, i) && p <= 1 && q <= 1
    ensures FitsBelow(XorByte(x, y), i) && XorByte(p, q) <= 1
  {}

  lemma SetBitXor(x: Byte, y: Byte, p: Byte, q: Byte, i: bv8)
    requires i < 8 && p <= 1 && q <= 1 && FitsBelow(x, i) && FitsBelow(y, i)
    ensures SetBit(XorByte(x, y), XorByte(p, q), i) == XorByte(SetBit(x, p, i), SetBit(y, q, i))
    ensures FitsBelow(SetBit(x, p, i), i + 1)
  {
    hide SetBit, XorByte, PlaceBit, FitsBelow;
    SetBitIsXor(x, p, i);
    SetBitIsXor(y, q, i);
    FitsBelowXor(x, y, p, q, i);
    SetBitIsXor(XorByte(x, y), XorByte(p, q), i);
    PlaceBitXor(p, q, i);
    XorByteSwap(x, y, PlaceBit(p, i), PlaceBit(q, i));
  }

  lemma XorByteSwap(a: Byte, b: Byte, c: Byte, d: Byte)
    ensures XorByte(XorByte(a, b), XorByte(c, d)) == XorByte(XorByte(a, c), XorByte(b, d))
  {
    hide XorByte;
    XorByteAssoc(XorByte(a, b), c, d);
    XorByteAssoc(a, b, c);
    XorByteAssoc(b, c, c);
    XorByteAssoc(a, c, b);
    XorByteAssoc(XorByte(a, c), b, d);
  }

  lemma FitsBelowZero()
    ensures FitsBelow(0, 0) && XorByte(0, 0) == 0
  {}

  // ---------- The keystream byte and its bits ----------

  predicate Has(b: Byte, mask: Byte) { b & mask != 0 }

  lemma ByteBitsExplicit(b: Byte)
    ensures var s := ByteBits(b);
            && s[0] == Has(b, 1) && s[1] == Has(b, 2) && s[2] == Has(b, 4) && s[3] == Has(b, 8)
            && s[4] == Has(b, 16) && s[5] == Has(b, 32) && s[6] == Has(b, 64) && s[7] == Has(b, 128)
  {
    hide Shr, Lsb, BitsOf, Has;
    var v := b as Reg;
    BitsOfAt(v, 8, 0);
    BitsOfAt(v, 8, 1);
    BitsOfAt(v, 8, 2);
    BitsOfAt(v, 8, 3);
    BitsOfAt(v, 8, 4);
    BitsOfAt(v, 8, 5);
    BitsOfAt(v, 8, 6);
    BitsOfAt(v, 8, 7);
    LsbShifted(b);
  }

  lemma LsbShifted(b: Byte)
    ensures var v := b as Reg; var v4 := Shr(Shr(Shr(Shr(v))));
            && Lsb(v) == Has(b, 1) && Lsb(Shr(v)) == Has(b, 2)
            && Lsb(Shr(Shr(v))) == Has(b, 4) && Lsb(Shr(Shr(Shr(v)))) == Has(b, 8)
            && Lsb(v4) == Has(b, 16) && Lsb(Shr(v4)) == Has(b, 32)
            && Lsb(Shr(Shr(v4))) == Has(b, 64) && Lsb(Shr(Shr(Shr(v4)))) == Has(b, 128)
  {}

  function Pack4(k0: Byte, k1: Byte, k2: Byte, k3: Byte): Byte {
    SetBit(SetBit(SetBit(SetBit(0, k0, 0), k1, 1), k2, 2), k3, 3)
  }

  function PackHigh(low: Byte, k4: Byte, k5: Byte, k6: Byte, k7: Byte): Byte {
    SetBit(SetBit(SetBit(SetBit(low, k4, 4), k5, 5), k6, 6), k7, 7)
  }

  function Pack8(k0: Byte, k1: Byte, k2: Byte, k3: Byte, k4: Byte, k5: Byte, k6: Byte, k7: Byte): Byte {
    PackHigh(Pack4(k0, k1, k2, k3), k4, k5, k6, k7)
  }

  function B(t: bool): Byte { if t then 1 else 0 }

  lemma Pack4Bits(b0: bool, b1: bool, b2: bool, b3: bool)
    ensures var b := Pack4(B(b0), B(b1), B(b2), B(b3));
            && b & 0xF0 == 0
            && b0 == Has(b, 1) && b1 == Has(b, 2) && b2 == Has(b, 4) && b3 == Has(b, 8)
  {}

  lemma PackHighBits(low: Byte, b4: bool, b5: bool, b6: bool, b7: bool)
    requires low & 0xF0 == 0
    ensures var b := PackHigh(low, B(b4), B(b5), B(b6), B(b7));
            && Has(b, 1) == Has(low, 1) && Has(b, 2) == Has(low, 2) && Has(b, 4) == Has(low, 4) && Has(b, 8) == Has(low, 8)
            && b4 == Has(b, 16) && b5 == Has(b, 32) && b6 == Has(b, 64) && b7 == Has(b, 128)
  {}

  lemma Pack8Bits(b0: bool, b1: bool, b2: bool, b3: bool, b4: bool, b5: bool, b6: bool, b7: bool)
    ensures var b := Pack8(B(b0), B(b1), B(b2), B(b3), B(b4), B(b5), B(b6), B(b7));
            && b0 == Has(b, 1) && b1 == Has(b, 2) && b2 == Has(b, 4) && b3 == Has(b, 8)
            && b4 == Has(b, 16) && b5 == Has(b, 32) && b6 == Has(b, 64) && b7 == Has(b, 128)
  {
    hide Pack4, PackHigh, B, Has;
    Pack4Bits(b0, b1, b2, b3);
    PackHighBits(Pack4(B(b0), B(b1), B(b2), B(b3)), b4, b5, b6, b7);
  }

  /** Unrolls the eight steps of one keystream byte. */
  lemma KeyByteUnfold(l: Lfsr)
    ensures var l1 := Next(l); var l2 := Next(l1); var l3 := Next(l2); var l4 := Next(l3);
            var l5 := Next(l4); var l6 := Next(l5); var l7 := Next(l6);
            && NextByte(l) == Next(l7)
            && KeyByte(l) == Pack8(KeyBit(l), KeyBit(l1), KeyBit(l2), KeyBit(l3), KeyBit(l4), KeyBit(l5), KeyBit(l6), KeyBit(l7))
  {
    hide Next, KeyBit, SetBit;
    KeyUnfold(l, 0);
    KeyUnfold(l, 1);
    KeyUnfold(l, 2);
    KeyUnfold(l, 3);
    KeyUnfold(l, 4);
    KeyUnfold(l, 5);
    KeyUnfold(l, 6);
    KeyUnfold(l, 7);
  }

  lemma StreamBits8(l: Lfsr)
    ensures var l1 := Next(l); var l2 := Next(l1); var l3 := Next(l2); var l4 := Next(l3);
            var l5 := Next(l4); var l6 := Next(l5); var l7 := Next(l6);
            var s := StreamBits(l, 8);
            && s[0] == Top(l) && s[1] == Top(l1) && s[2] == Top(l2) && s[3] == Top(l3)
            && s[4] == Top(l4) && s[5] == Top(l5) && s[6] == Top(l6) && s[7] == Top(l7)
  {
    hide Next, Top, StreamBits;
    StreamBitsAt(l, 8, 0);
    StreamBitsAt(l, 8, 1);
    StreamBitsAt(l, 8, 2);
    StreamBitsAt(l, 8, 3);
    StreamBitsAt(l, 8, 4);
    StreamBitsAt(l, 8, 5);
    StreamBitsAt(l, 8, 6);
    StreamBitsAt(l, 8, 7);
  }

  lemma KeyByteBits(l: Lfsr)
    ensures ByteBits(KeyByte(l)) == StreamBits(l, 8)
  {
    hide Next, KeyBit, Top, ByteBits, Pack8, StreamBits, KeyByte, NextByte, Has;
    var l1 := Next(l); var l2 := Next(l1); var l3 := Next(l2); var l4 := Next(l3);
    var l5 := Next(l4); var l6 := Next(l5); var l7 := Next(l6);
    KeyByteUnfold(l);
    NextSeven(l); NextSeven(l1); NextSeven(l2); NextSeven(l3);
    NextSeven(l4); NextSeven(l5); NextSeven(l6); NextSeven(l7);
    Pack8Bits(Top(l), Top(l1), Top(l2), Top(l3), Top(l4), Top(l5), Top(l6), Top(l7));
    ByteBitsExplicit(KeyByte(l));
    StreamBits8(l);
    SameEight(ByteBits(KeyByte(l)), StreamBits(l, 8));
  }

  lemma SameEight(s: seq<bool>, t: seq<bool>)
    requires |s| == |t| == 8
    requires s[0] == t[0] && s[1] == t[1] && s[2] == t[2] && s[3] == t[3]
    requires s[4] == t[4] && s[5] == t[5] && s[6] == t[6] && s[7] == t[7]
    ensures s == t
  {}

  // ---------- Linearity ----------

  lemma {:induction false} KeyXor(a: Lfsr, b: Lfsr, n: bv8)
    requires n <= 8
    ensures NextN(XorLfsr(a, b), n) == XorLfsr(NextN(a, n), NextN(b, n))
    ensures KeyBits(XorLfsr(a, b), n) == XorByte(KeyBits(a, n), KeyBits(b, n))
    ensures FitsBelow(KeyBits(a, n), n) && FitsBelow(KeyBits(b, n), n)
    decreases n
  {
    hide Next, KeyBit, SetBit, XorLfsr, XorByte, FitsBelow;
    FitsBelowZero();
    if n > 0 {
      var i := n - 1;
      KeyXor(a, b, i);
      NextXor(NextN(a, i), NextN(b, i));
      KeyBitBound(NextN(a, i));
      KeyBitBound(NextN(b, i));
      SetBitXor(KeyBits(a, i), KeyBits(b, i), KeyBit(NextN(a, i)), KeyBit(NextN(b, i)), i);
      SetBitXor(KeyBits(b, i), KeyBits(a, i), KeyBit(NextN(b, i)), KeyBit(NextN(a, i)), i);
    }
  }

  lemma {:induction false} StateXor(a: Lfsr, b: Lfsr, n: nat)
    ensures StateAfter(XorLfsr(a, b), n) == XorLfsr(StateAfter(a, n), StateAfter(b, n))
    ensures KeyByte(StateAfter(XorLfsr(a, b), n)) == XorByte(KeyByte(StateAfter(a, n)), KeyByte(StateAfter(b, n)))
    decreases n
  {
    hide NextN, KeyBits, XorLfsr, XorByte, FitsBelow;
    if n > 0 {
      StateXor(a, b, n - 1);
      KeyXor(StateAfter(a, n - 1), StateAfter(b, n - 1), 8);
    }
    KeyXor(StateAfter(a, n), StateAfter(b, n), 8);
  }

  // ---------- The state never dies and is never shared ----------

  lemma NextByteKeeps(a: Lfsr, b: Lfsr)
    requires Seven(a) && Seven(b)
    ensures Seven(NextByte(a))
    ensures a != 0 ==> NextByte(a) != 0
    ensures NextByte(a) == NextByte(b) ==> a == b
  {
    hide Next, Seven, Pack8, KeyBit, NextByte, KeyByte;
    KeyByteUnfold(a);
    KeyByteUnfold(b);
    Chain(a, b);
  }

  lemma Chain(a: Lfsr, b: Lfsr)
    requires Seven(a) && Seven(b)
    ensures var a' := Next(Next(Next(Next(Next(Next(Next(Next(a))))))));
            var b' := Next(Next(Next(Next(Next(Next(Next(Next(b))))))));
            Seven(a') && (a != 0 ==> a' != 0) && (a' == b' ==> a == b)
  {
    hide Next, Seven;
    var a1, b1 := Next(a), Next(b);
    var a2, b2 := Next(a1), Next(b1);
    var a3, b3 := Next(a2), Next(b2);
    var a4, b4 := Next(a3), Next(b3);
    Two(a, b);
    Two(a2, b2);
    Two(a4, b4);
    Two(Next(Next(a4)), Next(Next(b4)));
  }

  lemma Two(a: Lfsr, b: Lfsr)
    requires Seven(a) && Seven(b)
    ensures Seven(Next(Next(a))) && Seven(Next(Next(b)))
    ensures a != 0 ==> Next(Next(a)) != 0
    ensures Next(Next(a)) == Next(Next(b)) ==> a == b
  {
    hide Next, Seven, KeyBit, Top;
    NextSeven(a);
    NextSeven(b);
    NextSeven(Next(a));
    NextSeven(Next(b));
    if Next(Next(a)) == Next(Next(b)) {
      NextInjective(Next(a), Next(b));
      NextInjective(a, b);
    }
  }

  lemma SeedFacts(c1: Byte, c2: Byte)
    ensures Seven(Seed(c1)) && Seed(c1) != 0
    ensures Seed(c1) == Seed(c2) <==> c1 & 0x3F == c2 & 0x3F
  {}

  /** From any channel the LFSR runs forever without reaching zero, and the states of two channels that
      differ in their low six bits differ after every byte. */
  lemma {:induction false} StatesStayApart(c1: Byte, c2: Byte, n: nat)
    ensures Seven(StateAfter(Seed(c1), n)) && Seven(StateAfter(Seed(c2), n))
    ensures StateAfter(Seed(c1), n) != 0
    ensures StateAfter(Seed(c1), n) == StateAfter(Seed(c2), n) <==> c1 & 0x3F == c2 & 0x3F
    decreases n
  {
    hide Seven, NextByte, Seed;
    if n == 0 {
      SeedFacts(c1, c2);
      SeedFacts(c2, c1);
    } else {
      StatesStayApart(c1, c2, n - 1);
      NextByteKeeps(StateAfter(Seed(c1), n - 1), StateAfter(Seed(c2), n - 1));
      NextByteKeeps(StateAfter(Seed(c2), n - 1), StateAfter(Seed(c1), n - 1));
    }
  }

  /** A keystream byte determines the register that produced it. */
  lemma KeyByteInjective(a: Lfsr, b: Lfsr)
    requires Seven(a) && Seven(b) && KeyByte(a) == KeyByte(b)
    ensures a == b
  {
    hide Next, Seven, ByteBits, KeyByte, StreamBits;
    KeyByteBits(a);
    KeyByteBits(b);
    StreamBits8(a);
    StreamBits8(b);
    TopShowsRegister(a);
    TopShowsRegister(b);
    BitsDetermineRegister(a, b);
  }

  // ---------- Whitening ----------

  /** Whitening twice on one channel restores every buffer. */
  lemma WhitenInvolution(buf: seq<Byte>, channel: Byte)
    ensures Whitened(Whitened(buf, channel), channel) == buf
  {
    hide XorByte, KeyByte, StateAfter, Seed;
    forall i | 0 <= i < |buf|
      ensures Whitened(Whitened(buf, channel), channel)[i] == buf[i]
    {
      var k := KeyByte(StateAfter(Seed(channel), i));
      XorByteAssoc(buf[i], k, k);
      XorByteUnit(k, k);
      XorByteUnit(buf[i], 0);
    }
  }

  /** An error added on air is the same error after de-whitening. */
  lemma WhitenCarriesError(buf: seq<Byte>, err: seq<Byte>, channel: Byte)
    requires |err| == |buf|
    ensures Whitened(XorBytes(buf, err), channel) == XorBytes(Whitened(buf, channel), err)
  {
    hide XorByte, KeyByte, StateAfter, Seed;
    forall i | 0 <= i < |buf|
      ensures Whitened(XorBytes(buf, err), channel)[i] == XorBytes(Whitened(buf, channel), err)[i]
    {
      var k := KeyByte(StateAfter(Seed(channel), i));
      XorByteAssoc(buf[i], err[i], k);
      XorByteAssoc(err[i], k, k);
      XorByteAssoc(buf[i], k, err[i]);
    }
  }

  /** Whitening on one channel and de-whitening on another adds the keystream of the summed seeds. */
  lemma WhitenTwoChannels(buf: seq<Byte>, c1: Byte, c2: Byte)
    ensures Whitened(Whitened(buf, c1), c2) == XorBytes(buf, KeyStream(XorLfsr(Seed(c1), Seed(c2)), |buf|))
  {
    hide XorByte, XorLfsr, KeyByte, StateAfter, Seed;
    var l := XorLfsr(Seed(c1), Seed(c2));
    forall i | 0 <= i < |buf|
      ensures Whitened(Whitened(buf, c1), c2)[i] == XorBytes(buf, KeyStream(l, |buf|))[i]
    {
      StateXor(Seed(c1), Seed(c2), i);
      XorByteAssoc(buf[i], KeyByte(StateAfter(Seed(c1), i)), KeyByte(StateAfter(Seed(c2), i)));
    }
  }

  /** Two channels with different low six bits whiten a buffer differently in every byte; two channels
      with the same low six bits whiten it the same. */
  lemma ChannelsSeparateEveryByte(buf: seq<Byte>, c1: Byte, c2: Byte)
    ensures c1 & 0x3F != c2 & 0x3F ==> forall i :: 0 <= i < |buf| ==> Whitened(buf, c1)[i] != Whitened(buf, c2)[i]
    ensures c1 & 0x3F == c2 & 0x3F ==> Whitened(buf, c1) == Whitened(buf, c2)
  {
    hide XorByte, KeyByte, StateAfter, Seed, Seven;
    SeedFacts(c1, c2);
    forall i | 0 <= i < |buf| && Whitened(buf, c1)[i] == Whitened(buf, c2)[i]
      ensures c1 & 0x3F == c2 & 0x3F
    {
      var k1, k2 := KeyByte(StateAfter(Seed(c1), i)), KeyByte(StateAfter(Seed(c2), i));
      XorCancelLeft(buf[i], k1, k2);
      StatesStayApart(c1, c2, i);
      KeyByteInjective(StateAfter(Seed(c1), i), StateAfter(Seed(c2), i));
    }
  }

  lemma XorCancelLeft(a: Byte, b: Byte, c: Byte)
    requires XorByte(a, b) == XorByte(a, c)
    ensures b == c
  {}
}
