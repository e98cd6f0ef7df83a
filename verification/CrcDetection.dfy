/** What the CRC guarantees about a received word: the residue test accepts exactly the trailer that
    was appended, and every burst of up to 24 bits and every odd number of flipped bits changes the
    residue. Errors are bit streams fed to a register that starts at zero. */
module CrcDetection {
  import opened Bytes
  import opened Crc
  import opened CrcAlgebra

  // ---------- The register's own bits ----------

  function OneHot(n: nat): Reg
    decreases n
  {
    if n == 0 then 1 else Shl(OneHot(n - 1))
  }

  function Shl(c: Reg): Reg { c << 1 }

  predicate Disjoint(a: Reg, b: Reg) { a & b == 0 }

  lemma DisjointShl(v: Reg, m: Reg)
    requires Disjoint(Shr(v), m)
    ensures Disjoint(v, Shl(m))
  {}

  lemma DisjointOneHot(v: Reg)
    requires v == 0
    ensures Disjoint(v, 1)
  {}

  lemma {:induction false} FitsDisjoint(v: Reg, n: nat)
    requires Fits(v, n)
    ensures Disjoint(v, OneHot(n)) && Fits(v, n + 1)
    decreases n
  {
    hide Shr, Shl, Disjoint;
    if n == 0 {
      DisjointOneHot(v);
      FitsZero();
    } else {
      FitsDisjoint(Shr(v), n - 1);
      DisjointShl(v, OneHot(n - 1));
    }
  }

  lemma FitsZero()
    ensures Shr(0) == 0
  {}

  lemma OneHot23()
    ensures OneHot(23) == 0x80_0000
  {
    assert OneHot(8) == 0x100;
    assert OneHot(16) == 0x1_0000;
  }

  lemma {:induction false} FitsTopClear(v: Reg, n: nat)
    requires Fits(v, n) && n <= 23
    ensures Disjoint(v, 0x80_0000)
    decreases 23 - n
  {
    hide Shr, Shl, Disjoint;
    FitsDisjoint(v, n);
    if n == 23 {
      OneHot23();
    } else {
      FitsTopClear(v, n + 1);
    }
  }

  /** A register whose top bit stays clear was only shifted: the bit fed was its own low bit. */
  lemma FeedBitTopClear(c: Reg, b: bool)
    requires In24(c) && Disjoint(FeedBit(c, b), 0x80_0000)
    ensures b == Lsb(c) && FeedBit(c, b) == Shr(c)
  {}

  lemma Fits24(c: Reg)
    requires In24(c)
    ensures Fits(c, CRC_BITS)
  {
    FitsUnroll(c, 16);
    FitsUnroll(c >> 8, 8);
    FitsUnroll(c >> 16, 0);
  }

  lemma FitsUnroll(v: Reg, n: nat)
    ensures Fits(v, n + 8) == Fits(v >> 8, n)
  {
    assert Fits(v, n + 8) == Fits(v >> 2, n + 6);
    assert Fits(v >> 2, n + 6) == Fits(v >> 4, n + 4);
    assert Fits(v >> 4, n + 4) == Fits(v >> 6, n + 2);
    assert Fits(v >> 6, n + 2) == Fits(v >> 8, n);
  }

  lemma FeedBit24(c: Reg, b: bool)
    requires In24(c)
    ensures In24(FeedBit(c, b))
  {}

  /** Up to 24 bits bring a register to zero only if they are exactly its own low bits. */
  lemma {:induction false} ZeroNeedsOwnBits(c: Reg, w: seq<bool>)
    requires In24(c) && |w| <= 24
    ensures FeedBits(c, w) == 0 <==> Fits(c, |w|) && w == BitsOf(c, |w|)
    decreases |w|
  {
    hide In24, FeedBit, Shr, Lsb, Disjoint;
    var n := |w|;
    if n > 0 {
      var c1 := FeedBit(c, w[0]);
      FeedBit24(c, w[0]);
      ZeroNeedsOwnBits(c1, w[1..]);
      if FeedBits(c, w) == 0 {
        FitsTopClear(c1, n - 1);
        FeedBitTopClear(c, w[0]);
        assert w == [w[0]] + w[1..];
      }
      if Fits(c, n) && w == BitsOf(c, n) {
        OwnBitsGiveZero(c, n);
      }
    }
  }

  lemma OwnBitsGiveZero(c: Reg, n: nat)
    requires Fits(c, n)
    ensures FeedBits(c, BitsOf(c, n)) == 0
  {
    hide Step, Xor, In24;
    FeedValue(c, c, n);
    XorUnit(c);
    In24Zero();
    StepN24(0, n);
  }

  lemma In24Zero()
    ensures In24(0)
  {}

  // ---------- Bursts ----------

  predicate Silent(bits: seq<bool>) { forall i :: 0 <= i < |bits| ==> !bits[i] }

  lemma FeedFalse(c: Reg)
    ensures FeedBit(c, false) == Step(c)
  {}

  lemma {:induction false} FeedSilence(c: Reg, bits: seq<bool>)
    requires Silent(bits)
    ensures FeedBits(c, bits) == StepN(c, |bits|)
    decreases |bits|
  {
    hide Step, FeedBit;
    if bits != [] {
      FeedFalse(c);
      FeedSilence(Step(c), bits[1..]);
      StepNFront(c, |bits|);
    }
  }

  lemma LsbZero()
    ensures !Lsb(0) && Shr(0) == 0
  {}

  lemma {:induction false} BitsOfZero(n: nat)
    ensures Silent(BitsOf(0, n))
    decreases n
  {
    hide Lsb, Shr;
    if n > 0 {
      LsbZero();
      BitsOfZero(n - 1);
    }
  }

  /** A nonzero error confined to 24 consecutive bits. */
  predicate Burst(bits: seq<bool>, start: nat) {
    !Silent(bits) && forall i :: 0 <= i < |bits| && bits[i] ==> start <= i < start + 24
  }

  lemma BurstLeavesResidue(bits: seq<bool>, start: nat)
    requires Burst(bits, start)
    ensures FeedBits(0, bits) != 0
  {
    hide Step, In24, FeedBit;
    var a := if start < |bits| then start else |bits|;
    var b := if start + 24 < |bits| then start + 24 else |bits|;
    var pre, w, post := bits[..a], bits[a..b], bits[b..];
    assert bits == pre + (w + post);
    In24Zero();
    FeedConcat(0, pre, w + post);
    FeedSilence(0, pre);
    StepN24(0, |pre|);
    FeedConcat(0, w, post);
    BurstWindow(w, bits, a);
    FeedBits24(0, w);
    FeedSilence(FeedBits(0, w), post);
    StepN24(FeedBits(0, w), |post|);
  }

  lemma BurstWindow(w: seq<bool>, bits: seq<bool>, a: nat)
    requires a + |w| <= |bits| && |w| <= 24 && w == bits[a..a + |w|]
    requires !Silent(bits) && forall i :: 0 <= i < |bits| && bits[i] ==> a <= i < a + |w|
    ensures FeedBits(0, w) != 0
  {
    hide In24, FeedBits, Fits;
    var i :| 0 <= i < |bits| && bits[i];
    assert w[i - a];
    In24Zero();
    ZeroNeedsOwnBits(0, w);
    BitsOfZero(|w|);
  }

  lemma {:induction false} FeedBits24(c: Reg, bits: seq<bool>)
    requires In24(c)
    ensures In24(FeedBits(c, bits))
    decreases |bits|
  {
    hide In24, FeedBit;
    if bits != [] {
      FeedBit24(c, bits[0]);
      FeedBits24(FeedBit(c, bits[0]), bits[1..]);
    }
  }

  // ---------- Parity ----------

  predicate OddParity(c: Reg, n: nat)
    decreases n
  {
    n != 0 && Lsb(c) != OddParity(Shr(c), n - 1)
  }

  /** The 24-bit register holds an odd number of ones. */
  predicate OddReg(c: Reg) { OddParity(c, CRC_BITS) }

  predicate OddOnes(bits: seq<bool>)
    decreases |bits|
  {
    bits != [] && bits[0] != OddOnes(bits[1..])
  }

  lemma {:induction false} OddParityXor(a: Reg, b: Reg, n: nat)
    ensures OddParity(Xor(a, b), n) == (OddParity(a, n) != OddParity(b, n))
    decreases n
  {
    hide Xor, Shr, Lsb;
    if n > 0 {
      LsbXor(a, b);
      ShrXor(a, b);
      OddParityXor(Shr(a), Shr(b), n - 1);
    }
  }

  lemma {:induction false} OddParityFits(c: Reg, n: nat)
    requires Fits(c, n)
    ensures OddParity(c, n + 1) == OddParity(c, n)
    decreases n
  {
    hide Shr, Lsb;
    if n == 0 {
      LsbZero();
    } else {
      OddParityFits(Shr(c), n - 1);
    }
  }

  /** The reflected polynomial has seven ones. */
  lemma PolyWeight()
    ensures OddReg(CRC_REFLECTED_POLY)
  {
    assert OddParity(0xDA, 8);
    assert OddParity(0xDA60, 16);
  }

  lemma BitParity(b: bool)
    ensures OddReg(BitReg(b)) == b
  {
    hide Shr, Lsb;
    StepBit(b);
    LsbZero();
    OddParityZero(CRC_BITS - 1);
  }

  lemma {:induction false} OddParityZero(n: nat)
    ensures !OddParity(0, n)
    decreases n
  {
    hide Shr, Lsb;
    if n > 0 {
      LsbZero();
      OddParityZero(n - 1);
    }
  }

  lemma StepKeepsParity(c: Reg)
    requires In24(c)
    ensures OddReg(Step(c)) == OddReg(c)
  {
    hide Step, Shr, Lsb, Xor, In24, Fits;
    StepCases(c);
    PolyWeight();
    OddParityXor(Shr(c), CRC_REFLECTED_POLY, CRC_BITS);
    Fits24(c);
    OddParityFits(c, CRC_BITS);
    assert OddParity(c, CRC_BITS + 1) == (Lsb(c) != OddParity(Shr(c), CRC_BITS));
  }

  lemma OddRegXor(a: Reg, b: Reg)
    ensures OddReg(Xor(a, b)) == (OddReg(a) != OddReg(b))
  {
    hide OddParity, Xor;
    OddParityXor(a, b, CRC_BITS);
  }

  lemma FeedBitParity(c: Reg, b: bool)
    requires In24(c)
    ensures OddReg(FeedBit(c, b)) == (OddReg(c) != b)
  {
    hide Step, Xor, In24, BitReg, OddReg;
    BitReg24(b);
    Xor24(c, BitReg(b));
    StepKeepsParity(Xor(c, BitReg(b)));
    OddRegXor(c, BitReg(b));
    BitParity(b);
  }

  lemma {:induction false} FeedParity(c: Reg, bits: seq<bool>)
    requires In24(c)
    ensures OddReg(FeedBits(c, bits)) == (OddReg(c) != OddOnes(bits))
    decreases |bits|
  {
    hide FeedBit, In24, OddReg;
    if bits != [] {
      FeedBit24(c, bits[0]);
      FeedBitParity(c, bits[0]);
      FeedParity(FeedBit(c, bits[0]), bits[1..]);
    }
  }

  lemma BitReg24(b: bool)
    ensures In24(BitReg(b))
  {}

  lemma OddErrorLeavesResidue(bits: seq<bool>)
    requires OddOnes(bits)
    ensures FeedBits(0, bits) != 0
  {
    hide In24;
    In24Zero();
    FeedParity(0, bits);
    OddParityZero(CRC_BITS);
  }

  // ---------- The residue test ----------

  lemma {:induction false} BitsOfSplit(v: Reg, m: nat, n: nat)
    ensures BitsOf(v, m + n) == BitsOf(v, m) + BitsOf(ShrN(v, m), n)
    decreases m
  {
    hide Shr, Lsb;
    if m > 0 {
      BitsOfSplit(Shr(v), m - 1, n);
    }
  }

  lemma ShrByte(c: Reg)
    ensures ShrN(c, 8) == c >> 8
    ensures (c >> 8) >> 8 == c >> 16
  {}

  lemma {:induction false} FitsDetermined(a: Reg, b: Reg, n: nat)
    requires Fits(a, n) && Fits(b, n) && BitsOf(a, n) == BitsOf(b, n)
    ensures a == b
    decreases n
  {
    hide Shr, Lsb;
    if n > 0 {
      var p, q := BitsOf(a, n), BitsOf(b, n);
      assert p[0] == q[0] && p[1..] == q[1..];
      FitsDetermined(Shr(a), Shr(b), n - 1);
      LsbShrDetermine(a, b);
    }
  }

  lemma LsbShrDetermine(a: Reg, b: Reg)
    requires Lsb(a) == Lsb(b) && Shr(a) == Shr(b)
    ensures a == b
  {}

  lemma ByteBitsDetermine(a: Byte, b: Byte)
    requires ByteBits(a) == ByteBits(b)
    ensures a == b
  {
    hide Fits, BitsOf;
    ByteFits(a);
    ByteFits(b);
    FitsDetermined(a as Reg, b as Reg, BYTE_BITS);
    SameReg(a, b);
  }

  lemma SameReg(a: Byte, b: Byte)
    requires a as Reg == b as Reg
    ensures a == b
  {}

  predicate Covers(mask: Reg, n: nat)
    decreases n
  {
    n == 0 || (Lsb(mask) && Covers(Shr(mask), n - 1))
  }

  lemma AndShr(v: Reg, mask: Reg)
    ensures Shr(v & mask) == Shr(v) & Shr(mask)
    ensures Lsb(mask) ==> Lsb(v & mask) == Lsb(v)
  {}

  lemma {:induction false} BitsOfMasked(v: Reg, mask: Reg, n: nat)
    requires Covers(mask, n)
    ensures BitsOf(v & mask, n) == BitsOf(v, n)
    decreases n
  {
    hide Shr, Lsb;
    if n > 0 {
      AndShr(v, mask);
      BitsOfMasked(Shr(v), Shr(mask), n - 1);
    }
  }

  lemma LowByteBits(c: Reg)
    ensures ByteBits(LowByte(c)) == BitsOf(c, 8)
  {
    hide BitsOf;
    Covers8();
    BitsOfMasked(c, 0xFF, 8);
    LowByteReg(c);
  }

  lemma Covers8()
    ensures Covers(0xFF, 8)
  {}

  lemma LowByteReg(c: Reg)
    ensures LowByte(c) as Reg == c & 0xFF
  {}

  lemma RegBytesBits(c: Reg)
    ensures BitsOf(c, 24) == ByteBits(LowByte(c)) + ByteBits(LowByte(c >> 8)) + ByteBits(LowByte(c >> 16))
  {
    hide BitsOf, ShrN, LowByte;
    LowByteBits(c);
    LowByteBits(c >> 8);
    LowByteBits(c >> 16);
    ShrByte(c);
    ShrByte(c >> 8);
    BitsOfSplit(c, 8, 16);
    BitsOfSplit(c >> 8, 8, 8);
  }

  lemma Bits3(t: seq<Byte>)
    requires |t| == 3
    ensures Bits(t) == ByteBits(t[0]) + ByteBits(t[1]) + ByteBits(t[2])
  {
    hide ByteBits;
    assert t[..2][..1] == t[..1] && t[..2][1] == t[1] && t[..1][..0] == [];
    assert Bits(t[..1]) == ByteBits(t[0]);
    assert Bits(t[..2]) == ByteBits(t[0]) + ByteBits(t[1]);
  }

  /** Three more bytes clear the register exactly when they are the register's own bytes. */
  lemma ResidueOfTrailer(c: Reg, t: seq<Byte>)
    requires In24(c) && |t| == 3
    ensures CrcBytes(c, t) == 0 <==> t == RegBytes(c)
  {
    hide In24, CrcBytes, FeedBits, BitsOf, Fits, ByteBits, Bits, LowByte;
    CrcIsBitFeed(c, t);
    Fits24(c);
    ZeroNeedsOwnBits(c, Bits(t));
    RegBytesBits(c);
    Bits3(t);
    if Bits(t) == BitsOf(c, 24) {
      SplitByteBits(t, RegBytes(c));
    }
  }

  lemma SplitByteBits(t: seq<Byte>, u: seq<Byte>)
    requires |t| == |u| == 3
    requires ByteBits(t[0]) + ByteBits(t[1]) + ByteBits(t[2]) == ByteBits(u[0]) + ByteBits(u[1]) + ByteBits(u[2])
    ensures t == u
  {
    hide ByteBits;
    var p, q := ByteBits(t[0]) + ByteBits(t[1]) + ByteBits(t[2]), ByteBits(u[0]) + ByteBits(u[1]) + ByteBits(u[2]);
    assert ByteBits(t[0]) == p[..8] == q[..8] == ByteBits(u[0]);
    assert ByteBits(t[1]) == p[8..16] == q[8..16] == ByteBits(u[1]);
    assert ByteBits(t[2]) == p[16..] == q[16..] == ByteBits(u[2]);
    ByteBitsDetermine(t[0], u[0]);
    ByteBitsDetermine(t[1], u[1]);
    ByteBitsDetermine(t[2], u[2]);
  }
}
