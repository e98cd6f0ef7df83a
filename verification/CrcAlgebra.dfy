/** The CRC register as a linear machine over bit streams: superposition, injectivity, and the fact
    that only its own low bits can bring a register back to zero. The bit-vector facts are one-line
    lemmas about the named operations `Xor`, `Shr` and `Lsb`; the inductions treat these as abstract. */
module CrcAlgebra {
  import opened Bytes
  import opened Crc

  function Xor(a: Reg, b: Reg): Reg { a ^ b }

  function Shr(c: Reg): Reg { c >> 1 }

  predicate Lsb(c: Reg) { c & 1 != 0 }

  function BitReg(b: bool): Reg { if b then 1 else 0 }

  // ---------- Bit streams, least significant bit of each byte first ----------

  function BitsOf(v: Reg, n: nat): (r: seq<bool>)
    ensures |r| == n
    decreases n
  {
    if n == 0 then [] else [Lsb(v)] + BitsOf(Shr(v), n - 1)
  }

  function ShrN(v: Reg, m: nat): Reg
    decreases m
  {
    if m == 0 then v else ShrN(Shr(v), m - 1)
  }

  function ByteBits(b: Byte): (r: seq<bool>)
    ensures |r| == 8
  {
    BitsOf(b as Reg, BYTE_BITS)
  }

  function Bits(data: seq<Byte>): (r: seq<bool>)
    ensures |r| == 8 * |data|
  {
    if data == [] then [] else Bits(data[..|data| - 1]) + ByteBits(data[|data| - 1])
  }

  function FeedBit(c: Reg, b: bool): Reg { Step(Xor(c, BitReg(b))) }

  function FeedBits(c: Reg, bits: seq<bool>): Reg
    decreases |bits|
  {
    if bits == [] then c else FeedBits(FeedBit(c, bits[0]), bits[1..])
  }

  // ---------- Bit-vector facts ----------

  lemma XorAssoc(a: Reg, b: Reg, c: Reg)
    ensures Xor(Xor(a, b), c) == Xor(a, Xor(b, c))
  {}

  lemma XorComm(a: Reg, b: Reg)
    ensures Xor(a, b) == Xor(b, a)
  {}

  lemma XorUnit(a: Reg)
    ensures Xor(a, 0) == a && Xor(0, a) == a && Xor(a, a) == 0
  {}

  lemma XorZero(a: Reg, b: Reg)
    ensures Xor(a, b) == 0 <==> a == b
  {
    hide Xor;
    XorAssoc(a, b, b);
    XorUnit(a);
    XorUnit(b);
  }

  lemma ShrXor(a: Reg, b: Reg)
    ensures Shr(Xor(a, b)) == Xor(Shr(a), Shr(b))
  {}

  lemma LsbXor(a: Reg, b: Reg)
    ensures Lsb(Xor(a, b)) == (Lsb(a) != Lsb(b))
  {}

  lemma StepCases(c: Reg)
    ensures Step(c) == if Lsb(c) then Xor(Shr(c), CRC_REFLECTED_POLY) else Shr(c)
  {}

  lemma StepBit(b: bool)
    ensures Step(BitReg(b)) == if b then CRC_REFLECTED_POLY else 0
    ensures Lsb(BitReg(b)) == b && Shr(BitReg(b)) == 0
  {}

  lemma Step24(c: Reg)
    requires In24(c)
    ensures In24(Step(c)) && In24(Shr(c))
    ensures Step(c) == 0 <==> c == 0
  {}

  lemma Xor24(a: Reg, b: Reg)
    requires In24(a) && In24(b)
    ensures In24(Xor(a, b))
  {}

  lemma Xor24Byte(c: Reg, b: Byte)
    requires In24(c)
    ensures In24(XorIn(c, b)) && In24(b as Reg) && XorIn(c, b) == Xor(c, b as Reg)
  {}

  lemma Low24Id(c: Reg)
    requires In24(c)
    ensures Low24(c) == c
  {}

  // ---------- Superposition ----------

  lemma XorSwap(a: Reg, b: Reg, c: Reg, d: Reg)
    ensures Xor(Xor(a, b), Xor(c, d)) == Xor(Xor(a, c), Xor(b, d))
  {
    hide Xor;
    XorAssoc(Xor(a, b), c, d);
    XorAssoc(a, b, c);
    XorComm(b, c);
    XorAssoc(a, c, b);
    XorAssoc(Xor(a, c), b, d);
  }

  lemma StepXor(a: Reg, b: Reg)
    ensures Step(Xor(a, b)) == Xor(Step(a), Step(b))
  {
    hide Step, Xor, Shr, Lsb;
    StepCases(a);
    StepCases(b);
    StepCases(Xor(a, b));
    LsbXor(a, b);
    ShrXor(a, b);
    var p := CRC_REFLECTED_POLY;
    XorSwap(Shr(a), p, Shr(b), p);
    XorUnit(p);
    XorUnit(Xor(Shr(a), Shr(b)));
    XorAssoc(Shr(a), Shr(b), p);
    XorAssoc(Shr(a), p, Shr(b));
    XorComm(p, Shr(b));
  }

  lemma {:induction false} StepNXor(a: Reg, b: Reg, n: nat)
    ensures StepN(Xor(a, b), n) == Xor(StepN(a, n), StepN(b, n))
    decreases n
  {
    hide Step, Xor;
    if n > 0 {
      StepNXor(a, b, n - 1);
      StepXor(StepN(a, n - 1), StepN(b, n - 1));
    }
  }

  lemma {:induction false} StepNAdd(c: Reg, m: nat, n: nat)
    ensures StepN(StepN(c, m), n) == StepN(c, m + n)
    decreases n
  {
    hide Step;
    if n > 0 {
      StepNAdd(c, m, n - 1);
    }
  }

  lemma {:induction false} StepN24(c: Reg, n: nat)
    requires In24(c)
    ensures In24(StepN(c, n))
    ensures StepN(c, n) == 0 <==> c == 0
    decreases n
  {
    hide Step, In24;
    if n > 0 {
      StepN24(c, n - 1);
      Step24(StepN(c, n - 1));
    }
  }

  lemma CrcByte24(c: Reg, b: Byte)
    requires In24(c)
    ensures CrcByte(c, b) == StepN(Xor(c, b as Reg), BYTE_BITS) && In24(CrcByte(c, b))
  {
    hide Step, StepN, Xor, XorIn, In24, Low24;
    Xor24Byte(c, b);
    StepN24(XorIn(c, b), BYTE_BITS);
    Low24Id(StepN(XorIn(c, b), BYTE_BITS));
  }

  lemma XorByteReg(a: Byte, b: Byte)
    ensures XorByte(a, b) as Reg == Xor(a as Reg, b as Reg)
  {}

  lemma CrcByteXor(c: Reg, d: Reg, a: Byte, b: Byte)
    requires In24(c) && In24(d)
    ensures In24(Xor(c, d))
    ensures CrcByte(Xor(c, d), XorByte(a, b)) == Xor(CrcByte(c, a), CrcByte(d, b))
  {
    hide Step, StepN, Xor, In24, CrcByte, XorByte;
    Xor24(c, d);
    CrcByte24(c, a);
    CrcByte24(d, b);
    CrcByte24(Xor(c, d), XorByte(a, b));
    XorByteReg(a, b);
    XorSwap(c, d, a as Reg, b as Reg);
    StepNXor(Xor(c, a as Reg), Xor(d, b as Reg), BYTE_BITS);
  }

  lemma {:induction false} CrcBytes24(c: Reg, data: seq<Byte>)
    requires In24(c)
    ensures In24(CrcBytes(c, data))
    decreases |data|
  {
    hide In24, CrcByte;
    if data != [] {
      var n := |data| - 1;
      CrcBytes24(c, data[..n]);
      CrcByte24(CrcBytes(c, data[..n]), data[n]);
    }
  }

  lemma XorBytesInit(a: seq<Byte>, b: seq<Byte>, n: nat)
    requires |a| == |b| && n <= |a|
    ensures XorBytes(a, b)[..n] == XorBytes(a[..n], b[..n])
  {
    hide XorByte;
  }

  /** The register is a linear function of its start value and the data. */
  lemma {:induction false} CrcSuperposition(c: Reg, d: Reg, a: seq<Byte>, b: seq<Byte>)
    requires |a| == |b| && In24(c) && In24(d)
    ensures CrcBytes(Xor(c, d), XorBytes(a, b)) == Xor(CrcBytes(c, a), CrcBytes(d, b))
    decreases |a|
  {
    hide Xor, In24, CrcByte, XorByte;
    if a != [] {
      var n := |a| - 1;
      XorBytesInit(a, b, n);
      CrcSuperposition(c, d, a[..n], b[..n]);
      CrcBytes24(c, a[..n]);
      CrcBytes24(d, b[..n]);
      CrcByteXor(CrcBytes(c, a[..n]), CrcBytes(d, b[..n]), a[n], b[n]);
    }
  }

  // ---------- Bytes as bits ----------

  lemma {:induction false} FeedConcat(c: Reg, a: seq<bool>, b: seq<bool>)
    ensures FeedBits(c, a + b) == FeedBits(FeedBits(c, a), b)
    decreases |a|
  {
    hide FeedBit;
    if a == [] {
      assert a + b == b;
    } else {
      assert (a + b)[0] == a[0] && (a + b)[1..] == a[1..] + b;
      FeedConcat(FeedBit(c, a[0]), a[1..], b);
    }
  }

  lemma {:induction false} BitsOfAt(v: Reg, n: nat, i: nat)
    requires i < n
    ensures BitsOf(v, n)[i] == Lsb(ShrN(v, i))
    decreases n
  {
    hide Shr, Lsb;
    if i > 0 {
      BitsOfAt(Shr(v), n - 1, i - 1);
    }
  }

  /** `v` has no bits from position `n` up. */
  predicate Fits(v: Reg, n: nat)
    decreases n
  {
    if n == 0 then v == 0 else Fits(Shr(v), n - 1)
  }

  lemma ByteFits(b: Byte)
    ensures Fits(b as Reg, BYTE_BITS)
  {}

  /** Feeding a bit and shifting in the rest is one step on the sum. */
  lemma StepSplit(c: Reg, v: Reg)
    ensures Step(Xor(c, v)) == Xor(FeedBit(c, Lsb(v)), Shr(v))
  {
    hide Step, Xor, Shr, Lsb, BitReg;
    var b := BitReg(Lsb(v));
    StepXor(c, v);
    StepXor(c, b);
    StepCases(v);
    StepBit(Lsb(v));
    XorUnit(Step(c));
    XorAssoc(Step(c), CRC_REFLECTED_POLY, Shr(v));
    XorComm(CRC_REFLECTED_POLY, Shr(v));
  }

  lemma {:induction false} StepNFront(c: Reg, n: nat)
    requires n > 0
    ensures StepN(c, n) == StepN(Step(c), n - 1)
  {
    hide Step;
    StepNAdd(c, 1, n - 1);
  }

  /** Feeding the low `n` bits of a value one at a time is adding the value and shifting `n` times. */
  lemma {:induction false} FeedValue(c: Reg, v: Reg, n: nat)
    requires Fits(v, n)
    ensures FeedBits(c, BitsOf(v, n)) == StepN(Xor(c, v), n)
    decreases n
  {
    hide Step, Xor, Shr, Lsb, FeedBit;
    if n == 0 {
      XorUnit(c);
    } else {
      var bits := BitsOf(v, n);
      assert bits[1..] == BitsOf(Shr(v), n - 1);
      FeedValue(FeedBit(c, Lsb(v)), Shr(v), n - 1);
      StepSplit(c, v);
      StepNFront(Xor(c, v), n);
    }
  }

  /** The byte-at-a-time register is the bit-at-a-time register. */
  lemma {:induction false} CrcIsBitFeed(c: Reg, data: seq<Byte>)
    requires In24(c)
    ensures CrcBytes(c, data) == FeedBits(c, Bits(data)) && In24(CrcBytes(c, data))
    decreases |data|
  {
    hide Xor, In24, CrcByte, FeedBit, StepN, BitsOf, Fits;
    if data != [] {
      var n := |data| - 1;
      CrcIsBitFeed(c, data[..n]);
      var mid := CrcBytes(c, data[..n]);
      CrcByte24(mid, data[n]);
      ByteFits(data[n]);
      FeedValue(mid, data[n] as Reg, BYTE_BITS);
      FeedConcat(c, Bits(data[..n]), ByteBits(data[n]));
    }
  }
}
