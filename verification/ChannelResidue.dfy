/** Why a keystream is never a CRC codeword. The whitening register in Galois form is a polynomial that
    is multiplied by x at each bit modulo x^7 + x^3 + 1, and multiplying the CRC register by the same
    polynomial turns the two machines into one that is only shifted. A zero residue would then relate two
    short polynomials by a power of x, which `CrcPowers` excludes. Two flipped bits fall to the same fact. */
module ChannelResidue {
  import opened Bytes
  import opened Crc
  import opened CrcAlgebra
  import opened CrcDetection
  import opened CrcPowers
  import opened Whiten
  import opened Keystream

  // ---------- Multiplication by short polynomials ----------

  predicate Low7(v: Reg) { v & 0xFF01_FFFF == 0 }

  /** The contribution of one coefficient of `v` to its product. */
  function Pick(v: Reg, m: Reg, y: Reg): Reg { if v & m != 0 then y else 0 }

  lemma TimesXor(v: Reg, y: Reg)
    ensures var y1 := Step(y); var y2 := Step(y1); var y3 := Step(y2);
            var y4 := Step(y3); var y5 := Step(y4); var y6 := Step(y5);
            Times(v, y) == Xor(Xor(Xor(Xor(Xor(Xor(
              Pick(v, 0x80_0000, y), Pick(v, 0x40_0000, y1)), Pick(v, 0x20_0000, y2)), Pick(v, 0x10_0000, y3)),
              Pick(v, 0x08_0000, y4)), Pick(v, 0x04_0000, y5)), Pick(v, 0x02_0000, y6))
  {
    hide Step, Xor;
  }

  lemma PickStep(v: Reg, m: Reg, y: Reg)
    ensures Step(Pick(v, m, y)) == Pick(v, m, Step(y))
  {
    hide Step;
    Step24Zero();
  }

  lemma Step24Zero()
    ensures Step(0) == 0 && In24(0)
  {}

  lemma StepTimes(v: Reg, y: Reg)
    ensures Step(Times(v, y)) == Times(v, Step(y))
  {
    hide Step, Pick, Xor, Times;
    var y1 := Step(y); var y2 := Step(y1); var y3 := Step(y2);
    var y4 := Step(y3); var y5 := Step(y4); var y6 := Step(y5);
    var p0, p1, p2, p3 := Pick(v, 0x80_0000, y), Pick(v, 0x40_0000, y1), Pick(v, 0x20_0000, y2), Pick(v, 0x10_0000, y3);
    var p4, p5, p6 := Pick(v, 0x08_0000, y4), Pick(v, 0x04_0000, y5), Pick(v, 0x02_0000, y6);
    TimesXor(v, y);
    TimesXor(v, y1);
    PickStep(v, 0x80_0000, y); PickStep(v, 0x40_0000, y1); PickStep(v, 0x20_0000, y2); PickStep(v, 0x10_0000, y3);
    PickStep(v, 0x08_0000, y4); PickStep(v, 0x04_0000, y5); PickStep(v, 0x02_0000, y6);
    var s1 := Xor(p0, p1); var s2 := Xor(s1, p2); var s3 := Xor(s2, p3); var s4 := Xor(s3, p4); var s5 := Xor(s4, p5);
    StepXor(p0, p1); StepXor(s1, p2); StepXor(s2, p3); StepXor(s3, p4); StepXor(s4, p5); StepXor(s5, p6);
  }

  lemma TimesOne(v: Reg)
    requires Low7(v)
    ensures Times(v, ONE) == v
  {}

  /** A short polynomial times x^n. */
  lemma {:induction false} ShiftIsTimes(v: Reg, n: nat)
    requires Low7(v)
    ensures StepN(v, n) == Times(v, StepN(ONE, n))
    decreases n
  {
    hide Step, Times, Low7;
    if n == 0 {
      TimesOne(v);
    } else {
      ShiftIsTimes(v, n - 1);
      StepTimes(v, StepN(ONE, n - 1));
    }
  }

  lemma ShortFacts(v: Reg)
    ensures Short(v) ==> Low7(v)
    ensures Low7(v) ==> !Long(v) && In24(v) && (v != 0 ==> Short(v))
    ensures Low7(ONE) && Short(ONE) && Short(0x40_0000)
  {}

  /** x^(8n) times a nonzero short polynomial is never short. */
  lemma ShiftedShortIsLong(v: Reg, n: nat)
    requires Short(v) && 1 <= n <= 260
    ensures Long(StepN(v, 8 * n))
  {
    hide Step, StepN, Times, Short, Long;
    PowersSpread(n);
    assert StaysLong(v, Power(8 * n));
    ShortFacts(v);
    ShiftIsTimes(v, 8 * n);
  }

  lemma StepNInjective(a: Reg, b: Reg, n: nat)
    requires In24(a) && In24(b) && StepN(a, n) == StepN(b, n)
    ensures a == b
  {
    hide StepN, Xor, In24;
    Xor24(a, b);
    StepNXor(a, b, n);
    StepN24(Xor(a, b), n);
    XorZero(a, b);
    XorZero(StepN(a, n), StepN(b, n));
  }

  // ---------- The whitening register as a polynomial ----------

  /** x^7 + x^3 + 1. */
  const GALOIS_POLY: Reg := 0x91_0000

  /** The state whose output from the top coefficient is the output of `l`. */
  function Galois(l: Lfsr): Reg {
    (((l >> 6) & 1) as Reg << 17) | (((l >> 5) & 1) as Reg << 18) | (((l >> 4) & 1) as Reg << 19) | (((l >> 3) & 1) as Reg << 20)
      | ((((l >> 2) ^ (l >> 6)) & 1) as Reg << 21) | ((((l >> 1) ^ (l >> 5)) & 1) as Reg << 22) | (((l ^ (l >> 4)) & 1) as Reg << 23)
  }

  function Carry(b: bool): Reg { if b then GALOIS_POLY else 0 }

  lemma GaloisNext(l: Lfsr)
    requires Seven(l)
    ensures Xor(Step(Galois(l)), Carry(Top(l))) == Galois(Next(l))
  {}

  lemma GaloisShort(l: Lfsr)
    requires Seven(l)
    ensures Low7(Galois(l)) && (l != 0 ==> Galois(l) != 0)
  {}

  /** Multiplication of a CRC register by x^7 + x^3 + 1. */
  function Scale(c: Reg): Reg { Xor(Xor(StepN(c, 7), StepN(c, 3)), c) }

  function Lift(c: Reg): Reg { StepN(c, CRC_BITS) }

  lemma ScaleXor(a: Reg, b: Reg)
    ensures Scale(Xor(a, b)) == Xor(Scale(a), Scale(b))
  {
    hide StepN, Xor;
    StepNXor(a, b, 7);
    StepNXor(a, b, 3);
    XorSwap(StepN(a, 7), StepN(b, 7), StepN(a, 3), StepN(b, 3));
    XorSwap(Xor(StepN(a, 7), StepN(a, 3)), Xor(StepN(b, 7), StepN(b, 3)), a, b);
  }

  lemma {:induction false} ScaleStepN(c: Reg, n: nat)
    ensures Scale(StepN(c, n)) == StepN(Scale(c), n)
  {
    hide StepN, Xor;
    StepNAdd(c, n, 7);
    StepNAdd(c, 7, n);
    StepNAdd(c, n, 3);
    StepNAdd(c, 3, n);
    StepNXor(Xor(StepN(c, 7), StepN(c, 3)), c, n);
    StepNXor(StepN(c, 7), StepN(c, 3), n);
  }

  lemma ScaleZero()
    ensures Scale(0) == 0
  {
    hide StepN, Xor;
    Step24Zero();
    StepN24(0, 7);
    StepN24(0, 3);
    XorUnit(0);
  }

  lemma ScaleOne()
    ensures Scale(ONE) == GALOIS_POLY
  {}

  lemma ShiftOne()
    ensures StepN(ONE, 23) == 1
  {
    hide Step;
    ShiftOneEight(ONE);
    ShiftOneEight(0x8000);
    StepNAdd(ONE, 8, 8);
    StepNAdd(ONE, 16, 7);
    ShiftOneSeven();
  }

  lemma ShiftOneEight(c: Reg)
    requires c == ONE || c == 0x8000
    ensures StepN(c, 8) == c >> 8
  {}

  lemma ShiftOneSeven()
    ensures StepN(0x80, 7) == 1
  {}

  /** Feeding a keystream bit adds the carry of the Galois register. */
  lemma LiftCarry(b: bool)
    ensures Lift(Carry(b)) == Step(Scale(BitReg(b)))
  {
    hide Step, StepN, Scale, Xor;
    Step24Zero();
    ScaleZero();
    StepN24(0, CRC_BITS);
    ScaleOne();
    ScaleStepN(ONE, CRC_BITS);
    ShiftOne();
    StepNAdd(ONE, 23, 1);
    ScaleStepN(1, 1);
    StepNOne(1);
    StepNOne(Scale(1));
  }

  lemma StepNOne(c: Reg)
    ensures StepN(c, 1) == Step(c)
  {
    hide Step;
  }

  // ---------- The combined machine ----------

  /** The CRC register, scaled, plus the whitening register. */
  function Combined(c: Reg, l: Lfsr): Reg { Xor(Scale(c), Lift(Galois(l))) }

  /** While the keystream is fed to the CRC, the combined register is only shifted. */
  lemma CombinedStep(c: Reg, l: Lfsr)
    requires Seven(l)
    ensures Combined(FeedBit(c, Top(l)), Next(l)) == Step(Combined(c, l))
  {
    hide Step, StepN, Scale, Lift, Xor, Seven, Galois, Carry, Top, Next, BitReg;
    var k := BitReg(Top(l));
    ScaleStep(Xor(c, k));
    ScaleXor(c, k);
    StepXor(Scale(c), Scale(k));
    GaloisNext(l);
    LiftXor(Step(Galois(l)), Carry(Top(l)));
    LiftStep(Galois(l));
    LiftCarry(Top(l));
    var a, b, d := Step(Scale(c)), Step(Scale(k)), Step(Lift(Galois(l)));
    XorSwap(a, b, d, b);
    XorUnit(b);
    XorUnit(Xor(a, d));
    StepXor(Scale(c), Lift(Galois(l)));
  }

  lemma ScaleStep(c: Reg)
    ensures Scale(Step(c)) == Step(Scale(c))
  {
    hide Step, Scale;
    ScaleStepN(c, 1);
    StepNOne(c);
    StepNOne(Scale(c));
  }

  lemma LiftXor(a: Reg, b: Reg)
    ensures Lift(Xor(a, b)) == Xor(Lift(a), Lift(b))
  {
    hide StepN, Xor;
    StepNXor(a, b, CRC_BITS);
  }

  lemma LiftStep(c: Reg)
    ensures Lift(Step(c)) == Step(Lift(c))
  {
    hide Step, StepN;
    StepNAdd(c, 1, CRC_BITS);
    StepNAdd(c, CRC_BITS, 1);
    StepNOne(c);
    StepNOne(StepN(c, CRC_BITS));
  }

  lemma {:induction false} CombinedRun(c: Reg, l: Lfsr, n: nat)
    requires Seven(l)
    ensures Combined(FeedBits(c, StreamBits(l, n)), Advance(l, n)) == StepN(Combined(c, l), n)
    ensures Seven(Advance(l, n))
    decreases n
  {
    hide Step, Combined, Seven, Next, Top, FeedBit;
    if n > 0 {
      NextSeven(l);
      var bits := StreamBits(l, n);
      assert bits[1..] == StreamBits(Next(l), n - 1);
      CombinedRun(FeedBit(c, Top(l)), Next(l), n - 1);
      CombinedStep(c, l);
      StepNFront(Combined(c, l), n);
    }
  }

  /** A nonzero whitening register never produces a codeword. */
  lemma StreamLeavesResidue(l: Lfsr, n: nat)
    requires Seven(l) && l != 0 && 1 <= n <= 260
    ensures FeedBits(0, StreamBits(l, 8 * n)) != 0
  {
    hide Step, StepN, Seven, Galois, Long, Short, Low7, Scale, Xor, In24, FeedBits, StreamBits;
    var last := Advance(l, 8 * n);
    CombinedRun(0, l, 8 * n);
    GaloisShort(l);
    GaloisShort(last);
    ShortFacts(Galois(l));
    ShortFacts(Galois(last));
    ShiftedShortIsLong(Galois(l), n);
    if FeedBits(0, StreamBits(l, 8 * n)) == 0 {
      ScaleZero();
      XorUnit(Lift(Galois(last)));
      XorUnit(Lift(Galois(l)));
      StepNAdd(Galois(l), CRC_BITS, 8 * n);
      StepNAdd(Galois(l), 8 * n, CRC_BITS);
      StepN24(Galois(l), 8 * n);
      StepNInjective(StepN(Galois(l), 8 * n), Galois(last), CRC_BITS);
    }
  }

  lemma {:induction false} StreamSplit(l: Lfsr, m: nat, n: nat)
    ensures StreamBits(l, m + n) == StreamBits(l, m) + StreamBits(Advance(l, m), n)
    ensures Advance(l, m + n) == Advance(Advance(l, m), n)
    decreases m
  {
    hide Next, Top;
    if m > 0 {
      StreamSplit(Next(l), m - 1, n);
    }
  }

  lemma AdvanceByte(l: Lfsr)
    ensures Advance(l, 8) == NextByte(l)
  {
    hide Next, NextN, Pack8;
    KeyByteUnfold(l);
  }

  /** The keystream bytes are the keystream bits. */
  lemma {:induction false} KeyStreamBits(l: Lfsr, n: nat)
    ensures Bits(KeyStream(l, n)) == StreamBits(l, 8 * n)
    ensures Advance(l, 8 * n) == StateAfter(l, n)
    decreases n
  {
    hide Next, Top, KeyByte, NextByte, ByteBits, StreamBits, Advance, Bits, KeyStream;
    if n == 0 {
      StreamEmpty(l);
    } else {
      KeyStreamBits(l, n - 1);
      var last := StateAfter(l, n - 1);
      KeyStreamSnoc(l, n - 1);
      BitsSnoc(KeyStream(l, n - 1), KeyByte(last));
      KeyByteBits(last);
      AdvanceByte(last);
      StreamSplit(l, 8 * (n - 1), 8);
    }
  }

  lemma KeyStreamSnoc(l: Lfsr, n: nat)
    ensures KeyStream(l, n + 1) == KeyStream(l, n) + [KeyByte(StateAfter(l, n))]
  {
    hide KeyByte, StateAfter;
  }

  lemma BitsSnoc(data: seq<Byte>, b: Byte)
    ensures Bits(data + [b]) == Bits(data) + ByteBits(b)
  {
    hide ByteBits;
    assert (data + [b])[..|data|] == data;
  }

  lemma StreamEmpty(l: Lfsr)
    ensures StreamBits(l, 0) == [] && Advance(l, 0) == l
    ensures Bits(KeyStream(l, 0)) == []
  {}

  /** The keystream of a live register, fed to an empty CRC, leaves a nonzero residue. */
  lemma KeyStreamLeavesResidue(l: Lfsr, n: nat)
    requires Seven(l) && l != 0 && 1 <= n <= 260
    ensures CrcBytes(0, KeyStream(l, n)) != 0
  {
    hide Seven, In24, FeedBits, StreamBits, CrcBytes, KeyStream, Bits;
    Step24Zero();
    CrcIsBitFeed(0, KeyStream(l, n));
    KeyStreamBits(l, n);
    StreamLeavesResidue(l, n);
  }

  // ---------- Two flipped bits ----------

  /** No power of x below the length of a packet is 1. */
  lemma PowerNotOne(d: nat)
    requires 1 <= d < 2080
    ensures StepN(ONE, d) != ONE
  {
    hide Step, StepN, Long, Short;
    var n, j := (d + 7) / 8, (d + 7) / 8 * 8 - d;
    ShortFacts(ONE);
    if StepN(ONE, d) == ONE {
      if j < 7 {
        StepNAdd(ONE, d, j);
        ShiftedShortIsLong(ONE, n);
        SmallPower(j);
      } else if d == 1 {
        SmallPower(1);
      } else {
        ShiftedShortIsLong(0x40_0000, n - 1);
        SmallPower(1);
        StepNAdd(ONE, 1, 8 * (n - 1));
      }
    }
  }

  lemma SmallPower(j: nat)
    requires j < 7
    ensures !Long(StepN(ONE, j))
    ensures StepN(ONE, 1) == 0x40_0000
    ensures StepN(ONE, 1) != ONE && !Long(ONE)
  {
    assert StepN(ONE, 2) == 0x20_0000;
    assert StepN(ONE, 4) == 0x08_0000;
  }

  /** Exactly the bits at `p` and `q` are set. */
  predicate TwoOnes(bits: seq<bool>, p: nat, q: nat) {
    p < q < |bits| && forall i :: 0 <= i < |bits| ==> (bits[i] <==> i == p || i == q)
  }

  lemma TwoOnesLeaveResidue(bits: seq<bool>, p: nat, q: nat)
    requires TwoOnes(bits, p, q) && |bits| <= 2080
    ensures FeedBits(0, bits) != 0
  {
    hide Step, StepN, Xor, In24, FeedBit, FeedBits, Silent;
    var pre, mid, post := bits[..p], bits[p + 1..q], bits[q + 1..];
    TwoOnesSplit(bits, p, q);
    Step24Zero();
    FeedConcat(0, pre, [true] + (mid + ([true] + post)));
    FeedSilence(0, pre);
    StepN24(0, p);
    FeedOne(0, mid + ([true] + post));
    FeedConcat(FeedBit(0, true), mid, [true] + post);
    FeedSilence(FeedBit(0, true), mid);
    var r := StepN(FeedBit(0, true), |mid|);
    FeedOne(r, post);
    FeedSilence(FeedBit(r, true), post);
    TwoOnesRegister(q - p);
    StepN24(FeedBit(r, true), |post|);
  }

  lemma TwoOnesSplit(bits: seq<bool>, p: nat, q: nat)
    requires TwoOnes(bits, p, q)
    ensures bits == bits[..p] + ([true] + (bits[p + 1..q] + ([true] + bits[q + 1..])))
    ensures Silent(bits[..p]) && Silent(bits[p + 1..q]) && Silent(bits[q + 1..])
  {
    assert bits == bits[..p] + bits[p..] && bits[p..] == [true] + bits[p + 1..];
    assert bits[p + 1..] == bits[p + 1..q] + bits[q..] && bits[q..] == [true] + bits[q + 1..];
  }

  lemma FeedOne(c: Reg, bits: seq<bool>)
    ensures FeedBits(c, [true] + bits) == FeedBits(FeedBit(c, true), bits)
  {
    hide FeedBit;
    assert ([true] + bits)[1..] == bits;
  }

  /** Feeding a second one `d` bits after the first leaves a nonzero 24-bit register. */
  lemma TwoOnesRegister(d: nat)
    requires 1 <= d < 2080
    ensures var r := FeedBit(StepN(FeedBit(0, true), d - 1), true); In24(r) && r != 0
  {
    hide Step, StepN, Xor, In24;
    OneFacts();
    XorUnit(1);
    StepNFront(1, d);
    var r := StepN(1, d);
    StepN24(1, d);
    Xor24(r, 1);
    Step24(Xor(r, 1));
    if Xor(r, 1) == 0 {
      XorZero(r, 1);
      ShiftOne();
      StepNAdd(ONE, 23, d);
      StepNAdd(ONE, d, 23);
      StepN24(ONE, d);
      StepNInjective(StepN(ONE, d), ONE, 23);
      PowerNotOne(d);
    }
  }

  lemma OneFacts()
    ensures In24(1) && In24(ONE) && BitReg(true) == 1
  {}
}
