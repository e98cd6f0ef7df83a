/** The reflected CRC is the textbook one: an MSB-first shift register with the normal-form polynomial,
    fed each byte least significant bit first, holds the bit reversal of the source's register. */
module CrcRefinement {
  import opened Bytes
  import opened Crc
  import opened CrcAlgebra

  /** Reverses 24 bits by swapping neighbours, pairs, nibbles and bytes. */
  function Reverse24(v: Reg): Reg {
    var a := ((v & 0x55_5555) << 1) | ((v >> 1) & 0x55_5555);
    var b := ((a & 0x33_3333) << 2) | ((a >> 2) & 0x33_3333);
    var c := ((b & 0x0F_0F0F) << 4) | ((b >> 4) & 0x0F_0F0F);
    ((c & 0xFF) << 16) | (c & 0xFF00) | (c >> 16)
  }

  /** One bit into the MSB-first register with polynomial `CRC_POLY`. */
  function NormalStep(n: Reg, bit: bool): Reg {
    if (n & 0x80_0000 != 0) != bit then Low24(n << 1) ^ CRC_POLY else Low24(n << 1)
  }

  function NormalFeed(n: Reg, bits: seq<bool>): Reg
    decreases |bits|
  {
    if bits == [] then n else NormalFeed(NormalStep(n, bits[0]), bits[1..])
  }

  lemma Reverse24Involution(v: Reg)
    requires In24(v)
    ensures Reverse24(Reverse24(v)) == v && In24(Reverse24(v))
  {}

  lemma ReverseXor(a: Reg, b: Reg)
    ensures Reverse24(Xor(a, b)) == Xor(Reverse24(a), Reverse24(b))
  {}

  predicate Msb(n: Reg) { n & 0x80_0000 != 0 }

  function ShiftUp(n: Reg): Reg { Low24(n << 1) }

  lemma ReverseShift(n: Reg)
    requires In24(n)
    ensures Reverse24(ShiftUp(n)) == Shr(Reverse24(n)) && Lsb(Reverse24(n)) == Msb(n)
    ensures In24(ShiftUp(n)) && In24(Xor(ShiftUp(n), CRC_POLY))
  {}

  /** The stored polynomial is the bit reversal of the normal-form one. */
  lemma ReversePoly()
    ensures Reverse24(CRC_POLY) == CRC_REFLECTED_POLY
  {}

  lemma NormalCases(n: Reg, bit: bool)
    ensures NormalStep(n, bit) == if Msb(n) != bit then Xor(ShiftUp(n), CRC_POLY) else ShiftUp(n)
  {}

  lemma StepsAgree(n: Reg, bit: bool)
    requires In24(n)
    ensures Reverse24(NormalStep(n, bit)) == FeedBit(Reverse24(n), bit) && In24(NormalStep(n, bit))
  {
    hide In24, Reverse24, NormalStep, Step, Xor, Shr, Lsb, Msb, ShiftUp, BitReg;
    var r := Reverse24(n);
    NormalCases(n, bit);
    ReverseXor(ShiftUp(n), CRC_POLY);
    ReversePoly();
    ReverseShift(n);
    StepCases(Xor(r, BitReg(bit)));
    LsbXor(r, BitReg(bit));
    ShrXor(r, BitReg(bit));
    StepBit(bit);
    XorUnit(Shr(r));
  }

  lemma {:induction false} FeedsAgree(n: Reg, bits: seq<bool>)
    requires In24(n)
    ensures In24(NormalFeed(n, bits))
    ensures FeedBits(Reverse24(n), bits) == Reverse24(NormalFeed(n, bits))
    decreases |bits|
  {
    hide In24, Reverse24, NormalStep, FeedBit;
    if bits != [] {
      StepsAgree(n, bits[0]);
      FeedsAgree(NormalStep(n, bits[0]), bits[1..]);
    }
  }

  // ---------- The loop of `reflect` ----------

  function Push(r: Reg, v: Reg): Reg { (r << 1) | (v & 1) }

  lemma ReflectOne(v: Reg, r: Reg, n: nat)
    ensures ReflectLoop(v, r, n + 1) == ReflectLoop(Shr(v), Push(r, v), n)
  {}

  lemma ReflectThree(v: Reg, r: Reg, n: nat)
    ensures ReflectLoop(v, r, n + 3) == ReflectLoop(Shr3(v), Push3(r, v), n)
  {
    hide ReflectLoop, Push, Shr;
    ReflectOne(v, r, n + 2);
    ReflectOne(Shr(v), Push(r, v), n + 1);
    ReflectOne(Shr(Shr(v)), Push(Push(r, v), Shr(v)), n);
    PushThree(v, r);
  }

  function Shr3(v: Reg): Reg { v >> 3 }

  function Push3(r: Reg, v: Reg): Reg { (r << 3) | ((v & 1) << 2) | (v & 2) | ((v & 4) >> 2) }

  lemma PushThree(v: Reg, r: Reg)
    ensures Push(Push(Push(r, v), Shr(v)), Shr(Shr(v))) == Push3(r, v)
    ensures Shr(Shr(Shr(v))) == Shr3(v)
  {}

  /** `reflect` reverses the low 24 bits. */
  lemma ReflectIsReverse(v: Reg)
    requires In24(v)
    ensures Reflected(v, CRC_BITS) == Reverse24(v)
  {
    hide ReflectLoop, Push3, Shr3, Reverse24;
    var v1 := Shr3(v); var v2 := Shr3(v1); var v3 := Shr3(v2); var v4 := Shr3(v3);
    var v5 := Shr3(v4); var v6 := Shr3(v5); var v7 := Shr3(v6);
    var r1 := Push3(0, v); var r2 := Push3(r1, v1); var r3 := Push3(r2, v2); var r4 := Push3(r3, v3);
    var r5 := Push3(r4, v4); var r6 := Push3(r5, v5); var r7 := Push3(r6, v6); var r8 := Push3(r7, v7);
    ReflectThree(v, 0, 21);
    ReflectThree(v1, r1, 18);
    ReflectThree(v2, r2, 15);
    ReflectThree(v3, r3, 12);
    ReflectThree(v4, r4, 9);
    ReflectThree(v5, r5, 6);
    ReflectThree(v6, r6, 3);
    ReflectThree(v7, r7, 0);
    ReflectDone(Shr3(v7), r8);
    PushAll(v);
  }

  lemma ReflectDone(v: Reg, r: Reg)
    ensures ReflectLoop(v, r, 0) == r
  {}

  lemma PushAll(v: Reg)
    requires In24(v)
    ensures Push3(Push3(Push3(Push3(Push3(Push3(Push3(Push3(0, v), Shr3(v)), Shr3(Shr3(v))), Shr3(Shr3(Shr3(v)))),
              Shr3(Shr3(Shr3(Shr3(v))))), Shr3(Shr3(Shr3(Shr3(Shr3(v)))))), Shr3(Shr3(Shr3(Shr3(Shr3(Shr3(v))))))),
              Shr3(Shr3(Shr3(Shr3(Shr3(Shr3(Shr3(v)))))))) == Reverse24(v)
  {}

  // ---------- The refinement ----------

  lemma Low24Fits(c: Reg)
    ensures In24(Low24(c))
  {}

  /** `reflect` over 24 bits is its own inverse. */
  lemma ReflectInvolution(v: Reg)
    requires In24(v)
    ensures Reflected(Reflected(v, CRC_BITS), CRC_BITS) == v && In24(Reflected(v, CRC_BITS))
  {
    hide Reflected, Reverse24, In24;
    Reverse24Involution(v);
    ReflectIsReverse(v);
    ReflectIsReverse(Reverse24(v));
  }

  /** For every buffer and initial value, `crc24_with_init` is the reflection of the normal-form register
      after the same bits. */
  lemma CrcRefinesNormalForm(data: seq<Byte>, init: Reg)
    ensures Crc24WithInit(data, init) == Reflected(NormalFeed(Low24(init), Bits(data)), CRC_BITS)
  {
    hide Reflected, Reverse24, In24, CrcBytes, FeedBits, NormalFeed, Bits, Low24;
    var n := Low24(init);
    Low24Fits(init);
    ReflectIsReverse(n);
    Reverse24Involution(n);
    FeedsAgree(n, Bits(data));
    CrcIsBitFeed(Reverse24(n), data);
    ReflectIsReverse(NormalFeed(n, Bits(data)));
  }

  /** `crc24` and the bytes that `append_crc` writes: the normal-form register starts at 0x555555. */
  lemma Crc24FromStart(data: seq<Byte>)
    ensures Crc24(data) == Reflected(NormalFeed(0x55_5555, Bits(data)), 24)
  {
    hide Crc24WithInit, Reflected, NormalFeed, Bits;
    CrcRefinesNormalForm(data, 0x55_5555);
  }

  lemma StartValue()
    ensures Reflected(Low24(0x55_5555), CRC_BITS) == 0xAA_AAAA
  {
    hide Reflected;
    ReflectIsReverse(0x55_5555);
  }

  /** Each step of the check value, from the register before it. */
  lemma CheckSteps()
    ensures CrcByte(0xAAAAAA, 0x31) == 0xCEFDEA
    ensures CrcByte(0xCEFDEA, 0x32) == 0xA174FD
    ensures CrcByte(0xA174FD, 0x33) == 0xBFEDF4
    ensures CrcByte(0xBFEDF4, 0x34) == 0xB7EFED
    ensures CrcByte(0xB7EFED, 0x35) == 0xA10DEF
    ensures CrcByte(0xA10DEF, 0x36) == 0xA0AFCD
    ensures CrcByte(0xA0AFCD, 0x37) == 0x94EB2F
    ensures CrcByte(0x94EB2F, 0x38) == 0x1FD6AB
    ensures CrcByte(0x1FD6AB, 0x39) == 0xC25A56
  {}

  /** The check value of the nine digits "123456789". */
  lemma CheckValue()
    ensures Crc24([0x31, 0x32, 0x33, 0x34, 0x35, 0x36, 0x37, 0x38, 0x39]) == 0xC2_5A56
  {
    hide CrcBytes, CrcByte, Reflected;
    StartValue();
    CheckSteps();
    var d1, d2, d3 := [0x31], [0x31, 0x32], [0x31, 0x32, 0x33];
    var d4 := d3 + [0x34]; var d5 := d4 + [0x35]; var d6 := d5 + [0x36];
    var d7 := d6 + [0x37]; var d8 := d7 + [0x38];
    CrcBytesEmpty(0xAA_AAAA);
    CrcBytesSnoc(0xAA_AAAA, [], 0x31);
    assert [] + [0x31] == d1 && d1 + [0x32] == d2 && d2 + [0x33] == d3;
    CrcBytesSnoc(0xAA_AAAA, d1, 0x32);
    CrcBytesSnoc(0xAA_AAAA, d2, 0x33);
    CrcBytesSnoc(0xAA_AAAA, d3, 0x34);
    CrcBytesSnoc(0xAA_AAAA, d4, 0x35);
    CrcBytesSnoc(0xAA_AAAA, d5, 0x36);
    CrcBytesSnoc(0xAA_AAAA, d6, 0x37);
    CrcBytesSnoc(0xAA_AAAA, d7, 0x38);
    CrcBytesSnoc(0xAA_AAAA, d8, 0x39);
    assert d8 + [0x39] == [0x31, 0x32, 0x33, 0x34, 0x35, 0x36, 0x37, 0x38, 0x39];
  }
}
