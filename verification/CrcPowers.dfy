/** Powers of x modulo the CRC polynomial never relate two short polynomials: for every whole number of
    bytes up to the longest packet, x^(8n) * A = B has no solution with A and B nonzero of degree below
    seven. A register holds a polynomial with x^0 in bit 23, so `Step` multiplies by x and the short
    polynomials are the registers inside mask 0xFE0000. */
module CrcPowers {
  import opened Crc
  import opened CrcAlgebra

  /** x^0. */
  const ONE: Reg := 0x80_0000

  /** x^d modulo the CRC polynomial. */
  function Power(d: nat): Reg { StepN(ONE, d) }

  /** A nonzero polynomial of degree below seven. */
  predicate Short(v: Reg) { v != 0 && v & 0xFF01_FFFF == 0 }

  /** A polynomial of degree seven or more. */
  predicate Long(v: Reg) { v & 0x1_FFFF != 0 }

  /** The product of the short polynomial `v` with `y`. */
  function Times(v: Reg, y: Reg): Reg {
    var y1 := Step(y);
    var y2 := Step(y1);
    var y3 := Step(y2);
    var y4 := Step(y3);
    var y5 := Step(y4);
    var y6 := Step(y5);
    var p0 := if v & 0x80_0000 != 0 then y else 0;
    var p1 := if v & 0x40_0000 != 0 then y1 else 0;
    var p2 := if v & 0x20_0000 != 0 then y2 else 0;
    var p3 := if v & 0x10_0000 != 0 then y3 else 0;
    var p4 := if v & 0x08_0000 != 0 then y4 else 0;
    var p5 := if v & 0x04_0000 != 0 then y5 else 0;
    var p6 := if v & 0x02_0000 != 0 then y6 else 0;
    Xor(Xor(Xor(Xor(Xor(Xor(p0, p1), p2), p3), p4), p5), p6)
  }

  function Step8(c: Reg): Reg { Step(Step(Step(Step(Step(Step(Step(Step(c)))))))) }

  /** No short multiple of `y` is short. */
  ghost predicate Spread(y: Reg) { forall v :: StaysLong(v, y) }

  predicate StaysLong(v: Reg, y: Reg) { Short(v) ==> Long(Times(v, y)) }

  /** Ten consecutive byte steps, from `y` to `next`. */
  ghost predicate SpreadRun(y: Reg, next: Reg) {
    var y1 := Step8(y);
    var y2 := Step8(y1);
    var y3 := Step8(y2);
    var y4 := Step8(y3);
    var y5 := Step8(y4);
    var y6 := Step8(y5);
    var y7 := Step8(y6);
    var y8 := Step8(y7);
    var y9 := Step8(y8);
    && Spread(y) && Spread(y1) && Spread(y2) && Spread(y3) && Spread(y4)
    && Spread(y5) && Spread(y6) && Spread(y7) && Spread(y8) && Spread(y9)
    && next == Step8(y9)
  }

  /** Every byte count below `m` is spread, and `y` is the next power to look at. */
  ghost predicate Covered(m: nat, y: Reg) {
    Power(8 * m) == y && forall n :: 1 <= n < m ==> SpreadAt(n)
  }

  ghost predicate SpreadAt(n: nat) { Spread(Power(8 * n)) }

  lemma StepEight(c: Reg)
    ensures StepN(c, 8) == Step8(c)
  {
    hide Step;
  }

  lemma PowerStep(m: nat)
    ensures Power(8 * (m + 1)) == Step8(Power(8 * m))
  {
    hide Step8, StepN;
    StepNAdd(ONE, 8 * m, 8);
    StepEight(Power(8 * m));
  }

  lemma Extend(m: nat, y: Reg, next: Reg)
    requires Covered(m, y) && SpreadRun(y, next)
    ensures Covered(m + 10, next)
  {
    hide Step8, Spread, Power;
    PowerStep(m); PowerStep(m + 1); PowerStep(m + 2); PowerStep(m + 3);
    PowerStep(m + 4); PowerStep(m + 5); PowerStep(m + 6); PowerStep(m + 7);
    PowerStep(m + 8); PowerStep(m + 9);
    forall n | 1 <= n < m + 10
      ensures SpreadAt(n)
    {
      if n >= m {
        var d := n - m;
        assert d == 0 || d == 1 || d == 2 || d == 3 || d == 4 || d == 5 || d == 6 || d == 7 || d == 8 || d == 9;
      }
    }
  }

  // One lemma for each ten bytes of packet length.

  lemma Run00(m: nat)
    requires Covered(m, 0x008000)
    ensures Covered(m + 10, 0x65BC0F)
  {
    hide Covered;
    Extend(m, 0x008000, 0x65BC0F);
  }

  lemma Run01(m: nat)
    requires Covered(m, 0x65BC0F)
    ensures Covered(m + 10, 0x9688A1)
  {
    hide Covered;
    Extend(m, 0x65BC0F, 0x9688A1);
  }

  lemma Run02(m: nat)
    requires Covered(m, 0x9688A1)
    ensures Covered(m + 10, 0x367237)
  {
    hide Covered;
    Extend(m, 0x9688A1, 0x367237);
  }

  lemma Run03(m: nat)
    requires Covered(m, 0x367237)
    ensures Covered(m + 10, 0x84A50B)
  {
    hide Covered;
    Extend(m, 0x367237, 0x84A50B);
  }

  lemma Run04(m: nat)
    requires Covered(m, 0x84A50B)
    ensures Covered(m + 10, 0xF8C653)
  {
    hide Covered;
    Extend(m, 0x84A50B, 0xF8C653);
  }

  lemma Run05(m: nat)
    requires Covered(m, 0xF8C653)
    ensures Covered(m + 10, 0x3D7DD2)
  {
    hide Covered;
    Extend(m, 0xF8C653, 0x3D7DD2);
  }

  lemma Run06(m: nat)
    requires Covered(m, 0x3D7DD2)
    ensures Covered(m + 10, 0x1ADE7D)
  {
    hide Covered;
    Extend(m, 0x3D7DD2, 0x1ADE7D);
  }

  lemma Run07(m: nat)
    requires Covered(m, 0x1ADE7D)
    ensures Covered(m + 10, 0x86FC6C)
  {
    hide Covered;
    Extend(m, 0x1ADE7D, 0x86FC6C);
  }

  lemma Run08(m: nat)
    requires Covered(m, 0x86FC6C)
    ensures Covered(m + 10, 0xBAF292)
  {
    hide Covered;
    Extend(m, 0x86FC6C, 0xBAF292);
  }

  lemma Run09(m: nat)
    requires Covered(m, 0xBAF292)
    ensures Covered(m + 10, 0xA03FB3)
  {
    hide Covered;
    Extend(m, 0xBAF292, 0xA03FB3);
  }

  lemma Run10(m: nat)
    requires Covered(m, 0xA03FB3)
    ensures Covered(m + 10, 0x76E5A7)
  {
    hide Covered;
    Extend(m, 0xA03FB3, 0x76E5A7);
  }

  lemma Run11(m: nat)
    requires Covered(m, 0x76E5A7)
    ensures Covered(m + 10, 0x8C7689)
  {
    hide Covered;
    Extend(m, 0x76E5A7, 0x8C7689);
  }

  lemma Run12(m: nat)
    requires Covered(m, 0x8C7689)
    ensures Covered(m + 10, 0xD7B9ED)
  {
    hide Covered;
    Extend(m, 0x8C7689, 0xD7B9ED);
  }

  lemma Run13(m: nat)
    requires Covered(m, 0xD7B9ED)
    ensures Covered(m + 10, 0xB73ABA)
  {
    hide Covered;
    Extend(m, 0xD7B9ED, 0xB73ABA);
  }

  lemma Run14(m: nat)
    requires Covered(m, 0xB73ABA)
    ensures Covered(m + 10, 0x03854B)
  {
    hide Covered;
    Extend(m, 0xB73ABA, 0x03854B);
  }

  lemma Run15(m: nat)
    requires Covered(m, 0x03854B)
    ensures Covered(m + 10, 0x6FB8B9)
  {
    hide Covered;
    Extend(m, 0x03854B, 0x6FB8B9);
  }

  lemma Run16(m: nat)
    requires Covered(m, 0x6FB8B9)
    ensures Covered(m + 10, 0xB9D5EC)
  {
    hide Covered;
    Extend(m, 0x6FB8B9, 0xB9D5EC);
  }

  lemma Run17(m: nat)
    requires Covered(m, 0xB9D5EC)
    ensures Covered(m + 10, 0xECAEC2)
  {
    hide Covered;
    Extend(m, 0xB9D5EC, 0xECAEC2);
  }

  lemma Run18(m: nat)
    requires Covered(m, 0xECAEC2)
    ensures Covered(m + 10, 0x43A75D)
  {
    hide Covered;
    Extend(m, 0xECAEC2, 0x43A75D);
  }

  lemma Run19(m: nat)
    requires Covered(m, 0x43A75D)
    ensures Covered(m + 10, 0x6E8B0A)
  {
    hide Covered;
    Extend(m, 0x43A75D, 0x6E8B0A);
  }

  lemma Run20(m: nat)
    requires Covered(m, 0x6E8B0A)
    ensures Covered(m + 10, 0xB834E8)
  {
    hide Covered;
    Extend(m, 0x6E8B0A, 0xB834E8);
  }

  lemma Run21(m: nat)
    requires Covered(m, 0xB834E8)
    ensures Covered(m + 10, 0x96F640)
  {
    hide Covered;
    Extend(m, 0xB834E8, 0x96F640);
  }

  lemma Run22(m: nat)
    requires Covered(m, 0x96F640)
    ensures Covered(m + 10, 0x906284)
  {
    hide Covered;
    Extend(m, 0x96F640, 0x906284);
  }

  lemma Run23(m: nat)
    requires Covered(m, 0x906284)
    ensures Covered(m + 10, 0xDC33C0)
  {
    hide Covered;
    Extend(m, 0x906284, 0xDC33C0);
  }

  lemma Run24(m: nat)
    requires Covered(m, 0xDC33C0)
    ensures Covered(m + 10, 0xABEE06)
  {
    hide Covered;
    Extend(m, 0xDC33C0, 0xABEE06);
  }

  lemma Run25(m: nat)
    requires Covered(m, 0xABEE06)
    ensures Covered(m + 10, 0xC2DBC9)
  {
    hide Covered;
    Extend(m, 0xABEE06, 0xC2DBC9);
  }

  lemma PowerEight()
    ensures Covered(1, 0x008000)
  {
    assert Power(8 * 0) == ONE;
    PowerStep(0);
  }

  /** Every packet length the radio can carry is covered. */
  lemma PowersSpread(n: nat)
    requires 1 <= n <= 260
    ensures SpreadAt(n)
  {
    hide Covered;
    PowerEight();
    Run00(1); Run01(11); Run02(21); Run03(31); Run04(41);
    Run05(51); Run06(61); Run07(71); Run08(81); Run09(91);
    Run10(101); Run11(111); Run12(121); Run13(131); Run14(141);
    Run15(151); Run16(161); Run17(171); Run18(181); Run19(191);
    Run20(201); Run21(211); Run22(221); Run23(231); Run24(241);
    Run25(251);
    Uncover(261, 0xC2DBC9, n);
  }

  lemma Uncover(m: nat, y: Reg, n: nat)
    requires Covered(m, y) && 1 <= n < m
    ensures SpreadAt(n)
  {
    hide Power, SpreadAt;
  }
}
