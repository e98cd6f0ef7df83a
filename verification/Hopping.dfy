/** Channel selection (`next_channel` of src/hw/conn.rs, `next_data_channel` of src/ll/channels.rs). */
module Hopping {
  import opened Octets

  const CHANNELS: nat := 37

  type ChannelMap = m: seq<u8> | |m| == 5 witness [0, 0, 0, 0, 0]

  function Pow2(n: nat): (r: nat)
    ensures r > 0
    decreases n
  {
    if n == 0 then 1 else 2 * Pow2(n - 1)
  }

  /** The test of the search: a bit of a byte of the map. */
  predicate BitSet(map_: ChannelMap, ch: nat)
    requires ch < CHANNELS
  {
    (map_[ch / 8] / Pow2(ch % 8)) % 2 == 1
  }

  /** The map as a 40-bit number, first byte lowest. */
  function MapValue(map_: ChannelMap): nat {
    (map_[0] as nat) + 0x100 * (map_[1] as nat) + 0x1_0000 * (map_[2] as nat) + 0x100_0000 * (map_[3] as nat)
    + 0x1_0000_0000 * (map_[4] as nat)
  }

  /** A channel is in use when its digit of the map is set. */
  predicate Used(map_: ChannelMap, ch: nat) { Digit(MapValue(map_), ch) }

  lemma HalfPow(b: nat, p: nat)
    requires p > 0
    ensures b / (2 * p) == Half(b) / p
  {
    var h := b / 2;
    var q, r := h / p, h % p;
    assert h == p * q + r;
    assert b == 2 * p * q + (2 * r + b % 2);
    QuotientIs(b, 2 * p, q, 2 * r + b % 2);
  }

  lemma QuotientIs(total: nat, m: nat, q: nat, r: nat)
    requires r < m && total == m * q + r
    ensures total / m == q
  {
    assert total == m * (total / m) + total % m;
    Multiples(q, total / m, m);
    Multiples(total / m, q, m);
  }

  lemma {:induction false} DigitIsBit(b: nat, n: nat)
    ensures Digit(b, n) <==> (b / Pow2(n)) % 2 == 1
    decreases n
  {
    if n > 0 {
      DigitIsBit(Half(b), n - 1);
      HalfPow(b, Pow2(n - 1));
    }
  }

  /** The digits of `low`, then those of `rest`. */
  lemma {:induction false} DigitsJoin(low: nat, rest: nat, k: nat, n: nat)
    requires low < Pow2(k)
    ensures Digit(low + Pow2(k) * rest, n) <==> if n < k then Digit(low, n) else Digit(rest, n - k)
    decreases k
  {
    hide Digit;
    if k == 0 {
      assert low + Pow2(k) * rest == rest;
    } else {
      var p := Pow2(k - 1) * rest;
      assert Pow2(k) * rest == 2 * p;
      HalfJoin(low, p);
      DigitUnfold(low + 2 * p, n);
      DigitUnfold(low, n);
      if n > 0 {
        DigitsJoin(Half(low), rest, k - 1, n - 1);
      }
    }
  }

  lemma HalfJoin(low: nat, p: nat)
    ensures Half(low + 2 * p) == Half(low) + p && Odd(low + 2 * p) == Odd(low)
  {}

  lemma DigitUnfold(value: nat, n: nat)
    ensures Digit(value, n) == if n == 0 then Odd(value) else Digit(Half(value), n - 1)
  {}

  lemma Pow256()
    ensures Pow2(8) == 256
  {
    assert Pow2(4) == 16;
  }

  /** The bit that the search tests is the channel's digit of the map. */
  lemma BitSetIsUsed(map_: ChannelMap, ch: nat)
    requires ch < CHANNELS
    ensures BitSet(map_, ch) <==> Used(map_, ch)
  {
    hide Digit, Pow2;
    Pow256();
    var v4 := map_[4] as nat;
    var v3 := map_[3] + 256 * v4;
    var v2 := map_[2] + 256 * v3;
    var v1 := map_[1] + 256 * v2;
    assert MapValue(map_) == map_[0] + 256 * v1;
    DigitsJoin(map_[0], v1, 8, ch);
    DigitIsBit(map_[ch / 8], ch % 8);
    if ch >= 8 {
      DigitsJoin(map_[1], v2, 8, ch - 8);
    }
    if ch >= 16 {
      DigitsJoin(map_[2], v3, 8, ch - 16);
    }
    if ch >= 24 {
      DigitsJoin(map_[3], v4, 8, ch - 24);
    }
  }

  /** The channel `hop` places on, cyclically. */
  function NextDataChannel(current: nat, hop: nat): (r: nat)
    ensures r < CHANNELS
  {
    (current + hop) % CHANNELS
  }

  /** `ch` is the first used channel from `start` on, or `start` when none is used. */
  ghost predicate FirstUsed(map_: ChannelMap, start: nat, ch: nat)
    requires start < CHANNELS
  {
    || (exists k :: 0 <= k < CHANNELS && ch == NextDataChannel(start, k) && Used(map_, ch) && NoneBefore(map_, start, k))
    || (ch == start && NoneBefore(map_, start, CHANNELS))
  }

  ghost predicate NoneBefore(map_: ChannelMap, start: nat, k: nat) {
    forall j :: 0 <= j < k ==> !Used(map_, NextDataChannel(start, j))
  }

  /** The search ends within 37 steps; the sum of the byte arguments must not overflow. */
  method NextChannel(current: u8, hop: u8, map_: ChannelMap) returns (ch: nat)
    requires current + hop < 256
    ensures ch < CHANNELS && FirstUsed(map_, NextDataChannel(current, hop), ch)
  {
    hide Used, BitSet, FirstUsed;
    ch := (current + hop) % CHANNELS;
    ghost var start := ch;
    HopStep(start, 0);
    var guard := 0;
    BitSetIsUsed(map_, ch);
    while !BitSet(map_, ch) && guard < CHANNELS
      invariant guard <= CHANNELS && ch == NextDataChannel(start, guard)
      invariant NoneBefore(map_, start, guard)
      invariant BitSet(map_, ch) <==> Used(map_, ch)
      decreases CHANNELS - guard
    {
      HopStep(start, guard);
      ch := (ch + 1) % CHANNELS;
      guard := guard + 1;
      BitSetIsUsed(map_, ch);
    }
    Found(map_, start, guard);
  }

  lemma HopStep(start: nat, k: nat)
    requires start < CHANNELS
    ensures NextDataChannel(start, 0) == NextDataChannel(start, CHANNELS) == start
    ensures (NextDataChannel(start, k) + 1) % CHANNELS == NextDataChannel(start, k + 1)
  {}

  lemma Found(map_: ChannelMap, start: nat, k: nat)
    requires start < CHANNELS && k <= CHANNELS && NoneBefore(map_, start, k)
    requires k == CHANNELS || Used(map_, NextDataChannel(start, k))
    ensures FirstUsed(map_, start, NextDataChannel(start, k))
  {
    hide Used, NextDataChannel;
    HopStep(start, k);
  }

  /** The search gives the plain hop exactly when that channel is in use or none is. */
  lemma PlainHopIffUsed(map_: ChannelMap, start: nat, ch: nat)
    requires start < CHANNELS && FirstUsed(map_, start, ch)
    ensures ch == start <==> Used(map_, start) || NoneBefore(map_, start, CHANNELS)
  {
    hide Used, NextDataChannel;
    HopStep(start, 0);
  }

  /** The bits of all 37 channels are set; the three spare bits may be anything. */
  predicate IsFull(map_: ChannelMap) {
    map_[0] == map_[1] == map_[2] == map_[3] == 0xFF && map_[4] % 32 == 31
  }

  lemma FullMapUsed(map_: ChannelMap, ch: nat)
    requires ch < CHANNELS && IsFull(map_)
    ensures Used(map_, ch)
  {
    hide Used;
    FullMapBits(map_, ch);
    BitSetIsUsed(map_, ch);
  }

  lemma FullMapBits(map_: ChannelMap, ch: nat)
    requires ch < CHANNELS && IsFull(map_)
    ensures BitSet(map_, ch)
  {
    if ch < 32 {
      assert map_[ch / 8] == 0xFF;
    }
    FullByteBit(map_[ch / 8], ch % 8);
  }

  lemma FullByteBit(b: u8, r: nat)
    requires r < 8 && (b == 0xFF || (b % 32 == 31 && r < 5))
    ensures (b / Pow2(r)) % 2 == 1
  {
    hide Digit, Pow2;
    DigitIsBit(b, r);
    OnesDigits();
    assert r == 0 || r == 1 || r == 2 || r == 3 || r == 4 || r == 5 || r == 6 || r == 7;
    if b != 0xFF {
      Pow32();
      DigitsJoin(31, b / 32, 5, r);
      assert b == 31 + 32 * (b / 32);
    }
  }

  lemma OnesDigits()
    ensures Digit(0xFF, 0) && Digit(0xFF, 1) && Digit(0xFF, 2) && Digit(0xFF, 3)
    ensures Digit(0xFF, 4) && Digit(0xFF, 5) && Digit(0xFF, 6) && Digit(0xFF, 7)
    ensures Digit(31, 0) && Digit(31, 1) && Digit(31, 2) && Digit(31, 3) && Digit(31, 4)
  {}

  lemma Pow32()
    ensures Pow2(5) == 32
  {}

  /** With every channel in use the search is the plain hop. */
  lemma FullMapIsPlainHop(map_: ChannelMap, start: nat, ch: nat)
    requires start < CHANNELS && IsFull(map_) && FirstUsed(map_, start, ch)
    ensures ch == start
  {
    hide Used, FirstUsed;
    FullMapUsed(map_, start);
    PlainHopIffUsed(map_, start, ch);
  }

  // ---------- The plain hop over many events ----------

  function Hops(c: nat, hop: nat, n: nat): nat
    decreases n
  {
    if n == 0 then c else NextDataChannel(Hops(c, hop, n - 1), hop)
  }

  lemma {:induction false} HopsClosedForm(c: nat, hop: nat, n: nat)
    requires c < CHANNELS
    ensures Hops(c, hop, n) == (c + n * hop) % CHANNELS
    decreases n
  {
    if n > 0 {
      HopsClosedForm(c, hop, n - 1);
      ModAdd(c + (n - 1) * hop, hop, CHANNELS);
      assert n * hop == (n - 1) * hop + hop;
    }
  }

  /** 37 has no divisor between 1 and itself. */
  lemma NoDivisor(h: nat, k: nat)
    requires 2 <= h < CHANNELS
    ensures h * k != CHANNELS
  {
    if h <= 6 {
      assert h == 2 || h == 3 || h == 4 || h == 5 || h == 6;
    } else if k <= 5 {
      assert k == 0 || k == 1 || k == 2 || k == 3 || k == 4 || k == 5;
    } else {
      assert h * k >= 7 * k;
    }
  }

  lemma EuclidStep(d: nat, h: nat, q: int)
    requires 1 < h < CHANNELS && d * h == CHANNELS * q
    ensures 1 <= CHANNELS % h < h && d * (CHANNELS % h) == CHANNELS * (d - q * (CHANNELS / h))
  {
    var k, r := CHANNELS / h, CHANNELS % h;
    assert CHANNELS == h * k + r;
    NoDivisor(h, k);
    assert d * (h * k) == (d * h) * k;
    assert (CHANNELS * q) * k == CHANNELS * (q * k);
    assert d * r == d * CHANNELS - d * (h * k);
  }

  /** Euclid's argument: if 37 divided d * h it would divide d * (37 mod h), and so on down to d. */
  lemma {:induction false} ProductNotMultiple(d: nat, h: nat, q: int)
    requires 1 <= d < CHANNELS && 1 <= h < CHANNELS
    ensures d * h != CHANNELS * q
    decreases h
  {
    if d * h == CHANNELS * q && h > 1 {
      EuclidStep(d, h, q);
      ProductNotMultiple(d, CHANNELS % h, d - q * (CHANNELS / h));
    }
  }

  /** Any 37 consecutive channels are distinct, so every channel is visited, for each hop increment the
      five-bit field can carry except zero. */
  lemma HopsDistinct(c: nat, hop: nat, i: nat, j: nat)
    requires c < CHANNELS && 1 <= hop < CHANNELS && i < j < i + CHANNELS
    ensures Hops(c, hop, i) != Hops(c, hop, j)
  {
    HopsClosedForm(c, hop, i);
    HopsClosedForm(c, hop, j);
    var a, b := c + i * hop, c + j * hop;
    assert b - a == (j - i) * hop;
    if a % CHANNELS == b % CHANNELS {
      var q := b / CHANNELS - a / CHANNELS;
      assert (j - i) * hop == CHANNELS * q;
      ProductNotMultiple(j - i, hop, q);
    }
  }
}
