/** Octets and little-endian 16-bit numbers as integers, for the protocol layers above the radio. */
module Octets {
  type u8 = x: int | 0 <= x < 256
  type u16 = x: int | 0 <= x < 0x1_0000

  /** A device address. */
  type Addr = s: seq<u8> | |s| == 6 witness [0, 0, 0, 0, 0, 0]

  const U16_MAX: u16 := 0xFFFF

  /** `n as u8`. */
  function AsU8(n: nat): u8 { n % 256 }

  function ToLe16(n: u16): (r: seq<u8>)
    ensures |r| == 2
  {
    [n % 256, n / 256]
  }

  function FromLe16(lo: u8, hi: u8): u16 { lo + 256 * hi }

  lemma Le16RoundTrip(n: u16)
    ensures FromLe16(ToLe16(n)[0], ToLe16(n)[1]) == n
    ensures (ToLe16(n)[0] as nat) + 256 * (ToLe16(n)[1] as nat) == n
  {}

  function Min(a: nat, b: nat): nat { if a <= b then a else b }

  function BoolBit(b: bool): nat { if b then 1 else 0 }

  function Half(n: nat): nat { n / 2 }

  predicate Odd(n: nat) { n % 2 == 1 }

  /** Binary digit `n` of a number. */
  predicate Digit(value: nat, n: nat)
    decreases n
  {
    if n == 0 then Odd(value) else Digit(Half(value), n - 1)
  }

  lemma HalfSplit(n: nat)
    ensures n == 2 * Half(n) + BoolBit(Odd(n))
  {}

  /** Reducing a summand first makes no difference. */
  lemma ModAdd(a: nat, b: nat, m: nat)
    requires m > 0
    ensures (a % m + b) % m == (a + b) % m
  {
    var q, c := a / m, a % m + b;
    assert a == m * q + a % m && c == m * (c / m) + c % m;
    assert a + b == m * (q + c / m) + c % m;
    ModUnique(q + c / m, c % m, a + b, m);
  }

  lemma ModUnique(q: nat, r: nat, total: nat, m: nat)
    requires m > 0 && r < m && total == m * q + r
    ensures total % m == r
  {
    assert total == m * (total / m) + total % m;
    Multiples(q, total / m, m);
    Multiples(total / m, q, m);
  }

  lemma Multiples(p: int, q: int, m: nat)
    ensures p < q ==> m * p + m <= m * q
  {
    if p < q {
      var d := q - p - 1;
      MultipleStep(m, p, d);
    }
  }

  lemma MultipleStep(m: nat, p: int, d: nat)
    ensures m * (p + d + 1) == m * p + m * d + m && m * d >= 0
  {}

  function Bit(b: u8, weight: nat): bool
    requires weight > 0
  {
    (b / weight) % 2 == 1
  }

  lemma PrefixSlice(s: seq<u8>, n: nat, from: nat, to: nat)
    requires from <= to <= n <= |s|
    ensures s[..n][from..to] == s[from..to]
  {}

  /** `dst[at..at + src.len()].copy_from_slice(src)`. */
  method CopyFromSlice(dst: array<u8>, at: nat, src: seq<u8>)
    requires at + |src| <= dst.Length
    modifies dst
    ensures dst[..at] == old(dst[..at])
    ensures dst[at..at + |src|] == src
    ensures dst[at + |src|..] == old(dst[at + |src|..])
    ensures dst[..at + |src|] == old(dst[..at]) + src
  {
    forall i | 0 <= i < |src| {
      dst[at + i] := src[i];
    }
    assert dst[at..at + |src|] == src;
    assert dst[..at + |src|] == dst[..at] + dst[at..at + |src|];
  }
}
