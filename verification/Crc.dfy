/** CRC-24 of the link layer (src/ll/crc.rs): the reflected shift register, `reflect`,
    `crc24_with_init`, `append_crc` and `check`. Bytes and registers are bit vectors, as in the source. */
module Crc {
  import opened Wrappers
  import opened Bytes

  type Reg = bv32

  const CRC_POLY: Reg := 0x0000_065B
  const CRC_INIT: Reg := 0x0055_5555
  const CRC_REFLECTED_POLY: Reg := 0x00DA_6000

  const BYTE_BITS: nat := 8
  const CRC_BITS: nat := 24

  /** A register value that fits the 24 bits of the CRC. */
  predicate In24(c: Reg) { c & 0xFF00_0000 == 0 }

  /** One shift of the reflected register. */
  function Step(c: Reg): Reg {
    if c & 1 != 0 then (c >> 1) ^ CRC_REFLECTED_POLY else c >> 1
  }

  function StepN(c: Reg, n: nat): Reg
    decreases n
  {
    if n == 0 then c else Step(StepN(c, n - 1))
  }

  function XorIn(c: Reg, b: Byte): Reg { c ^ b as Reg }

  function Low24(c: Reg): Reg { c & 0xFF_FFFF }

  function CrcByte(c: Reg, b: Byte): Reg {
    Low24(StepN(XorIn(c, b), BYTE_BITS))
  }

  /** The register after `data`, started at `c`. */
  function CrcBytes(c: Reg, data: seq<Byte>): Reg {
    if data == [] then c else CrcByte(CrcBytes(c, data[..|data| - 1]), data[|data| - 1])
  }

  /** The loop state of `reflect` with `n` bits to go. */
  function ReflectLoop(v: Reg, r: Reg, n: nat): Reg
    decreases n
  {
    if n == 0 then r else ReflectLoop(v >> 1, (r << 1) | (v & 1), n - 1)
  }

  function Reflected(value: Reg, bits: nat): Reg {
    ReflectLoop(value, 0, bits)
  }

  function Crc24WithInit(data: seq<Byte>, init: Reg): Reg {
    CrcBytes(Reflected(Low24(init), CRC_BITS), data)
  }

  function Crc24(data: seq<Byte>): Reg {
    Crc24WithInit(data, CRC_INIT)
  }

  /** The three bytes written after a PDU. */
  function CrcTrailer(data: seq<Byte>): seq<Byte> { RegBytes(Crc24(data)) }

  /** The three bytes of a register, in transmission order. */
  function RegBytes(c: Reg): seq<Byte> { [LowByte(c), LowByte(c >> 8), LowByte(c >> 16)] }

  function LowByte(c: Reg): Byte {
    (c & 0xFF) as Byte
  }

  /** Residue test on a PDU with its CRC attached. */
  predicate Checks(data: seq<Byte>) {
    |data| >= 3 && Crc24(data) == 0
  }

  lemma StepNUnfold(c: Reg, n: nat)
    ensures StepN(c, 0) == c
    ensures StepN(c, n + 1) == Step(StepN(c, n))
  {}

  lemma CrcBytesEmpty(c: Reg)
    ensures CrcBytes(c, []) == c
  {}

  lemma CrcBytesSnoc(c: Reg, data: seq<Byte>, b: Byte)
    ensures CrcBytes(c, data + [b]) == CrcByte(CrcBytes(c, data), b)
  {
    assert (data + [b])[..|data|] == data;
  }

  method Reflect(value: Reg, bits: nat) returns (r: Reg)
    ensures r == Reflected(value, bits)
  {
    var v := value;
    r := 0;
    var i := 0;
    while i < bits
      invariant i <= bits
      invariant ReflectLoop(v, r, bits - i) == Reflected(value, bits)
    {
      r := (r << 1) | (v & 1);
      v := v >> 1;
      i := i + 1;
    }
  }

  /** The inner loop of `crc24_with_init`: `bits` shifts of the register. */
  method ShiftBits(start: Reg, bits: nat) returns (crc: Reg)
    ensures crc == StepN(start, bits)
  {
    hide StepN;
    crc := start;
    StepNUnfold(start, 0);
    var bit := 0;
    while bit < bits
      invariant bit <= bits
      invariant crc == StepN(start, bit)
    {
      StepNUnfold(start, bit);
      if crc & 1 != 0 {
        crc := (crc >> 1) ^ CRC_REFLECTED_POLY;
      } else {
        crc := crc >> 1;
      }
      bit := bit + 1;
    }
  }

  /** The outer loop body of `crc24_with_init`. */
  method FeedByte(start: Reg, b: Byte) returns (crc: Reg)
    ensures crc == CrcByte(start, b)
  {
    hide StepN, XorIn, Low24;
    crc := XorIn(start, b);
    crc := ShiftBits(crc, BYTE_BITS);
    crc := Low24(crc);
  }

  method ComputeCrc24WithInit(data: seq<Byte>, init: Reg) returns (crc: Reg)
    ensures crc == Crc24WithInit(data, init)
  {
    hide CrcBytes, CrcByte, Reflected;
    crc := Reflect(Low24(init), CRC_BITS);
    ghost var start := crc;
    CrcBytesEmpty(start);
    var i := 0;
    while i < |data|
      invariant i <= |data|
      invariant crc == CrcBytes(start, data[..i])
    {
      crc := FeedByte(crc, data[i]);
      CrcBytesSnoc(start, data[..i], data[i]);
      assert data[..i + 1] == data[..i] + [data[i]];
      i := i + 1;
    }
    assert data[..i] == data;
  }

  method ComputeCrc24(data: seq<Byte>) returns (crc: Reg)
    ensures crc == Crc24(data)
  {
    crc := ComputeCrc24WithInit(data, CRC_INIT);
  }

  /** Writes the CRC of `pdu` into the slice `out[at..]`. */
  method AppendCrc(pdu: seq<Byte>, out: array<Byte>, at: nat) returns (r: Result<()>)
    requires at <= out.Length
    modifies out
    ensures r == if out.Length - at < 3 then Err(BufferTooSmall) else Ok(())
    ensures r.Err? ==> out[..] == old(out[..])
    ensures r.Ok? ==> out[..] == old(out[..at]) + CrcTrailer(pdu) + old(out[at + 3..])
  {
    if out.Length - at < 3 {
      return Err(BufferTooSmall);
    }
    var crc := ComputeCrc24(pdu);
    out[at] := LowByte(crc);
    out[at + 1] := LowByte(crc >> 8);
    out[at + 2] := LowByte(crc >> 16);
    return Ok(());
  }

  method Check(pduWithCrc: seq<Byte>) returns (ok: bool)
    ensures ok == Checks(pduWithCrc)
  {
    if |pduWithCrc| < 3 {
      return false;
    }
    var crc := ComputeCrc24(pduWithCrc);
    return crc == 0;
  }
}
