/** Octets as radio bytes, bit for bit, and back. */
module Air {
  import Bytes
  import opened Octets

  /** The byte with the binary digits of `b`. */
  function AirByte(b: u8): Bytes.Byte {
    var q1 := Half(b);
    var q2 := Half(q1);
    var q3 := Half(q2);
    var q4 := Half(q3);
    var q5 := Half(q4);
    var q6 := Half(q5);
    var q7 := Half(q6);
    Pack(Odd(b), Odd(q1), Odd(q2), Odd(q3), Odd(q4), Odd(q5), Odd(q6), Odd(q7))
  }

  function Pack(b0: bool, b1: bool, b2: bool, b3: bool, b4: bool, b5: bool, b6: bool, b7: bool): Bytes.Byte {
    (if b0 then 0x01 else 0) | (if b1 then 0x02 else 0) | (if b2 then 0x04 else 0) | (if b3 then 0x08 else 0)
    | (if b4 then 0x10 else 0) | (if b5 then 0x20 else 0) | (if b6 then 0x40 else 0) | (if b7 then 0x80 else 0)
  }

  function OctetOf(x: Bytes.Byte): u8 {
    BoolBit(x & 0x01 != 0) + 2 * BoolBit(x & 0x02 != 0) + 4 * BoolBit(x & 0x04 != 0) + 8 * BoolBit(x & 0x08 != 0)
    + 16 * BoolBit(x & 0x10 != 0) + 32 * BoolBit(x & 0x20 != 0) + 64 * BoolBit(x & 0x40 != 0) + 128 * BoolBit(x & 0x80 != 0)
  }

  function ToAir(s: seq<u8>): (r: seq<Bytes.Byte>)
    ensures |r| == |s|
  {
    seq(|s|, i requires 0 <= i < |s| => AirByte(s[i]))
  }

  function FromAir(s: seq<Bytes.Byte>): (r: seq<u8>)
    ensures |r| == |s|
  {
    seq(|s|, i requires 0 <= i < |s| => OctetOf(s[i]))
  }

  lemma PackBits(b0: bool, b1: bool, b2: bool, b3: bool, b4: bool, b5: bool, b6: bool, b7: bool)
    ensures OctetOf(Pack(b0, b1, b2, b3, b4, b5, b6, b7))
            == BoolBit(b0) + 2 * BoolBit(b1) + 4 * BoolBit(b2) + 8 * BoolBit(b3)
               + 16 * BoolBit(b4) + 32 * BoolBit(b5) + 64 * BoolBit(b6) + 128 * BoolBit(b7)
  {}

  lemma OctetRoundTrip(b: u8)
    ensures OctetOf(AirByte(b)) == b
  {
    hide Pack, OctetOf, Half, Odd;
    var q1 := Half(b); var q2 := Half(q1); var q3 := Half(q2); var q4 := Half(q3);
    var q5 := Half(q4); var q6 := Half(q5); var q7 := Half(q6);
    HalfSplit(b); HalfSplit(q1); HalfSplit(q2); HalfSplit(q3);
    HalfSplit(q4); HalfSplit(q5); HalfSplit(q6); HalfSplit(q7);
    PackBits(Odd(b), Odd(q1), Odd(q2), Odd(q3), Odd(q4), Odd(q5), Odd(q6), Odd(q7));
  }

  lemma AirRoundTrip(s: seq<u8>)
    ensures FromAir(ToAir(s)) == s
  {
    hide OctetOf, AirByte;
    forall i | 0 <= i < |s|
      ensures FromAir(ToAir(s))[i] == s[i]
    {
      OctetRoundTrip(s[i]);
    }
  }
}
