/** Data channel PDUs (`DataPdu` of src/ll/pdu.rs). */
module DataPdu {
  import opened Wrappers
  import opened Octets

  // The repository's own LLID values.
  const LLID_DATA_START: nat := 1
  const LLID_DATA_CONTINUATION_OR_COMPLETE: nat := 0
  const LLID_DATA_COMPLETE: nat := 3
  const LLID_CONTROL: nat := 2

  datatype DataPdu = DataPdu(llid: nat, nesn: bool, sn: bool, md: bool, payload: seq<u8>)

  function Decode(bytes: seq<u8>): Result<DataPdu> {
    if |bytes| < 2 then Err(InvalidPdu)
    else if |bytes[2..]| != bytes[1] % 64 then Err(InvalidLength)
    else Ok(DataPdu(bytes[0] % 4, Bit(bytes[0], 4), Bit(bytes[0], 8), Bit(bytes[0], 16), bytes[2..]))
  }

  /** The first header byte. */
  function Header(llid: nat, nesn: bool, sn: bool, md: bool): u8 {
    llid % 4 + 4 * BoolBit(nesn) + 8 * BoolBit(sn) + 16 * BoolBit(md)
  }

  function Encoded(p: DataPdu): seq<u8>
    requires |p.payload| < 64
  {
    [Header(p.llid, p.nesn, p.sn, p.md), |p.payload|] + p.payload
  }

  method Encode(p: DataPdu, out: array<u8>) returns (r: Result<nat>)
    modifies out
    ensures r == if |p.payload| > 0x3F then Err(InvalidLength)
                 else if out.Length < 2 + |p.payload| then Err(BufferTooSmall)
                 else Ok(2 + |p.payload|)
    ensures r.Ok? ==> out[..] == Encoded(p) + old(out[2 + |p.payload|..])
    ensures r.Err? ==> out[..] == old(out[..])
  {
    if |p.payload| > 0x3F {
      return Err(InvalidLength);
    }
    var total := 2 + |p.payload|;
    if out.Length < total {
      return Err(BufferTooSmall);
    }
    out[0] := Header(p.llid, p.nesn, p.sn, p.md);
    out[1] := |p.payload|;
    forall i | 0 <= i < |p.payload| {
      out[2 + i] := p.payload[i];
    }
    return Ok(total);
  }

  lemma HeaderFields(llid: nat, nesn: bool, sn: bool, md: bool)
    ensures var h := Header(llid, nesn, sn, md);
            h % 4 == llid % 4 && Bit(h, 4) == nesn && Bit(h, 8) == sn && Bit(h, 16) == md
  {}

  /** Decoding inverts encoding for every PDU with a two-bit LLID. */
  lemma DecodeEncoded(p: DataPdu)
    requires p.llid < 4 && |p.payload| < 64
    ensures Decode(Encoded(p)) == Ok(p)
  {
    HeaderFields(p.llid, p.nesn, p.sn, p.md);
    assert Encoded(p)[2..] == p.payload;
  }

  /** When and how decoding fails. */
  lemma DecodeFails(bytes: seq<u8>)
    ensures Decode(bytes) == Err(InvalidPdu) <==> |bytes| < 2
    ensures Decode(bytes) == Err(InvalidLength) <==> |bytes| >= 2 && |bytes| - 2 != bytes[1] % 64
    ensures Decode(bytes).Ok? <==> |bytes| >= 2 && |bytes| - 2 == bytes[1] % 64
  {}

  /** Whatever decodes was the encoding of the result, up to the reserved header bits. */
  lemma EncodeDecoded(bytes: seq<u8>)
    requires Decode(bytes).Ok?
    ensures var p := Decode(bytes).value;
            p.llid < 4 && |p.payload| < 64
            && Encoded(p) == bytes[0 := bytes[0] % 32][1 := bytes[1] % 64]
  {
    SplitFive(bytes[0]);
    var p := Decode(bytes).value;
    assert |bytes| == 2 + |p.payload|;
    assert Encoded(p)[2..] == bytes[2..];
  }

  lemma SplitFive(b: u8)
    ensures b % 32 == Header(b % 4, Bit(b, 4), Bit(b, 8), Bit(b, 16))
  {
    hide Half, Odd, Bit;
    QuartersOf(b);
    var q2 := b / 4;
    HalfSplit(q2);
    HalfSplit(Half(q2));
    HalfSplit(Half(Half(q2)));
  }

  lemma QuartersOf(b: u8)
    ensures var q2 := b / 4; var q5 := Half(Half(Half(q2)));
            && Bit(b, 4) == Odd(q2) && Bit(b, 8) == Odd(Half(q2)) && Bit(b, 16) == Odd(Half(Half(q2)))
            && b == 4 * q2 + b % 4 && b == 32 * q5 + b % 32
  {
    var q2 := b / 4;
    assert b / 8 == q2 / 2;
    assert b / 16 == q2 / 4;
    assert b / 32 == q2 / 8;
  }
}
