/** Advertising channel PDUs (src/ll/pdu.rs): the header, the PDU variants, the auxiliary pointer, the
    periodic advertising field and the connection parameters. */
module AdvPdu {
  import opened Wrappers
  import opened Octets

  const PDU_ADV_IND: u8 := 0
  const PDU_ADV_DIRECT_IND: u8 := 1
  const PDU_ADV_NONCONN_IND: u8 := 2
  const PDU_SCAN_REQ: u8 := 3
  const PDU_SCAN_RSP: u8 := 4
  const PDU_CONNECT_REQ: u8 := 5
  const PDU_ADV_SCAN_IND: u8 := 6
  const PDU_ADV_EXT_IND: u8 := 7

  const PAYLOAD_MAX: nat := 63

  /** An advertising data identifier. */
  type Adi = s: seq<u8> | |s| == 2 witness [0, 0]

  datatype AdvHdr = AdvHdr(pduType: u8, chSel: bool, txAdd: bool, rxAdd: bool, len: u8)

  datatype AuxPtr = AuxPtr(channel: u8, offset: u16, phy: u8) {
    predicate InRange() { channel < 64 && offset < 1024 && phy < 4 }
  }

  datatype AdvPdu =
    | AdvInd(advAddr: Addr, data: seq<u8>)
    | AdvDirectInd(advAddr: Addr, initAddr: Addr)
    | AdvNonconnInd(advAddr: Addr, data: seq<u8>)
    | ScanReq(scanAddr: Addr, advAddr: Addr)
    | ScanRsp(advAddr: Addr, data: seq<u8>)
    | ConnectReq(initAddr: Addr, advAddr: Addr, llData: seq<u8>)
    | AdvScanInd(advAddr: Addr, data: seq<u8>)
    | AdvExtInd(advAddr: Addr, advMode: u8, adi: Adi, auxPtr: AuxPtr)
    | AuxAdvExtInd(advAddr: Addr, adi: Adi, extType: u8, data: seq<u8>)
    | AuxAdvExtIndWithEh(advAddr: Addr, adi: Adi, ehs: seq<u8>, data: seq<u8>)
    | PeriodicAdv(advMode: u8, adi: Adi)

  // ---------- Fields ----------

  function EncodeHdr(h: AdvHdr): (r: seq<u8>)
    ensures |r| == 2
  {
    [h.pduType % 16 + 64 * BoolBit(h.chSel) + 128 * BoolBit(h.txAdd), BoolBit(h.rxAdd) + 2 * (h.len % 64)]
  }

  function DecodeHdr(b0: u8, b1: u8): Result<AdvHdr> {
    if b0 % 16 > 7 then Err(InvalidPdu)
    else Ok(AdvHdr(b0 % 16, Bit(b0, 64), Bit(b0, 128), Bit(b1, 1), (b1 / 2) % 64))
  }

  function EncodeAux(p: AuxPtr): (r: seq<u8>)
    ensures |r| == 3
  {
    [p.channel % 64 + 64 * (p.offset % 4), (p.offset / 4) % 256, p.phy % 4]
  }

  function DecodeAux(b: seq<u8>): AuxPtr
    requires |b| == 3
  {
    AuxPtr(b[0] % 64, (b[0] as nat) / 64 + 4 * (b[1] as nat), b[2] % 4)
  }

  lemma HdrRoundTrip(h: AdvHdr)
    requires h.pduType < 8 && h.len < 64
    ensures DecodeHdr(EncodeHdr(h)[0], EncodeHdr(h)[1]) == Ok(h)
  {
    HdrFirstByte(h.pduType, h.chSel, h.txAdd);
    HdrSecondByte(h.rxAdd, h.len);
  }

  lemma HdrFirstByte(t: u8, c: bool, x: bool)
    requires t < 8
    ensures var b := t % 16 + 64 * BoolBit(c) + 128 * BoolBit(x); b % 16 == t && Bit(b, 64) == c && Bit(b, 128) == x
  {
    if c {
      if x {
      }
    }
  }

  lemma HdrSecondByte(r: bool, len: u8)
    requires len < 64
    ensures var b := BoolBit(r) + 2 * (len % 64); Bit(b, 1) == r && (b / 2) % 64 == len
  {
    var b := BoolBit(r) + 2 * len;
    assert b / 2 == len && b % 2 == BoolBit(r);
  }

  /** The pointer survives exactly when each field fits its bits; otherwise the excess is cut off. */
  lemma AuxRoundTrip(p: AuxPtr)
    ensures DecodeAux(EncodeAux(p)) == p <==> p.InRange()
    ensures DecodeAux(EncodeAux(p)).InRange()
  {
    var c, o := p.channel, p.offset;
    AuxFirstByte(c % 64, o % 4);
    AuxOffset(o);
  }

  lemma AuxFirstByte(c: nat, o: nat)
    requires c < 64 && o < 4
    ensures var b := c + 64 * o; b < 256 && b % 64 == c && b / 64 == o
  {}

  lemma AuxOffset(o: nat)
    ensures o % 4 + 4 * ((o / 4) % 256) == o % 1024
  {}

  // ---------- Decoding ----------

  function Decode(bytes: seq<u8>): Result<AdvPdu> {
    if |bytes| < 2 then Err(InvalidPdu)
    else
      match DecodeHdr(bytes[0], bytes[1])
      case Err(e) => Err(e)
      case Ok(h) => if |bytes| - 2 != h.len then Err(InvalidLength) else DecodePayload(h.pduType, bytes[2..])
  }

  function DecodePayload(pduType: u8, b: seq<u8>): Result<AdvPdu> {
    if pduType == PDU_ADV_EXT_IND then DecodeExt(b)
    else if pduType > PDU_ADV_EXT_IND then Err(InvalidPdu)
    else if |b| < 6 then Err(InvalidLength)
    else
      var addr, rest := b[..6], b[6..];
      if pduType == PDU_ADV_IND then Ok(AdvInd(addr, rest))
      else if pduType == PDU_ADV_DIRECT_IND then if |rest| != 6 then Err(InvalidLength) else Ok(AdvDirectInd(addr, rest))
      else if pduType == PDU_ADV_NONCONN_IND then Ok(AdvNonconnInd(addr, rest))
      else if pduType == PDU_SCAN_REQ then if |rest| != 6 then Err(InvalidLength) else Ok(ScanReq(addr, rest))
      else if pduType == PDU_SCAN_RSP then Ok(ScanRsp(addr, rest))
      else if pduType == PDU_CONNECT_REQ then
        if |rest| != 28 then Err(InvalidLength) else Ok(ConnectReq(addr, rest[..6], rest[6..]))
      else Ok(AdvScanInd(addr, rest))
  }

  /** Extended advertising payloads are told apart by length alone. */
  function DecodeExt(b: seq<u8>): Result<AdvPdu> {
    if |b| == 12 then Ok(AdvExtInd(b[..6], b[6], b[7..9], DecodeAux(b[9..12])))
    else if |b| >= 10 then
      var end := 9 + b[8] as nat;
      if |b| >= end then Ok(AuxAdvExtInd(b[..6], b[6..8], b[9], b[end..])) else Err(InvalidLength)
    else if |b| == 3 then Ok(PeriodicAdv(b[0], b[1..3]))
    else Err(InvalidLength)
  }

  // ---------- Encoding ----------

  function PduType(p: AdvPdu): u8 {
    match p
    case AdvInd(_, _) => PDU_ADV_IND
    case AdvDirectInd(_, _) => PDU_ADV_DIRECT_IND
    case AdvNonconnInd(_, _) => PDU_ADV_NONCONN_IND
    case ScanReq(_, _) => PDU_SCAN_REQ
    case ScanRsp(_, _) => PDU_SCAN_RSP
    case ConnectReq(_, _, _) => PDU_CONNECT_REQ
    case AdvScanInd(_, _) => PDU_ADV_SCAN_IND
    case _ => PDU_ADV_EXT_IND
  }

  /** The payload length the encoder announces. */
  function PayloadLen(p: AdvPdu): nat {
    match p
    case AdvInd(_, data) => 6 + |data|
    case AdvDirectInd(_, _) => 12
    case AdvNonconnInd(_, data) => 6 + |data|
    case ScanReq(_, _) => 12
    case ScanRsp(_, data) => 6 + |data|
    case ConnectReq(_, _, _) => 34
    case AdvScanInd(_, data) => 6 + |data|
    case AdvExtInd(_, _, _, _) => 12
    case AuxAdvExtInd(_, _, _, data) => 10 + |data|
    case AuxAdvExtIndWithEh(_, _, ehs, data) => 8 + |ehs| + |data|
    case PeriodicAdv(_, _) => 3
  }

  /** The payload writers copy slices of fixed length and read the first extended header byte. */
  predicate Writable(p: AdvPdu) {
    (p.ConnectReq? ==> |p.llData| == 22) && (p.AuxAdvExtIndWithEh? ==> p.ehs != [])
  }

  function Payload(p: AdvPdu): (r: seq<u8>)
    requires Writable(p)
    ensures |r| == PayloadLen(p)
  {
    match p
    case AdvInd(a, data) => a + data
    case AdvDirectInd(a, b) => a + b
    case AdvNonconnInd(a, data) => a + data
    case ScanReq(a, b) => a + b
    case ScanRsp(a, data) => a + data
    case ConnectReq(a, b, ll) => a + b + ll
    case AdvScanInd(a, data) => a + data
    case AdvExtInd(a, mode, adi, aux) => a + [mode] + adi + EncodeAux(aux)
    case AuxAdvExtInd(a, adi, t, data) => a + adi + [1, t] + data
    case AuxAdvExtIndWithEh(a, adi, ehs, data) => a + adi + ehs + data
    case PeriodicAdv(mode, adi) => [mode] + adi
  }

  /** The address-type bits that reach the header. */
  function Header(p: AdvPdu, txAdd: bool, rxAdd: bool): AdvHdr {
    AdvHdr(PduType(p), false, txAdd && !p.AdvNonconnInd?, rxAdd && (p.ScanReq? || p.ConnectReq?), AsU8(PayloadLen(p)))
  }

  function Encoded(p: AdvPdu, txAdd: bool, rxAdd: bool): seq<u8>
    requires Writable(p)
  {
    EncodeHdr(Header(p, txAdd, rxAdd)) + Payload(p)
  }

  /** Why encoding into `capacity` bytes is refused. */
  function EncodeError(p: AdvPdu, capacity: nat): Option<Error> {
    if capacity < 2 then Some(BufferTooSmall)
    else if PayloadLen(p) > PAYLOAD_MAX then Some(InvalidLength)
    else if capacity < 2 + PayloadLen(p) then Some(BufferTooSmall)
    else None
  }

  method EncodeTyped(p: AdvPdu, out: array<u8>, txAdd: bool, rxAdd: bool) returns (r: Result<nat>)
    requires EncodeError(p, out.Length) == None ==> Writable(p)
    modifies out
    ensures match EncodeError(p, out.Length)
            case Some(e) => r == Err(e) && out[..] == old(out[..])
            case None => r == Ok(2 + PayloadLen(p)) && out[..] == Encoded(p, txAdd, rxAdd) + old(out[2 + PayloadLen(p)..])
  {
    hide EncodeHdr, Payload, Header;
    if out.Length < 2 {
      return Err(BufferTooSmall);
    }
    if PayloadLen(p) > PAYLOAD_MAX {
      return Err(InvalidLength);
    }
    var total := 2 + PayloadLen(p);
    if out.Length < total {
      return Err(BufferTooSmall);
    }
    ghost var rest := out[total..];
    CopyFromSlice(out, 0, EncodeHdr(Header(p, txAdd, rxAdd)));
    assert out[total..] == rest;
    CopyFromSlice(out, 2, Payload(p));
    assert out[..total] == Encoded(p, txAdd, rxAdd) && out[total..] == rest;
    assert out[..] == out[..total] + out[total..];
    return Ok(total);
  }

  method Encode(p: AdvPdu, out: array<u8>) returns (r: Result<nat>)
    requires EncodeError(p, out.Length) == None ==> Writable(p)
    modifies out
    ensures match EncodeError(p, out.Length)
            case Some(e) => r == Err(e) && out[..] == old(out[..])
            case None => r == Ok(2 + PayloadLen(p)) && out[..] == Encoded(p, false, false) + old(out[2 + PayloadLen(p)..])
  {
    r := EncodeTyped(p, out, false, false);
  }

  // ---------- Round trips ----------

  /** Variants that the wire format keeps apart. */
  predicate Faithful(p: AdvPdu) {
    match p
    case AdvExtInd(_, _, _, aux) => aux.InRange()
    case AuxAdvExtInd(_, _, _, data) => |data| != 2
    case AuxAdvExtIndWithEh(_, _, _, _) => false
    case _ => true
  }

  lemma DecodeEncoded(p: AdvPdu, txAdd: bool, rxAdd: bool)
    requires Writable(p) && PayloadLen(p) <= PAYLOAD_MAX
    ensures Decode(Encoded(p, txAdd, rxAdd)) == DecodePayload(PduType(p), Payload(p))
  {
    hide EncodeHdr, DecodeHdr, DecodePayload, Payload;
    HdrRoundTrip(Header(p, txAdd, rxAdd));
    assert Encoded(p, txAdd, rxAdd)[2..] == Payload(p);
  }

  lemma LegacyPayload(p: AdvPdu)
    requires Writable(p) && PduType(p) != PDU_ADV_EXT_IND
    ensures DecodePayload(PduType(p), Payload(p)) == Ok(p)
  {
    var b := Payload(p);
    match p
    case AdvInd(a, data) => assert b[..6] == a && b[6..] == data;
    case AdvDirectInd(a, c) => assert b[..6] == a && b[6..] == c;
    case AdvNonconnInd(a, data) => assert b[..6] == a && b[6..] == data;
    case ScanReq(a, c) => assert b[..6] == a && b[6..] == c;
    case ScanRsp(a, data) => assert b[..6] == a && b[6..] == data;
    case ConnectReq(a, c, ll) => assert b[..6] == a && b[6..][..6] == c && b[6..][6..] == ll;
    case AdvScanInd(a, data) => assert b[..6] == a && b[6..] == data;
  }

  lemma ExtPayload(p: AdvPdu)
    requires Writable(p) && PduType(p) == PDU_ADV_EXT_IND && !p.AuxAdvExtIndWithEh?
    ensures DecodeExt(Payload(p)) == Ok(p) <==> Faithful(p)
  {
    hide DecodeAux, EncodeAux;
    var b := Payload(p);
    match p
    case AdvExtInd(a, mode, adi, aux) =>
      assert b[..6] == a && b[6] == mode && b[7..9] == adi && b[9..12] == EncodeAux(aux);
      AuxRoundTrip(aux);
    case AuxAdvExtInd(a, adi, t, data) =>
      assert b[..6] == a && b[6..8] == adi && b[8] == 1 && b[9] == t && b[10..] == data;
    case PeriodicAdv(mode, adi) =>
      assert b[0] == mode && b[1..3] == adi;
  }

  /** Decoding inverts encoding for exactly the variants the wire format keeps apart: not an auxiliary
      pointer with fields out of range, not an auxiliary packet with two data bytes, which is read as a
      primary one, and never a custom extended header. */
  lemma RoundTripIffFaithful(p: AdvPdu, txAdd: bool, rxAdd: bool)
    requires Writable(p) && PayloadLen(p) <= PAYLOAD_MAX
    ensures Decode(Encoded(p, txAdd, rxAdd)) == Ok(p) <==> Faithful(p)
  {
    hide Encoded, Decode, Payload, DecodeExt;
    DecodeEncoded(p, txAdd, rxAdd);
    if PduType(p) != PDU_ADV_EXT_IND {
      LegacyPayload(p);
    } else if p.AuxAdvExtIndWithEh? {
      NeverWithEh(Payload(p));
    } else {
      ExtPayload(p);
    }
  }

  lemma NeverWithEh(b: seq<u8>)
    ensures DecodeExt(b).Ok? ==> !DecodeExt(b).value.AuxAdvExtIndWithEh?
  {}

  /** A custom extended header comes back as an auxiliary packet with the data intact exactly when its
      length byte counts the rest of the header and the payload length is not one of the ambiguous ones;
      the type reported is the header's, or the first data byte when the header has none. */
  lemma CustomHeaderDecodes(p: AdvPdu, txAdd: bool, rxAdd: bool)
    requires p.AuxAdvExtIndWithEh? && Writable(p) && PayloadLen(p) <= PAYLOAD_MAX
    ensures var r := Decode(Encoded(p, txAdd, rxAdd));
            (r.Ok? && r.value.AuxAdvExtInd? && r.value.data == p.data)
            <==> p.ehs[0] == |p.ehs| - 1 && PayloadLen(p) >= 10 && PayloadLen(p) != 12
    ensures p.ehs[0] == |p.ehs| - 1 && PayloadLen(p) >= 10 && PayloadLen(p) != 12 ==>
              Decode(Encoded(p, txAdd, rxAdd))
              == Ok(AuxAdvExtInd(p.advAddr, p.adi, if |p.ehs| >= 2 then p.ehs[1] else p.data[0], p.data))
  {
    hide Encoded, Decode, Payload;
    DecodeEncoded(p, txAdd, rxAdd);
    CustomPayload(p);
  }

  lemma CustomPayload(p: AdvPdu)
    requires p.AuxAdvExtIndWithEh? && Writable(p)
    ensures var b := Payload(p);
            && b[..6] == p.advAddr && b[6..8] == p.adi && b[8] == p.ehs[0]
            && (|b| >= 10 ==> b[9] == if |p.ehs| >= 2 then p.ehs[1] else p.data[0])
            && b[8 + |p.ehs|..] == p.data
  {}

  /** Two different PDUs that the wire cannot tell apart. */
  lemma AuxiliaryReadAsPrimary(a: Addr, adi: Adi, t: u8, d0: u8, d1: u8, txAdd: bool, rxAdd: bool)
    ensures var p := AuxAdvExtInd(a, adi, t, [d0, d1]);
            Decode(Encoded(p, txAdd, rxAdd)) == Ok(AdvExtInd(a, adi[0], [adi[1], 1], DecodeAux([t, d0, d1])))
  {
    hide Encoded, Decode, DecodeAux;
    var p := AuxAdvExtInd(a, adi, t, [d0, d1]);
    DecodeEncoded(p, txAdd, rxAdd);
    var b := Payload(p);
    assert b[..6] == a && b[6] == adi[0] && b[7..9] == [adi[1], 1] && b[9..12] == [t, d0, d1];
  }

  /** The bytes of a packet: its type in the lower four bits, its length in bits 1 to 6 of the second byte,
      and addresses, fields and data where `PayloadLayout` says. */
  lemma Layout(p: AdvPdu, txAdd: bool, rxAdd: bool)
    requires Writable(p) && PayloadLen(p) <= PAYLOAD_MAX
    ensures var e := Encoded(p, txAdd, rxAdd);
            && 5 <= |e| <= 65 && e[0] % 16 == TypeNumber(p) && e[1] / 2 == |e| - 2 && PayloadLayout(p, e[2..])
  {
    hide EncodeHdr, Payload, PayloadLayout;
    HeaderLayout(p, txAdd, rxAdd);
    assert Encoded(p, txAdd, rxAdd)[2..] == Payload(p);
    if PduType(p) == 7 {
      ExtLayout(p);
    } else {
      LegacyLayout(p);
    }
  }

  /** The number of each type on air. */
  function TypeNumber(p: AdvPdu): nat {
    match p
    case AdvInd(_, _) => 0
    case AdvDirectInd(_, _) => 1
    case AdvNonconnInd(_, _) => 2
    case ScanReq(_, _) => 3
    case ScanRsp(_, _) => 4
    case ConnectReq(_, _, _) => 5
    case AdvScanInd(_, _) => 6
    case _ => 7
  }

  /** The fields of a payload by position: the sender's address comes first in a request. */
  predicate PayloadLayout(p: AdvPdu, b: seq<u8>) {
    match p
    case AdvInd(a, data) => |b| >= 6 && b[..6] == a && b[6..] == data
    case AdvDirectInd(a, target) => |b| == 12 && b[..6] == a && b[6..] == target
    case AdvNonconnInd(a, data) => |b| >= 6 && b[..6] == a && b[6..] == data
    case ScanReq(scanner, a) => |b| == 12 && b[..6] == scanner && b[6..] == a
    case ScanRsp(a, data) => |b| >= 6 && b[..6] == a && b[6..] == data
    case ConnectReq(initiator, a, ll) => |b| == 34 && b[..6] == initiator && b[6..12] == a && b[12..] == ll
    case AdvScanInd(a, data) => |b| >= 6 && b[..6] == a && b[6..] == data
    case AdvExtInd(a, mode, adi, aux) => |b| == 12 && b[..6] == a && b[6] == mode && b[7..9] == adi && b[9..] == EncodeAux(aux)
    case AuxAdvExtInd(a, adi, t, data) => |b| >= 10 && b[..6] == a && b[6..8] == adi && b[8] == 1 && b[9] == t && b[10..] == data
    case AuxAdvExtIndWithEh(a, adi, ehs, data) =>
      |b| >= 8 + |ehs| && b[..6] == a && b[6..8] == adi && b[8..8 + |ehs|] == ehs && b[8 + |ehs|..] == data
    case PeriodicAdv(mode, adi) => |b| == 3 && b[0] == mode && b[1..] == adi
  }

  lemma LegacyLayout(p: AdvPdu)
    requires Writable(p) && PduType(p) != 7
    ensures PayloadLayout(p, Payload(p))
  {}

  lemma ExtLayout(p: AdvPdu)
    requires Writable(p) && PduType(p) == 7
    ensures PayloadLayout(p, Payload(p))
  {
    hide EncodeAux;
  }

  lemma HeaderLayout(p: AdvPdu, txAdd: bool, rxAdd: bool)
    requires PayloadLen(p) <= PAYLOAD_MAX
    ensures var h := EncodeHdr(Header(p, txAdd, rxAdd)); h[0] % 16 == PduType(p) && h[1] / 2 == PayloadLen(p)
  {
    hide PayloadLen, EncodeHdr;
    HdrBytes(Header(p, txAdd, rxAdd));
    HeaderNumbers(PduType(p), PayloadLen(p), Header(p, txAdd, rxAdd).txAdd, Header(p, txAdd, rxAdd).rxAdd);
  }

  lemma HeaderNumbers(t: nat, len: nat, tx: bool, rx: bool)
    requires t < 16
    ensures (t + 64 * BoolBit(false) + 128 * BoolBit(tx)) % 16 == t && (BoolBit(rx) + 2 * len) / 2 == len
  {}

  /** An auxiliary pointer in range is the 24-bit number with the channel in the low six bits, the offset in
      the next ten and the PHY above, low byte first. */
  lemma AuxLayout(p: AuxPtr)
    requires p.InRange()
    ensures var b := EncodeAux(p);
            b[0] as nat + 0x100 * b[1] as nat + 0x1_0000 * b[2] as nat == p.channel as nat + 64 * p.offset as nat + 0x1_0000 * p.phy as nat
  {
    var o := p.offset;
    assert o == o % 4 + 4 * (o / 4) && o / 4 < 256;
  }

  /** Which refusal an encoder gives: too long for the length field before too long for the buffer. */
  lemma EncodeRefusals(p: AdvPdu, capacity: nat)
    ensures EncodeError(p, capacity) == Some(InvalidLength) <==> capacity >= 2 && PayloadLen(p) > 63
    ensures EncodeError(p, capacity) == Some(BufferTooSmall) <==> capacity < 2 || (PayloadLen(p) <= 63 && capacity < 2 + PayloadLen(p))
    ensures EncodeError(p, capacity) == None <==> PayloadLen(p) <= 63 && capacity >= 2 + PayloadLen(p)
  {}

  /** The payload lengths each type takes. */
  predicate LengthFits(pduType: u8, b: seq<u8>) {
    if pduType == PDU_ADV_EXT_IND then |b| == 3 || |b| == 12 || (|b| >= 10 && |b| >= 9 + b[8] as nat)
    else if pduType == PDU_ADV_DIRECT_IND || pduType == PDU_SCAN_REQ then |b| == 12
    else if pduType == PDU_CONNECT_REQ then |b| == 34
    else |b| >= 6
  }

  /** Decoding never fails but for a reserved type, a length byte that disagrees or a length that the
      type does not take, and reports the type that was sent. */
  lemma DecodesIffFramed(bytes: seq<u8>)
    ensures Decode(bytes).Ok? <==> |bytes| >= 2 && bytes[0] % 16 <= 7 && |bytes| - 2 == (bytes[1] / 2) % 64
                                   && LengthFits(bytes[0] % 16, bytes[2..])
    ensures Decode(bytes).Ok? ==> PduType(Decode(bytes).value) == bytes[0] % 16
    ensures Decode(bytes) == Err(InvalidPdu) <==> |bytes| < 2 || bytes[0] % 16 > 7
    ensures Decode(bytes).Err? ==> Decode(bytes).error == InvalidPdu || Decode(bytes).error == InvalidLength
  {}

  /** Whatever decodes was the encoding of the result: of every legacy packet and periodic packet to the
      byte, of a primary extended packet up to the reserved bits of its pointer, and of an auxiliary packet
      whenever its extended header is a bare type. */
  lemma EncodeDecoded(t: u8, b: seq<u8>)
    requires DecodePayload(t, b).Ok?
    ensures var p := DecodePayload(t, b).value;
            Writable(p) && PduType(p) == t
            && (if p.AdvExtInd? then |b| == 12 && Payload(p) == b[11 := b[11] % 4]
                else if p.AuxAdvExtInd? then |b| >= 10 && (Payload(p) == b <==> b[8] == 1)
                else Payload(p) == b)
  {
    hide EncodeAux, DecodeAux, DecodeExt, DecodePayload, Payload;
    if t == PDU_ADV_EXT_IND {
      ExtDispatch(b);
      EncodeDecodedExt(b);
    } else {
      EncodeDecodedLegacy(t, b);
    }
  }

  lemma ExtDispatch(b: seq<u8>)
    ensures DecodePayload(PDU_ADV_EXT_IND, b) == DecodeExt(b)
  {}

  lemma EncodeDecodedLegacy(t: u8, b: seq<u8>)
    requires t != PDU_ADV_EXT_IND && DecodePayload(t, b).Ok?
    ensures var p := DecodePayload(t, b).value; Writable(p) && PduType(p) == t && t < 7 && Payload(p) == b
  {
    assert b == b[..6] + b[6..];
    if t == PDU_CONNECT_REQ {
      assert b == b[..6] + b[6..][..6] + b[6..][6..];
    }
  }

  lemma EncodeDecodedExt(b: seq<u8>)
    requires DecodeExt(b).Ok?
    ensures var p := DecodeExt(b).value;
            Writable(p) && PduType(p) == PDU_ADV_EXT_IND
            && (if p.AdvExtInd? then |b| == 12 && Payload(p) == b[11 := b[11] % 4]
                else if p.AuxAdvExtInd? then |b| >= 10 && (Payload(p) == b <==> b[8] == 1)
                else Payload(p) == b)
  {
    hide EncodeAux, DecodeAux;
    if |b| == 12 {
      AuxDecoded(b[9..12]);
    } else if |b| >= 10 {
      AuxiliaryEncoded(b[..6], b[6..8], b[9], b[9 + b[8] as nat..]);
      if b[8] == 1 {
        assert b == b[..6] + b[6..8] + [1, b[9]] + b[10..];
      }
    }
  }

  lemma AuxiliaryEncoded(a: Addr, adi: Adi, t: u8, data: seq<u8>)
    ensures Payload(AuxAdvExtInd(a, adi, t, data)) == a + adi + [1, t] + data
    ensures Payload(AuxAdvExtInd(a, adi, t, data))[8] == 1
  {}

  lemma AuxDecoded(b: seq<u8>)
    requires |b| == 3
    ensures EncodeAux(DecodeAux(b)) == [b[0], b[1], b[2] % 4]
  {
    var o := (b[0] as nat) / 64 + 4 * (b[1] as nat);
    assert o % 4 == b[0] / 64 && o / 4 == b[1];
  }

  /** The header bits that an encoder given the address types of `bytes` can write: no reserved bit and no
      ChSel, TxAdd on all but non-connectable packets, RxAdd on the two requests. */
  predicate WritableHeader(bytes: seq<u8>)
    requires |bytes| >= 2
  {
    var t := bytes[0] % 16;
    && (bytes[0] / 16) % 8 == 0 && bytes[1] < 128
    && (Bit(bytes[0], 128) ==> t != PDU_ADV_NONCONN_IND)
    && (Bit(bytes[1], 1) ==> t == PDU_SCAN_REQ || t == PDU_CONNECT_REQ)
  }

  /** Re-encoding a decoded packet with its own address types gives back every byte exactly when its header
      can be written and its payload is the encoding of the result. */
  lemma ReencodesIffWritable(bytes: seq<u8>)
    requires Decode(bytes).Ok?
    ensures var p := Decode(bytes).value;
            Writable(p)
            && (Encoded(p, Bit(bytes[0], 128), Bit(bytes[1], 1)) == bytes <==> WritableHeader(bytes) && Payload(p) == bytes[2..])
  {
    hide Decode, DecodePayload, Payload, EncodeHdr, WritableHeader;
    DecodesIffFramed(bytes);
    PayloadDecoded(bytes);
    var p := Decode(bytes).value;
    var tx, rx := Bit(bytes[0], 128), Bit(bytes[1], 1);
    var h, e := EncodeHdr(Header(p, tx, rx)), Encoded(p, tx, rx);
    assert e[..2] == h && e[2..] == Payload(p);
    assert bytes == bytes[..2] + bytes[2..];
    if Payload(p) == bytes[2..] {
      assert bytes[..2] == [bytes[0], bytes[1]];
      HeaderWritten(p, bytes);
    }
  }

  lemma PayloadDecoded(bytes: seq<u8>)
    requires Decode(bytes).Ok?
    ensures Writable(Decode(bytes).value)
  {
    EncodeDecoded(bytes[0] % 16, bytes[2..]);
  }

  lemma HeaderWritten(p: AdvPdu, bytes: seq<u8>)
    requires |bytes| >= 2 && PduType(p) == bytes[0] % 16 <= 7 && PayloadLen(p) == (bytes[1] / 2) % 64
    ensures EncodeHdr(Header(p, Bit(bytes[0], 128), Bit(bytes[1], 1))) == [bytes[0], bytes[1]] <==> WritableHeader(bytes)
  {
    hide PayloadLen, Bit, EncodeHdr, Header;
    var b0, b1 := bytes[0], bytes[1];
    var tx, rx := Bit(b0, 128), Bit(b1, 1);
    var t := PduType(p);
    HeaderBytes(b0, b1);
    EncodedHeader(p, tx, rx);
    FirstByte(t, (b0 / 16) % 8, tx, t != PDU_ADV_NONCONN_IND);
    SecondByte((b1 / 2) % 64, b1 / 128, rx, t == PDU_SCAN_REQ || t == PDU_CONNECT_REQ);
  }

  lemma EncodedHeader(p: AdvPdu, tx: bool, rx: bool)
    requires PayloadLen(p) < 64
    ensures var t, h := PduType(p), EncodeHdr(Header(p, tx, rx));
            && h[0] == t + 128 * BoolBit(tx && t != PDU_ADV_NONCONN_IND)
            && h[1] == BoolBit(rx && (t == PDU_SCAN_REQ || t == PDU_CONNECT_REQ)) + 2 * PayloadLen(p)
  {
    hide PayloadLen, EncodeHdr;
    HdrBytes(Header(p, tx, rx));
  }

  lemma HdrBytes(h: AdvHdr)
    requires h.pduType < 16 && h.len < 64
    ensures EncodeHdr(h) == [h.pduType + 64 * BoolBit(h.chSel) + 128 * BoolBit(h.txAdd), BoolBit(h.rxAdd) + 2 * h.len]
  {}

  lemma FirstByte(t: nat, reserved: nat, tx: bool, kept: bool)
    requires t < 16 && reserved < 8
    ensures t + 128 * BoolBit(tx && kept) == t + 16 * reserved + 128 * BoolBit(tx) <==> reserved == 0 && (tx ==> kept)
  {}

  lemma SecondByte(len: nat, top: nat, rx: bool, kept: bool)
    requires len < 64
    ensures BoolBit(rx && kept) + 2 * len == BoolBit(rx) + 2 * len + 128 * top <==> top == 0 && (rx ==> kept)
  {}

  lemma HeaderBytes(b0: u8, b1: u8)
    ensures b0 == b0 % 16 + 16 * ((b0 / 16) % 8) + 128 * BoolBit(Bit(b0, 128))
    ensures b1 == BoolBit(Bit(b1, 1)) + 2 * ((b1 / 2) % 64) + 128 * (b1 / 128)
  {}

  // ---------- Periodic advertising information ----------

  datatype PeriodicAdvInfo = PeriodicAdvInfo(adi: Adi, interval: u16, advaType: u8)

  function EncodePeriodic(p: PeriodicAdvInfo): seq<u8> { p.adi + ToLe16(p.interval) + [p.advaType] }

  function DecodePeriodic(b: seq<u8>): Option<PeriodicAdvInfo> {
    if |b| < 5 then None else Some(PeriodicAdvInfo(b[..2], FromLe16(b[2], b[3]), b[4]))
  }

  lemma PeriodicRoundTrip(p: PeriodicAdvInfo, b: seq<u8>)
    ensures DecodePeriodic(EncodePeriodic(p)) == Some(p)
    ensures |b| == 5 ==> EncodePeriodic(DecodePeriodic(b).value) == b
  {
    assert EncodePeriodic(p)[..2] == p.adi;
  }

  // ---------- Connection parameters ----------

  datatype ConnectReqData = ConnectReqData(accessAddr: nat, crcInit: nat, winSize: u8, winOffset: u16, interval: u16,
                                           latency: u16, timeout: u16, channelMap: seq<u8>, hop: u8, sca: u8) {
    /** The widths of the Rust fields. */
    predicate Typed() { accessAddr < 0x1_0000_0000 && crcInit < 0x1_0000_0000 && |channelMap| == 5 }

    /** The widths on the wire. */
    predicate InRange() { crcInit < 0x100_0000 && hop < 32 && sca < 8 }
  }

  const CONNECT_LL_DATA_LEN: nat := 22

  function Le(n: nat, bytes: nat): (r: seq<u8>)
    ensures |r| == bytes
    decreases bytes
  {
    if bytes == 0 then [] else [n % 256] + Le(n / 256, bytes - 1)
  }

  function FromLe(b: seq<u8>): nat
    decreases |b|
  {
    if b == [] then 0 else b[0] + 256 * FromLe(b[1..])
  }

  function Pow256(n: nat): nat
    decreases n
  {
    if n == 0 then 1 else 256 * Pow256(n - 1)
  }

  lemma {:induction false} FromLeLe(n: nat, bytes: nat)
    ensures FromLe(Le(n, bytes)) < Pow256(bytes)
    ensures FromLe(Le(n, bytes)) == n <==> n < Pow256(bytes)
    decreases bytes
  {
    if bytes > 0 {
      FromLeLe(n / 256, bytes - 1);
      assert Le(n, bytes)[1..] == Le(n / 256, bytes - 1);
    }
  }

  lemma {:induction false} LeFromLe(b: seq<u8>)
    ensures Le(FromLe(b), |b|) == b
    decreases |b|
  {
    if b != [] {
      LeFromLe(b[1..]);
      assert FromLe(b) % 256 == b[0] && FromLe(b) / 256 == FromLe(b[1..]);
    }
  }

  /** Numbers stand low byte first. */
  lemma LeValue(b: seq<u8>)
    ensures |b| == 3 ==> FromLe(b) == b[0] as nat + 0x100 * b[1] as nat + 0x1_0000 * b[2] as nat
    ensures |b| == 4 ==> FromLe(b) == b[0] as nat + 0x100 * b[1] as nat + 0x1_0000 * b[2] as nat + 0x100_0000 * b[3] as nat
  {
    hide FromLe;
    if |b| == 3 || |b| == 4 {
      FromLeStep(b, 0);
      FromLeStep(b, 1);
      FromLeStep(b, 2);
      FromLeStep(b, |b| - 1);
      assert b[0..] == b && b[|b|..] == [];
      FromLeEmpty();
    }
  }

  lemma FromLeStep(b: seq<u8>, i: nat)
    requires i < |b|
    ensures FromLe(b[i..]) == b[i] as nat + 256 * FromLe(b[i + 1..])
  {
    assert b[i..][1..] == b[i + 1..];
  }

  lemma FromLeEmpty()
    ensures FromLe([]) == 0
  {}

  function EncodeLlData(d: ConnectReqData): (r: seq<u8>)
    requires d.Typed()
    ensures |r| == CONNECT_LL_DATA_LEN
  {
    Le(d.accessAddr, 4) + Le(d.crcInit, 3) + [d.winSize] + ToLe16(d.winOffset) + ToLe16(d.interval)
    + ToLe16(d.latency) + ToLe16(d.timeout) + d.channelMap + [d.hop % 32 + 32 * (d.sca % 8)]
  }

  function DecodeLlData(b: seq<u8>): Result<ConnectReqData> {
    if |b| != CONNECT_LL_DATA_LEN then Err(InvalidLength)
    else Ok(ConnectReqData(FromLe(b[0..4]), FromLe(b[4..7]), b[7], FromLe16(b[8], b[9]), FromLe16(b[10], b[11]),
                           FromLe16(b[12], b[13]), FromLe16(b[14], b[15]), b[16..21], b[21] % 32, b[21] / 32))
  }

  lemma PowThreeFour()
    ensures Pow256(3) == 0x100_0000 && Pow256(4) == 0x1_0000_0000
  {
    assert Pow256(2) == 0x1_0000;
  }

  /** Connection parameters survive exactly when the narrow fields are in range. */
  lemma LlDataRoundTrip(d: ConnectReqData)
    requires d.Typed()
    ensures DecodeLlData(EncodeLlData(d)) == Ok(d) <==> d.InRange()
  {
    hide Le, FromLe, ToLe16, FromLe16, Pow256;
    var b := EncodeLlData(d);
    PowThreeFour();
    FromLeLe(d.accessAddr, 4);
    FromLeLe(d.crcInit, 3);
    Le16RoundTrip(d.winOffset);
    Le16RoundTrip(d.interval);
    Le16RoundTrip(d.latency);
    Le16RoundTrip(d.timeout);
    LlDataLayout(d);
  }

  /** The fields of the 22 bytes by position. */
  lemma LlDataLayout(d: ConnectReqData)
    requires d.Typed()
    ensures var b := EncodeLlData(d);
            && b[0..4] == Le(d.accessAddr, 4) && b[4..7] == Le(d.crcInit, 3) && b[7] == d.winSize
            && b[8..10] == ToLe16(d.winOffset) && b[10..12] == ToLe16(d.interval)
            && b[12..14] == ToLe16(d.latency) && b[14..16] == ToLe16(d.timeout)
            && b[16..21] == d.channelMap && b[21] == d.hop % 32 + 32 * (d.sca % 8)
  {
    hide Le, ToLe16;
  }

  /** What each of the 22 bytes means: the hop is the low five bits of the last, the accuracy the rest. */
  lemma LlDataFields(b: seq<u8>)
    requires |b| == 22
    ensures var d := DecodeLlData(b);
            && d.Ok? && d.value.accessAddr == b[0] as nat + 0x100 * b[1] as nat + 0x1_0000 * b[2] as nat + 0x100_0000 * b[3] as nat
            && d.value.crcInit == b[4] as nat + 0x100 * b[5] as nat + 0x1_0000 * b[6] as nat
            && d.value.winSize == b[7] && d.value.winOffset == b[8] as nat + 256 * b[9] as nat
            && d.value.interval == b[10] as nat + 256 * b[11] as nat && d.value.latency == b[12] as nat + 256 * b[13] as nat
            && d.value.timeout == b[14] as nat + 256 * b[15] as nat && d.value.channelMap == b[16..21]
            && b[21] == d.value.hop as nat + 32 * d.value.sca as nat && d.value.hop < 32
  {
    hide FromLe;
    LeValue(b[0..4]);
    LeValue(b[4..7]);
  }

  /** Every 22-byte field decodes, and encoding gives it back. */
  lemma LlDataOnto(b: seq<u8>)
    requires |b| == CONNECT_LL_DATA_LEN
    ensures DecodeLlData(b).Ok? && DecodeLlData(b).value.Typed() && EncodeLlData(DecodeLlData(b).value) == b
  {
    hide Le, FromLe, Pow256, ToLe16, FromLe16;
    PowThreeFour();
    LeFromLe(b[0..4]);
    LeFromLe(b[4..7]);
    FromLeLe(FromLe(b[0..4]), 4);
    FromLeLe(FromLe(b[4..7]), 3);
    Le16Onto(b, 8);
    Le16Onto(b, 10);
    Le16Onto(b, 12);
    Le16Onto(b, 14);
    LastByte(b[21]);
    LlDataParts(b);
  }

  lemma Le16Onto(b: seq<u8>, at: nat)
    requires at + 1 < |b|
    ensures ToLe16(FromLe16(b[at], b[at + 1])) == b[at..at + 2]
  {}

  lemma LlDataParts(b: seq<u8>)
    requires |b| == CONNECT_LL_DATA_LEN
    ensures b == b[0..4] + b[4..7] + [b[7]] + b[8..10] + b[10..12] + b[12..14] + b[14..16] + b[16..21] + [b[21]]
  {}

  lemma LastByte(b: u8)
    ensures (b % 32) % 32 + 32 * ((b / 32) % 8) == b
  {}
}
