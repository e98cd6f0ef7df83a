/** The virtual radio (src/sim.rs): `transmit` appends the CRC and whitens, `receive` de-whitens and
    validates. The lemmas state what reception guarantees for every PDU, channel and error pattern. */
module Radio {
  import opened Wrappers
  import opened Bytes
  import opened Crc
  import opened CrcAlgebra
  import opened CrcDetection
  import opened Whiten
  import opened Keystream
  import opened ChannelResidue

  /** PDU, two-byte header and three-byte CRC. */
  const MAX_PACKET_LEN: nat := 260

  datatype Packet = Packet(channel: Byte, bytes: seq<Byte>, len: nat) {
    /** Arrays in a packet have a fixed size and `len` indexes into them. */
    predicate Valid() { |bytes| == MAX_PACKET_LEN && len <= MAX_PACKET_LEN }

    /** The bytes on air. */
    function OnAir(): seq<Byte>
      requires Valid()
    {
      bytes[..len]
    }
  }

  datatype RxPacket = RxPacket(pdu: seq<Byte>, len: nat)

  /** What goes on air for `pdu`. */
  function AirBytes(pdu: seq<Byte>, channel: Byte): (r: seq<Byte>)
    ensures |r| == |pdu| + 3
  {
    Whitened(pdu + CrcTrailer(pdu), channel)
  }

  class VirtualRadio {
    const channel: Byte

    constructor (channel: Byte)
      ensures this.channel == channel
    {
      this.channel := channel;
    }

    method Transmit(pdu: seq<Byte>) returns (r: Result<Packet>)
      ensures |pdu| + 3 > MAX_PACKET_LEN ==> r == Err(BufferTooSmall)
      ensures |pdu| + 3 <= MAX_PACKET_LEN ==>
                r.Ok? && r.value.Valid() && r.value.channel == channel
                && r.value.len == |pdu| + 3 && r.value.OnAir() == AirBytes(pdu, channel)
                && r.value.bytes[r.value.len..] == Zeros(MAX_PACKET_LEN - r.value.len)
    {
      hide CrcTrailer, Whitened;
      if |pdu| + 3 > MAX_PACKET_LEN {
        return Err(BufferTooSmall);
      }
      var bytes := new Byte[MAX_PACKET_LEN](_ => 0);
      forall i | 0 <= i < |pdu| {
        bytes[i] := pdu[i];
      }
      assert bytes[..|pdu|] == pdu;
      var appended := AppendCrc(pdu, bytes, |pdu|);
      var total := |pdu| + 3;
      assert bytes[..total] == pdu + CrcTrailer(pdu);
      Whiten.Whiten(bytes, total, channel);
      return Ok(Packet(channel, bytes[..], total));
    }

    method Receive(packet: Packet) returns (r: Result<RxPacket>)
      requires packet.Valid()
      ensures r == Received(packet, channel)
    {
      hide Checks, Whitened;
      if packet.len < 3 {
        return Err(InvalidLength);
      }
      var buf := new Byte[MAX_PACKET_LEN](_ => 0);
      forall i | 0 <= i < packet.len {
        buf[i] := packet.bytes[i];
      }
      assert buf[..packet.len] == packet.OnAir();
      assert buf[packet.len..] == Zeros(MAX_PACKET_LEN - packet.len);
      Whiten.Whiten(buf, packet.len, channel);
      assert buf[..] == Whitened(packet.OnAir(), channel) + Zeros(MAX_PACKET_LEN - packet.len);
      var ok := Check(buf[..packet.len]);
      if !ok {
        return Err(CrcMismatch);
      }
      return Ok(RxPacket(buf[..], packet.len - 3));
    }
  }

  /** The outcome of receiving `packet` on `channel`. */
  function Received(packet: Packet, channel: Byte): Result<RxPacket>
    requires packet.Valid()
  {
    if packet.len < 3 then Err(InvalidLength)
    else
      var buf := Whitened(packet.OnAir(), channel);
      if !Checks(buf) then Err(CrcMismatch)
      else Ok(RxPacket(buf + Zeros(MAX_PACKET_LEN - packet.len), packet.len - 3))
  }

  /** Transmit and receive on one channel: every PDU that fits comes back, followed by nothing else
      inside its length, and a longer one is refused. */
  method Loopback(pdu: seq<Byte>, channel: Byte) returns (r: Result<RxPacket>)
    ensures |pdu| > 257 ==> r == Err(BufferTooSmall)
    ensures |pdu| <= 257 ==> r.Ok? && r.value.len == |pdu| && |r.value.pdu| == MAX_PACKET_LEN && r.value.pdu[..r.value.len] == pdu
  {
    hide Checks, Whitened, CrcTrailer, AirBytes;
    var radio := new VirtualRadio(channel);
    var sent :- radio.Transmit(pdu);
    r := radio.Receive(sent);
    ReceivedSame(sent, pdu, channel);
  }

  // ---------- Acceptance ----------

  /** `packet` is `pdu` as sent on channel `c`. */
  predicate Carries(packet: Packet, pdu: seq<Byte>, c: Byte) {
    packet.Valid() && packet.len == |pdu| + 3 && packet.OnAir() == AirBytes(pdu, c)
  }

  lemma InitFits()
    ensures In24(Reflected(Low24(CRC_INIT), CRC_BITS))
  {
    assert ReflectLoop(0x55_5555, 0, 24) == ReflectLoop(0x5555, 0xAA, 16);
    assert ReflectLoop(0x5555, 0xAA, 16) == ReflectLoop(0x55, 0xAAAA, 8);
    assert ReflectLoop(0x55, 0xAAAA, 8) == 0xAAAAAA;
  }

  lemma {:induction false} CrcConcat(c: Reg, a: seq<Byte>, b: seq<Byte>)
    ensures CrcBytes(c, a + b) == CrcBytes(CrcBytes(c, a), b)
    decreases |b|
  {
    hide CrcByte;
    if b == [] {
      assert a + b == a;
    } else {
      var n := |b| - 1;
      assert a + b == (a + b[..n]) + [b[n]];
      CrcConcat(c, a, b[..n]);
      CrcBytesSnoc(c, a + b[..n], b[n]);
    }
  }

  /** A word passes the residue test exactly when its last three bytes are the CRC of the rest. */
  lemma CheckAcceptsOnlyCrc(pdu: seq<Byte>, t: seq<Byte>)
    requires |t| == 3
    ensures Checks(pdu + t) <==> t == CrcTrailer(pdu)
  {
    hide In24, CrcBytes, RegBytes, Reflected;
    InitFits();
    var c := Reflected(Low24(CRC_INIT), CRC_BITS);
    CrcBytes24(c, pdu);
    CrcConcat(c, pdu, t);
    ResidueOfTrailer(CrcBytes(c, pdu), t);
  }

  /** Reception splits every error pattern into a residue that the PDU plays no part in. */
  lemma AcceptedIffErrorSilent(pdu: seq<Byte>, err: seq<Byte>)
    requires |err| == |pdu| + 3
    ensures Checks(XorBytes(pdu + CrcTrailer(pdu), err)) <==> CrcBytes(0, err) == 0
  {
    hide In24, CrcBytes, CrcTrailer, Reflected, Xor, XorBytes;
    InitFits();
    Step24Zero();
    var c := Reflected(Low24(CRC_INIT), CRC_BITS);
    TrailerLength(pdu);
    CheckAcceptsOnlyCrc(pdu, CrcTrailer(pdu));
    CrcSuperposition(c, 0, pdu + CrcTrailer(pdu), err);
    XorUnit(c);
    XorUnit(CrcBytes(0, err));
  }

  /** `packet` with `err` added on air. */
  function Corrupted(packet: Packet, err: seq<Byte>): Packet
    requires packet.Valid() && |err| == packet.len
  {
    packet.(bytes := XorBytes(packet.OnAir(), err) + packet.bytes[packet.len..])
  }

  /** On the sender's channel an error is rejected exactly when its own bits leave a residue. */
  lemma RejectedIffResidue(packet: Packet, pdu: seq<Byte>, c: Byte, err: seq<Byte>)
    requires Carries(packet, pdu, c) && |err| == packet.len
    ensures Corrupted(packet, err).Valid()
    ensures Received(Corrupted(packet, err), c) == Err(CrcMismatch) <==> FeedBits(0, Bits(err)) != 0
    ensures FeedBits(0, Bits(err)) == 0 ==>
              var r := Received(Corrupted(packet, err), c);
              r.Ok? && r.value.len == |pdu| && |r.value.pdu| == MAX_PACKET_LEN && r.value.pdu[..|pdu|] == XorBytes(pdu, err[..|pdu|])
  {
    hide Checks, Whitened, CrcTrailer, XorBytes, FeedBits, Bits, CrcBytes, In24;
    TrailerLength(pdu);
    XorPrefix(pdu, CrcTrailer(pdu), err);
    var word := pdu + CrcTrailer(pdu);
    var hit := Corrupted(packet, err);
    assert hit.OnAir() == XorBytes(Whitened(word, c), err);
    WhitenCarriesError(Whitened(word, c), err, c);
    WhitenInvolution(word, c);
    AcceptedIffErrorSilent(pdu, err);
    Step24Zero();
    CrcIsBitFeed(0, err);
  }

  lemma XorPrefix(a: seq<Byte>, b: seq<Byte>, err: seq<Byte>)
    requires |err| == |a| + |b|
    ensures XorBytes(a + b, err)[..|a|] == XorBytes(a, err[..|a|])
  {
    hide XorByte;
  }

  /** A packet too short for a CRC is refused for its length, whatever its bytes and channel. */
  lemma ShortPacketRefused(packet: Packet, c: Byte)
    requires packet.Valid()
    ensures Received(packet, c) == Err(InvalidLength) <==> packet.len < 3
  {
    hide Checks, Whitened;
  }

  lemma ReceivedSame(packet: Packet, pdu: seq<Byte>, c: Byte)
    requires Carries(packet, pdu, c)
    ensures var r := Received(packet, c);
            r.Ok? && r.value.len == |pdu| && |r.value.pdu| == MAX_PACKET_LEN && r.value.pdu[..|pdu|] == pdu
  {
    hide Checks, Whitened, CrcTrailer;
    WhitenInvolution(pdu + CrcTrailer(pdu), c);
    TrailerLength(pdu);
    CheckAcceptsOnlyCrc(pdu, CrcTrailer(pdu));
  }

  lemma TrailerLength(pdu: seq<Byte>)
    ensures |CrcTrailer(pdu)| == 3
  {}

  // ---------- Error detection ----------

  /** Every nonzero error confined to 24 consecutive on-air bits is rejected: the bits are counted
      least significant first in each byte and may touch the CRC. */
  lemma BurstRejected(packet: Packet, pdu: seq<Byte>, c: Byte, err: seq<Byte>, start: nat)
    requires Carries(packet, pdu, c) && |err| == packet.len
    requires Burst(Bits(err), start)
    ensures Corrupted(packet, err).Valid() && Received(Corrupted(packet, err), c) == Err(CrcMismatch)
  {
    hide Carries, Corrupted, Received, Bits, FeedBits, Burst;
    assert packet.Valid() by { CarriesValid(packet, pdu, c); }
    RejectedIffResidue(packet, pdu, c, err);
    BurstLeavesResidue(Bits(err), start);
  }

  lemma CarriesValid(packet: Packet, pdu: seq<Byte>, c: Byte)
    requires Carries(packet, pdu, c)
    ensures packet.Valid()
  {}

  /** Every error that flips an odd number of bits is rejected. */
  lemma OddErrorRejected(packet: Packet, pdu: seq<Byte>, c: Byte, err: seq<Byte>)
    requires Carries(packet, pdu, c) && |err| == packet.len
    requires OddOnes(Bits(err))
    ensures Corrupted(packet, err).Valid() && Received(Corrupted(packet, err), c) == Err(CrcMismatch)
  {
    hide Carries, Corrupted, Received, Bits, FeedBits, OddOnes;
    RejectedIffResidue(packet, pdu, c, err);
    OddErrorLeavesResidue(Bits(err));
  }

  /** Every error that flips exactly two bits is rejected, so with the odd case every error of up to
      three bits is. */
  lemma TwoBitErrorRejected(packet: Packet, pdu: seq<Byte>, c: Byte, err: seq<Byte>, p: nat, q: nat)
    requires Carries(packet, pdu, c) && |err| == packet.len
    requires TwoOnes(Bits(err), p, q)
    ensures Corrupted(packet, err).Valid() && Received(Corrupted(packet, err), c) == Err(CrcMismatch)
  {
    hide Corrupted, Received, Bits, FeedBits, TwoOnes;
    RejectedIffResidue(packet, pdu, c, err);
    TwoOnesLeaveResidue(Bits(err), p, q);
  }

  // ---------- Channels ----------

  /** A packet is received exactly on the channels whose low six bits are those of the sender's channel;
      on every other channel it is a CRC mismatch, whatever the PDU. */
  lemma ReceivedOnlyOnItsChannel(packet: Packet, pdu: seq<Byte>, c1: Byte, c2: Byte)
    requires Carries(packet, pdu, c1)
    ensures c1 & 0x3F != c2 & 0x3F ==> Received(packet, c2) == Err(CrcMismatch)
    ensures c1 & 0x3F == c2 & 0x3F ==> Received(packet, c2) == Received(packet, c1)
  {
    hide Checks, Whitened, CrcTrailer, XorBytes, CrcBytes, Seed, Seven, XorLfsr, KeyStream;
    var word := pdu + CrcTrailer(pdu);
    if c1 & 0x3F == c2 & 0x3F {
      ChannelsSeparateEveryByte(packet.OnAir(), c1, c2);
    } else {
      var l := XorLfsr(Seed(c1), Seed(c2));
      WhitenTwoChannels(word, c1, c2);
      AcceptedIffErrorSilent(pdu, KeyStream(l, |word|));
      SeedsApart(c1, c2);
      KeyStreamLeavesResidue(l, |word|);
    }
  }

  lemma SeedsApart(c1: Byte, c2: Byte)
    requires c1 & 0x3F != c2 & 0x3F
    ensures var l := XorLfsr(Seed(c1), Seed(c2)); Seven(l) && l != 0
  {}
}
