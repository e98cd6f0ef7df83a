/** Advertiser to scanner through the virtual radio: pack AD structures, encode ADV_IND, transmit, receive
    on the same channel, decode and iterate (the path of tests/sim_loopback.rs). */
module Loopback {
  import opened Wrappers
  import opened Octets
  import Bytes
  import Radio
  import opened Air
  import opened AdvData
  import opened A = AdvPdu

  /** Runs an `AdIter` over a buffer to its end or first error. */
  method Iterate(buf: seq<u8>) returns (r: Result<seq<AdEntry>>)
    ensures r == Entries(buf, 0)
  {
    var it := new AdIter(buf);
    var found := [];
    assert forall rest: seq<AdEntry> :: found + rest == rest;
    while true
      invariant it.buf == buf
      invariant Entries(buf, 0) == match Entries(buf, it.pos) case Err(e) => Err(e) case Ok(rest) => Ok(found + rest)
      decreases |buf| - it.pos
    {
      var next := it.Next();
      if next.None? {
        assert found + [] == found;
        return Ok(found);
      }
      if next.value.Err? {
        return Err(next.value.error);
      }
      ghost var entry := next.value.value;
      assert forall rest: seq<AdEntry> :: found + ([entry] + rest) == (found + [entry]) + rest;
      found := found + [next.value.value];
    }
  }

  /** For every address, channel, buffer size and entry list: the scanner sees the original address and
      entries exactly when they can be packed into the buffer and into a payload; otherwise the error is
      the one `build` or the encoder reports. */
  method Advertise(addr: Addr, entries: seq<AdEntry>, capacity: nat, channel: Bytes.Byte)
    returns (r: Result<(seq<u8>, seq<AdEntry>)>)
    ensures match BuildError(entries, capacity)
            case Some(e) => r == Err(e)
            case None => r == if |BuildBytes(entries)| + 6 > PAYLOAD_MAX then Err(InvalidLength) else Ok((addr, entries))
    ensures r.Ok? <==> Packable(entries) && |BuildBytes(entries)| <= Min(capacity, PAYLOAD_MAX - 6)
  {
    hide BuildBytes, BuildError, Packed, Packable, Encoded, A.Decode, Entries, ToAir, FromAir;
    BuildsIffItFits(entries, capacity);
    var ad := new u8[capacity](_ => 0);
    var n :- AdvData.Build(entries, ad);
    AllPacked(entries, capacity);
    var pdu := AdvInd(addr, ad[..n]);
    assert ad[..n] == BuildBytes(entries);
    var tx := new u8[8 + capacity](_ => 0);
    var length :- A.Encode(pdu, tx);
    var sent := tx[..length];
    assert sent == Encoded(pdu, false, false);
    var rx := Radio.Loopback(ToAir(sent), channel);
    var heard := FromAir(rx.value.pdu[..rx.value.len]);
    AirRoundTrip(sent);
    RoundTripIffFaithful(pdu, false, false);
    var decoded := A.Decode(heard);
    ParseBuilt([], entries);
    assert [] + BuildBytes(entries) == BuildBytes(entries);
    var parsed := Iterate(decoded.value.data);
    return Ok((decoded.value.advAddr, parsed.value));
  }
}
