/** Fragmenting a message and reassembling it on the other side: how many fragments there are, when the
    fragmenter ends, and that the peer is handed exactly the message that was queued. */
module Fragmentation {
  import opened Wrappers
  import opened Octets
  import opened DataPdu
  import opened Link

  /** A pending message that `tx_fragment` can finish: a first fragment must have room for a body. */
  predicate CanFinish(tx: Tx, pduMax: nat) {
    tx.pending && tx.offset <= |tx.msg| < 0x1_0000 && (pduMax >= 5 || tx.msg == [])
  }

  /** No fragment overruns the 64-byte transmit buffer. */
  predicate FitsBuffer(tx: Tx, pduMax: nat) {
    pduMax <= 62 || |tx.msg| + 4 <= 62
  }

  /** The fragments of successive `tx_fragment` calls, until the message is no longer pending. */
  function Frags(tx: Tx, pduMax: nat): (r: seq<Frag>)
    requires CanFinish(tx, pduMax)
    ensures r != []
    decreases |tx.msg| - tx.offset
  {
    var next := AfterFrag(tx, pduMax);
    [NextFrag(tx, pduMax)] + if next.pending then Frags(next, pduMax) else []
  }

  /** The fragmenter after `k` calls. */
  function AfterN(tx: Tx, pduMax: nat, k: nat): (r: Tx)
    requires tx.offset <= |tx.msg|
    ensures r.msg == tx.msg && r.offset <= |r.msg|
    decreases k
  {
    if k == 0 then tx else AfterN(AfterFrag(tx, pduMax), pduMax, k - 1)
  }

  function PayloadSum(fs: seq<Frag>): nat
    decreases |fs|
  {
    if fs == [] then 0 else |fs[0].payload| + PayloadSum(fs[1..])
  }

  /** `k` is `a` over `b`, rounded up. */
  predicate IsCeil(k: int, a: nat, b: nat) { b * k - b < a <= b * k }

  // ---------- Accounting ----------

  /** The fragmenter ends exactly when its calls produced `Frags`, and rests at offset zero. */
  lemma {:induction false} FragmenterEnds(tx: Tx, pduMax: nat, k: nat)
    requires CanFinish(tx, pduMax) && k <= |Frags(tx, pduMax)|
    ensures AfterN(tx, pduMax, k).pending <==> k < |Frags(tx, pduMax)|
    ensures k < |Frags(tx, pduMax)| ==> Frags(tx, pduMax)[k] == NextFrag(AfterN(tx, pduMax, k), pduMax)
    ensures k == |Frags(tx, pduMax)| ==> AfterN(tx, pduMax, k) == tx.(offset := 0, pending := false)
    decreases k
  {
    if k > 0 && AfterFrag(tx, pduMax).pending {
      FragmenterEnds(AfterFrag(tx, pduMax), pduMax, k - 1);
    }
  }

  /** With a fragment size of four or less a message with a body is never finished: the header-only
      first fragment is repeated for ever. Together with `FragmenterEnds` this is the exact condition. */
  lemma {:induction false} SmallPduNeverEnds(tx: Tx, pduMax: nat, k: nat)
    requires tx.pending && tx.offset == 0 && tx.msg != [] && pduMax <= 4
    ensures AfterN(tx, pduMax, k) == tx && AfterN(tx, pduMax, k).pending
    decreases k
  {
    if k > 0 {
      SmallPduNeverEnds(tx, pduMax, k - 1);
    }
  }

  lemma CeilStep(k: int, a: nat, b: nat)
    ensures 0 < a <= b ==> IsCeil(1, a, b)
    ensures a > b && IsCeil(k, a - b, b) ==> IsCeil(k + 1, a, b)
  {
    assert b * (k + 1) == b * k + b;
  }

  /** Every fragment after the first continues the message with between one and `pduMax` bytes. */
  lemma {:induction false} ContinuationAccounting(tx: Tx, pduMax: nat)
    requires CanFinish(tx, pduMax) && 0 < tx.offset < |tx.msg|
    ensures var fs := Frags(tx, pduMax);
            && PayloadSum(fs) == |tx.msg| - tx.offset
            && IsCeil(|fs|, |tx.msg| - tx.offset, pduMax)
            && forall i :: 0 <= i < |fs| ==> fs[i].llid == LLID_DATA_CONTINUATION_OR_COMPLETE && 0 < |fs[i].payload| <= pduMax
    decreases |tx.msg| - tx.offset
  {
    var fs, next := Frags(tx, pduMax), AfterFrag(tx, pduMax);
    CeilStep(|fs| - 1, |tx.msg| - tx.offset, pduMax);
    if next.pending {
      ContinuationAccounting(next, pduMax);
      assert fs[1..] == Frags(next, pduMax);
    } else {
      assert fs[1..] == [];
    }
  }

  /** Payloads fit, add up to the message and its header, and only the first fragment starts a message. */
  lemma FragmentAccounting(tx: Tx, pduMax: nat)
    requires CanFinish(tx, pduMax) && tx.offset == 0 && pduMax >= 5
    ensures var fs := Frags(tx, pduMax); var n := |tx.msg|;
            && PayloadSum(fs) == n + 4
            && (forall i :: 0 <= i < |fs| ==> |fs[i].payload| <= pduMax)
            && (fs[0].llid == LLID_DATA_COMPLETE <==> n + 4 <= pduMax)
            && (fs[0].llid == LLID_DATA_START <==> n + 4 > pduMax)
            && (forall i :: 1 <= i < |fs| ==> fs[i].llid == LLID_DATA_CONTINUATION_OR_COMPLETE)
            && if n + 4 <= pduMax then |fs| == 1 else IsCeil(|fs| - 1, n - (pduMax - 4), pduMax)
  {
    var fs, next := Frags(tx, pduMax), AfterFrag(tx, pduMax);
    if next.pending {
      ContinuationAccounting(next, pduMax);
      assert fs[1..] == Frags(next, pduMax);
    } else {
      assert fs[1..] == [];
    }
  }

  /** The fragments of a message stay within the 64-byte transmit buffer, which is indexed without a
      check, exactly when the fragment size or the whole message does. */
  lemma BufferSufficesIffFits(tx: Tx, pduMax: nat)
    requires CanFinish(tx, pduMax) && tx.offset == 0 && pduMax >= 5
    ensures (forall f :: f in Frags(tx, pduMax) ==> |f.payload| <= 62) <==> FitsBuffer(tx, pduMax)
  {
    hide NextFrag;
    var fs := Frags(tx, pduMax);
    FragmentAccounting(tx, pduMax);
    FirstPayload(tx, pduMax);
    assert fs[0] in fs;
    if |tx.msg| + 4 <= pduMax {
      assert forall f :: f in fs ==> f == fs[0];
    }
  }

  lemma FirstPayload(tx: Tx, pduMax: nat)
    requires CanFinish(tx, pduMax) && tx.offset == 0 && pduMax >= 5
    ensures |Frags(tx, pduMax)[0].payload| == Min(|tx.msg| + 4, pduMax)
  {}

  lemma {:induction false} FragSizes(tx: Tx, pduMax: nat)
    requires CanFinish(tx, pduMax) && FitsBuffer(tx, pduMax)
    ensures forall f :: f in Frags(tx, pduMax) ==> |f.payload| < 64 && f.llid < 4
    decreases |tx.msg| - tx.offset
  {
    if AfterFrag(tx, pduMax).pending {
      FragSizes(AfterFrag(tx, pduMax), pduMax);
    }
  }

  /** The bytes of a fragment on air: mark, acknowledgement bits with the first negated, payload length, and
      in a first fragment message length and channel, low byte first. */
  lemma FragOnAir(tx: Tx, pduMax: nat, nesn: bool, sn: bool)
    requires tx.offset <= |tx.msg| < 0x1_0000 && |NextFrag(tx, pduMax).payload| < 64
    ensures var p := PacketOf(NextFrag(tx, pduMax), nesn, sn);
            && |p| >= 2 && p[1] == |p| - 2
            && p[0] == (if tx.offset > 0 then 0 else if Chunk(tx, pduMax) == |tx.msg| then 3 else 1)
                       + (if nesn then 0 else 4) + (if sn then 8 else 0)
            && (tx.offset > 0 ==> p[2..] == tx.msg[tx.offset..tx.offset + Chunk(tx, pduMax)])
            && (tx.offset == 0 ==> |p| >= 6 && p[2] as nat + 256 * p[3] as nat == |tx.msg| && p[4] as nat + 256 * p[5] as nat == tx.cid
                                   && p[6..] == tx.msg[..Chunk(tx, pduMax)])
  {
    hide ToLe16;
    Le16RoundTrip(|tx.msg|);
    Le16RoundTrip(tx.cid);
    var f := NextFrag(tx, pduMax);
    var p := PacketOf(f, nesn, sn);
    assert p[2..] == f.payload;
    if tx.offset == 0 {
      assert p[6..] == f.payload[4..];
    }
  }

  /** What the receiver decodes of it. */
  lemma FragDecodes(f: Frag, nesn: bool, sn: bool)
    requires |f.payload| < 64 && f.llid < 4
    ensures Decode(PacketOf(f, nesn, sn)) == Ok(DataPdu(f.llid, !nesn, sn, false, f.payload))
  {
    DecodeEncoded(DataPdu(f.llid, !nesn, sn, false, f.payload));
  }

  // ---------- Reception ----------

  function ReceiveFrags(s: Link, fs: seq<Frag>): Link
    decreases |fs|
  {
    if fs == [] then s else ReceiveFrags(ReceiveFrag(s, fs[0]), fs[1..])
  }

  function ReceiveAll(s: Link, packets: seq<seq<u8>>): Link
    decreases |packets|
  {
    if packets == [] then s else ReceiveAll(Receive(s, packets[0]), packets[1..])
  }

  /** Fragments on air, with whatever acknowledgement bits the sender had at the time. */
  datatype Bits = Bits(nesn: bool, sn: bool)

  function Packets(fs: seq<Frag>, bits: seq<Bits>): (r: seq<seq<u8>>)
    requires |fs| == |bits| && forall f :: f in fs ==> |f.payload| < 64
    ensures |r| == |fs|
  {
    seq(|fs|, i requires 0 <= i < |fs| => PacketOf(fs[i], bits[i].nesn, bits[i].sn))
  }

  lemma ReceivePacket(s: Link, f: Frag, b: Bits)
    requires |f.payload| < 64 && f.llid < 4
    ensures Receive(s, PacketOf(f, b.nesn, b.sn)) == ReceiveFrag(s, f)
  {
    DecodeEncoded(DataPdu(f.llid, !b.nesn, b.sn, false, f.payload));
  }

  /** Acknowledgement bits never matter to reassembly. */
  lemma {:induction false} ReceivePackets(s: Link, fs: seq<Frag>, bits: seq<Bits>)
    requires |fs| == |bits| && forall f :: f in fs ==> |f.payload| < 64 && f.llid < 4
    ensures ReceiveAll(s, Packets(fs, bits)) == ReceiveFrags(s, fs)
    decreases |fs|
  {
    hide ReceiveFrag, Receive, PacketOf;
    if fs != [] {
      ReceivePacket(s, fs[0], bits[0]);
      assert Packets(fs, bits)[1..] == Packets(fs[1..], bits[1..]);
      ReceivePackets(ReceiveFrag(s, fs[0]), fs[1..], bits[1..]);
    }
  }

  /** The receiver half way through `tx.msg`. */
  predicate MidMessage(s: Link, tx: Tx) {
    !s.halted && 0 < tx.offset < |tx.msg| <= RX_L2CAP_SIZE && s.rx == Rx(tx.msg[..tx.offset], |tx.msg|, tx.cid)
  }

  lemma ContinueStep(tx: Tx, pduMax: nat, s: Link)
    requires CanFinish(tx, pduMax) && MidMessage(s, tx)
    ensures var t, next := ReceiveFrag(s, NextFrag(tx, pduMax)), AfterFrag(tx, pduMax);
            if next.pending then MidMessage(t, next) && t == s.(rx := t.rx)
            else t == s.(rx := s.rx.(partial := []), log := s.log + [AttPdu(tx.msg)], halted := ShortAtt(tx.msg))
  {
    var end := tx.offset + Chunk(tx, pduMax);
    var t := ReceiveFrag(s, NextFrag(tx, pduMax));
    assert t == AppendAtt(s, tx.msg[tx.offset..end]);
    assert tx.msg[..tx.offset] + tx.msg[tx.offset..end] == tx.msg[..end];
    assert tx.msg[tx.offset..end][..end - tx.offset] == tx.msg[tx.offset..end];
    assert tx.msg[..|tx.msg|] == tx.msg;
  }

  lemma {:induction false} ContinueDelivers(tx: Tx, pduMax: nat, s: Link, k: nat)
    requires CanFinish(tx, pduMax) && MidMessage(s, tx) && k <= |Frags(tx, pduMax)|
    ensures var fs := Frags(tx, pduMax); var t := ReceiveFrags(s, fs[..k]);
            if k < |fs| then t == s.(rx := t.rx)
            else t == s.(rx := s.rx.(partial := []), log := s.log + [AttPdu(tx.msg)], halted := ShortAtt(tx.msg))
    decreases k
  {
    hide ReceiveFrag, NextFrag, MidMessage;
    var fs, next := Frags(tx, pduMax), AfterFrag(tx, pduMax);
    if k > 0 {
      ContinueStep(tx, pduMax, s);
      var t := ReceiveFrag(s, fs[0]);
      assert fs[..k][0] == fs[0] && fs[..k][1..] == fs[1..][..k - 1];
      if next.pending {
        assert fs[1..] == Frags(next, pduMax);
        ContinueDelivers(next, pduMax, t, k - 1);
        MidMessageRx(tx, s);
        MidMessageRx(next, t);
      } else {
        assert fs[1..] == [] && fs[1..][..k - 1] == [];
      }
    }
  }

  lemma MidMessageRx(tx: Tx, s: Link)
    requires MidMessage(s, tx)
    ensures s.rx.msgLen == |tx.msg| && s.rx.cid == tx.cid
  {}

  lemma StartStep(tx: Tx, pduMax: nat, s: Link)
    requires CanFinish(tx, pduMax) && tx.offset == 0 && tx.cid == L2CAP_ATT_CID && |tx.msg| <= TX_ATT_SIZE && !s.halted
    ensures var t, next := ReceiveFrag(s, NextFrag(tx, pduMax)), AfterFrag(tx, pduMax);
            if next.pending then MidMessage(t, next) && t == s.(rx := t.rx)
            else t == s.(rx := Rx([], |tx.msg|, tx.cid), log := s.log + [AttPdu(tx.msg)], halted := ShortAtt(tx.msg))
  {
    var f := NextFrag(tx, pduMax);
    Le16RoundTrip(|tx.msg|);
    Le16RoundTrip(tx.cid);
    assert Word(f.payload, 0) == |tx.msg| && Word(f.payload, 2) == tx.cid;
    assert f.payload[4..] == tx.msg[..Chunk(tx, pduMax)];
    assert [] + tx.msg[..Chunk(tx, pduMax)] == tx.msg[..Chunk(tx, pduMax)];
    assert tx.msg[..|tx.msg|] == tx.msg;
  }

  /** Fragment and reassemble: for every ATT message, fragment size and prior state of the receiver, the
      peer's upper layer is handed exactly that message, at the last fragment and not before, and
      nothing but the reassembly state changes otherwise. */
  lemma AttRoundTrip(tx: Tx, pduMax: nat, bits: seq<Bits>, s: Link, k: nat)
    requires CanFinish(tx, pduMax) && FitsBuffer(tx, pduMax)
    requires tx.offset == 0 && tx.cid == L2CAP_ATT_CID && |tx.msg| <= TX_ATT_SIZE && !s.halted
    requires |bits| == |Frags(tx, pduMax)| && k <= |bits|
    ensures (forall f :: f in Frags(tx, pduMax) ==> |f.payload| < 64)
    ensures var t := ReceiveAll(s, Packets(Frags(tx, pduMax), bits)[..k]);
            if k < |bits| then t == s.(rx := t.rx)
            else t == s.(rx := Rx([], |tx.msg|, L2CAP_ATT_CID), log := s.log + [AttPdu(tx.msg)], halted := ShortAtt(tx.msg))
  {
    hide ReceiveFrag, NextFrag, MidMessage, Packets, FitsBuffer;
    var fs, next := Frags(tx, pduMax), AfterFrag(tx, pduMax);
    FragSizes(tx, pduMax);
    PacketsPrefix(fs, bits, k);
    ReceivePackets(s, fs[..k], bits[..k]);
    StartStep(tx, pduMax, s);
    if k > 0 {
      var t := ReceiveFrag(s, fs[0]);
      assert fs[..k][0] == fs[0] && fs[..k][1..] == fs[1..][..k - 1];
      if next.pending {
        assert fs[1..] == Frags(next, pduMax);
        ContinueDelivers(next, pduMax, t, k - 1);
        MidMessageRx(next, t);
      } else {
        assert fs[1..] == [] && fs[1..][..k - 1] == [];
      }
    }
  }

  lemma PacketsPrefix(fs: seq<Frag>, bits: seq<Bits>, k: nat)
    requires |fs| == |bits| && k <= |fs| && forall f :: f in fs ==> |f.payload| < 64
    ensures Packets(fs, bits)[..k] == Packets(fs[..k], bits[..k])
  {
    hide PacketOf;
  }
}
