/** ATT messages from `queue_att` to the peer: a message reaches the peer's ATT handler exactly when the
    transmit channel is still ATT, and one queued over another is sent as the tail of that one. */
module AttDelivery {
  import opened Octets
  import opened DataPdu
  import opened Link
  import opened Fragmentation

  // ---------- What a receiver can hand on ----------

  /** From `s` to `t` only ATT messages of at most `n` bytes were handed on, and at most `n` are held. */
  ghost predicate AttBounded(s: Link, t: Link, n: nat) {
    && s.log <= t.log && |t.rx.partial| <= n
    && forall i :: |s.log| <= i < |t.log| && t.log[i].AttPdu? ==> |t.log[i].bytes| <= n
  }

  lemma AppendAttBound(s: Link, body: seq<u8>)
    ensures AttBounded(s, AppendAtt(s, body), |s.rx.partial| + |body|)
  {
    hide ShortAtt;
  }

  lemma DispatchAttBound(s: Link, cid: u16, body: seq<u8>)
    ensures AttBounded(s, Dispatch(s, cid, body, Idle).0, |s.rx.partial| + if cid == L2CAP_ATT_CID then |body| else 0)
  {
    hide Word, CreditMsg, ConnRspMsg, AppendAtt;
    AppendAttBound(s, body);
  }

  lemma FragAttBound(s: Link, f: Frag)
    ensures AttBounded(s, ReceiveFrag(s, f), |s.rx.partial| + |f.payload|)
  {
    hide Dispatch, AppendAtt, Word;
    AppendAttBound(s, f.payload);
    if |f.payload| >= 4 {
      var cid := Word(f.payload, 2);
      DispatchAttBound(s.(rx := Rx([], Word(f.payload, 0), cid)), cid, f.payload[4..]);
    }
  }

  lemma AttBoundedTrans(s: Link, t: Link, u: Link, m: nat, n: nat)
    requires AttBounded(s, t, m) && AttBounded(t, u, n) && m <= n
    ensures AttBounded(s, u, n)
  {}

  lemma AttBoundedWeaken(s: Link, t: Link, m: nat, n: nat)
    requires AttBounded(s, t, m) && m <= n
    ensures AttBounded(s, t, n) && |t.rx.partial| <= m
  {}

  lemma {:induction false} FragsAttBound(s: Link, fs: seq<Frag>)
    ensures AttBounded(s, ReceiveFrags(s, fs), |s.rx.partial| + PayloadSum(fs))
    decreases |fs|
  {
    hide ReceiveFrag, AttBounded;
    if fs == [] {
      AttBoundedSelf(s);
    } else {
      var t, n := ReceiveFrag(s, fs[0]), |s.rx.partial| + PayloadSum(fs);
      FragAttBound(s, fs[0]);
      FragsAttBound(t, fs[1..]);
      AttBoundedWeaken(s, t, |s.rx.partial| + |fs[0].payload|, n);
      AttBoundedWeaken(t, ReceiveFrags(t, fs[1..]), |t.rx.partial| + PayloadSum(fs[1..]), n);
      AttBoundedTrans(s, t, ReceiveFrags(t, fs[1..]), n, n);
    }
  }

  lemma AttBoundedSelf(s: Link)
    ensures AttBounded(s, s, |s.rx.partial|)
  {}

  lemma AttNotHanded(s: Link, t: Link, m: seq<u8>, n: nat)
    requires AttBounded(s, t, n) && n < |m|
    ensures s.log <= t.log && AttPdu(m) !in t.log[|s.log|..]
  {}

  // ---------- The transmit channel ----------

  /** The first fragment of a message on another channel starts no ATT message. */
  lemma OtherStart(tx: Tx, pduMax: nat, s: Link)
    requires CanFinish(tx, pduMax) && tx.offset == 0 && tx.cid != L2CAP_ATT_CID && !s.halted
    ensures var t := ReceiveFrag(s, NextFrag(tx, pduMax));
            && t.rx.partial == [] && s.log <= t.log
            && forall i :: |s.log| <= i < |t.log| ==> !t.log[i].AttPdu?
  {
    hide CreditMsg, ConnRspMsg, HandleSignaling, RxCocSdu;
    var f := NextFrag(tx, pduMax);
    Le16RoundTrip(|tx.msg|);
    Le16RoundTrip(tx.cid);
    assert Word(f.payload, 2) == tx.cid && |f.payload| >= 4;
    var started := s.(rx := Rx([], Word(f.payload, 0), tx.cid));
    SignalingLog(started, f.payload[4..]);
    SduLog(started, f.payload[4..]);
  }

  lemma SignalingLog(s: Link, body: seq<u8>)
    ensures var t := HandleSignaling(s, body); t.log == s.log && t.rx == s.rx
  {
    hide Word, ConnRspMsg;
  }

  lemma SduLog(s: Link, body: seq<u8>)
    ensures var t := RxCocSdu(s, body, Idle).0;
            t.rx == s.rx && s.log <= t.log && forall i :: |s.log| <= i < |t.log| ==> t.log[i].Sdu?
  {
    hide Word, CreditMsg;
  }

  lemma OtherChannelLoses(tx: Tx, pduMax: nat, s: Link)
    requires CanFinish(tx, pduMax) && tx.offset == 0 && tx.cid != L2CAP_ATT_CID && !s.halted
    ensures var t := ReceiveFrags(s, Frags(tx, pduMax)); s.log <= t.log && AttPdu(tx.msg) !in t.log[|s.log|..]
  {
    hide ReceiveFrag, NextFrag, AttBounded, PayloadSum;
    var fs, next := Frags(tx, pduMax), AfterFrag(tx, pduMax);
    OtherStart(tx, pduMax, s);
    var t, u := ReceiveFrag(s, fs[0]), ReceiveFrags(s, fs);
    assert u == ReceiveFrags(t, fs[1..]);
    if next.pending {
      ContinuationAccounting(next, pduMax);
      assert fs[1..] == Frags(next, pduMax);
      FragsAttBound(t, fs[1..]);
      AttNotHanded(t, u, tx.msg, PayloadSum(fs[1..]));
      assert forall i :: |t.log| <= i < |u.log| ==> u.log[i] == u.log[|t.log|..][i - |t.log|];
    } else {
      assert fs[1..] == [] && u == t;
    }
  }

  lemma AttDelivered(tx: Tx, pduMax: nat, bits: seq<Bits>, s: Link)
    requires CanFinish(tx, pduMax) && FitsBuffer(tx, pduMax) && !s.halted
    requires tx.offset == 0 && tx.cid == L2CAP_ATT_CID && |tx.msg| <= TX_ATT_SIZE && |bits| == |Frags(tx, pduMax)|
    ensures (forall f :: f in Frags(tx, pduMax) ==> |f.payload| < 64)
    ensures ReceiveAll(s, Packets(Frags(tx, pduMax), bits)).log == s.log + [AttPdu(tx.msg)]
  {
    hide Frags, ReceiveAll, Packets, FitsBuffer;
    AttRoundTrip(tx, pduMax, bits, s, |bits|);
    var ps := Packets(Frags(tx, pduMax), bits);
    assert ps[..|bits|] == ps;
  }

  /** A message queued by `queue_att` while nothing is pending, sent and received: the peer is handed it
      exactly when the transmit channel is ATT. `queue_att` does not set the channel, and every signalling
      message and SDU sent before has changed it for good. */
  lemma AttArrivesIffChannelIsAtt(a: Link, att: seq<u8>, pduMax: nat, bits: seq<Bits>, s: Link)
    requires Valid(a) && !a.tx.pending && !s.halted
    requires CanFinish(QueueAtt(a, att).tx, pduMax) && FitsBuffer(QueueAtt(a, att).tx, pduMax)
    requires |bits| == |Frags(QueueAtt(a, att).tx, pduMax)|
    ensures (forall f :: f in Frags(QueueAtt(a, att).tx, pduMax) ==> |f.payload| < 64)
    ensures var tx := QueueAtt(a, att).tx; var t := ReceiveAll(s, Packets(Frags(tx, pduMax), bits));
            s.log <= t.log && (AttPdu(tx.msg) in t.log[|s.log|..] <==> a.tx.cid == L2CAP_ATT_CID)
  {
    hide Frags, ReceiveAll, ReceiveFrags, Packets, FitsBuffer;
    var tx := QueueAtt(a, att).tx;
    FragSizes(tx, pduMax);
    if tx.cid == L2CAP_ATT_CID {
      AttDelivered(tx, pduMax, bits, s);
    } else {
      ReceivePackets(s, Frags(tx, pduMax), bits);
      OtherChannelLoses(tx, pduMax, s);
    }
  }

  /** What leaves the transmit channel behind. */
  lemma ChannelAfterSend(s: Link, msg: seq<u8>, data: seq<u8>, att: seq<u8>)
    ensures QueueSignaling(s, msg).tx.cid == L2CAP_SIGNALING_CID
    ensures L2capSend(s, data).1.Ok? ==> L2capSend(s, data).0.tx.cid == s.coc.value.localCid
    ensures QueueAtt(s, att).tx.cid == s.tx.cid
  {}

  // ---------- A message queued over another ----------

  /** How far a message is after `k` further fragments. */
  function Reached(tx: Tx, pduMax: nat, k: nat): nat
    decreases k
  {
    if k == 0 then tx.offset else Min(|tx.msg|, Reached(tx, pduMax, k - 1) + pduMax)
  }

  /** One continuation on a receiver that holds `splice` up to the offset and expects `len` bytes. */
  lemma SpliceStep(s: Link, splice: seq<u8>, len: nat, tx: Tx, pduMax: nat)
    requires CanFinish(tx, pduMax) && pduMax >= 5 && !s.halted && 0 < tx.offset < len <= TX_ATT_SIZE
    requires |splice| == |tx.msg| <= TX_ATT_SIZE && splice[tx.offset..] == tx.msg[tx.offset..]
    requires s.rx.partial == splice[..tx.offset] && s.rx.msgLen == len
    ensures var t, end := ReceiveFrag(s, NextFrag(tx, pduMax)), Reached(tx, pduMax, 1);
            && (end < len ==> t == s.(rx := s.rx.(partial := splice[..end])))
            && (end >= len ==> t == DeliverAtt(s, splice[..len]))
  {
    hide DeliverAtt, AppendAtt;
    var end := tx.offset + Chunk(tx, pduMax);
    assert Reached(tx, pduMax, 0) == tx.offset && end == Reached(tx, pduMax, 1);
    var body := tx.msg[tx.offset..end];
    assert body == splice[tx.offset..][..end - tx.offset];
    if body != [] {
      SplicePrefix(splice, tx.offset, end, body);
      AppendWithin(s, body);
      assert end >= len ==> splice[..end][..len] == splice[..len];
      assert ReceiveFrag(s, NextFrag(tx, pduMax)) == AppendAtt(s, body);
    }
  }

  lemma SplicePrefix(splice: seq<u8>, from: nat, to: nat, body: seq<u8>)
    requires from <= to <= |splice| && body == splice[from..][..to - from]
    ensures splice[..from] + body == splice[..to]
  {
    assert splice[from..][..to - from] == splice[from..to];
  }

  /** Collecting a body that fits the buffer. */
  lemma AppendWithin(s: Link, body: seq<u8>)
    requires |s.rx.partial| + |body| <= RX_L2CAP_SIZE && s.rx.msgLen <= RX_L2CAP_SIZE
    ensures var all := s.rx.partial + body;
            AppendAtt(s, body) == if |all| >= s.rx.msgLen then DeliverAtt(s, all[..s.rx.msgLen]) else s.(rx := s.rx.(partial := all))
  {
    hide DeliverAtt;
    assert body[..|body|] == body;
  }

  lemma {:induction false} ReachedNext(tx: Tx, pduMax: nat, k: nat)
    requires tx.offset > 0 && tx.offset <= |tx.msg| && AfterFrag(tx, pduMax).pending
    ensures Reached(tx, pduMax, k + 1) == Reached(AfterFrag(tx, pduMax), pduMax, k)
    decreases k
  {
    if k > 0 {
      ReachedNext(tx, pduMax, k - 1);
    } else {
      assert Reached(tx, pduMax, 0) == tx.offset;
    }
  }

  lemma {:induction false} ReachedGrows(tx: Tx, pduMax: nat, k: nat)
    requires tx.offset <= |tx.msg|
    ensures tx.offset <= Reached(tx, pduMax, k) <= |tx.msg|
    ensures k > 0 ==> Reached(tx, pduMax, 1) <= Reached(tx, pduMax, k)
    decreases k
  {
    if k > 0 {
      ReachedGrows(tx, pduMax, k - 1);
    }
  }

  lemma {:induction false} SpliceRun(s: Link, splice: seq<u8>, len: nat, tx: Tx, pduMax: nat, k: nat)
    requires CanFinish(tx, pduMax) && pduMax >= 5 && !s.halted && 0 < tx.offset < len <= TX_ATT_SIZE
    requires |splice| == |tx.msg| <= TX_ATT_SIZE && splice[tx.offset..] == tx.msg[tx.offset..]
    requires s.rx.partial == splice[..tx.offset] && s.rx.msgLen == len && k <= |Frags(tx, pduMax)|
    ensures Reached(tx, pduMax, k) <= |splice|
    ensures var t := ReceiveFrags(s, Frags(tx, pduMax)[..k]);
            && (Reached(tx, pduMax, k) < len ==> t == s.(rx := s.rx.(partial := splice[..Reached(tx, pduMax, k)])))
            && (k > 0 && Reached(tx, pduMax, k - 1) < len <= Reached(tx, pduMax, k) ==> t == DeliverAtt(s, splice[..len]))
    decreases k, 1
  {
    hide ReceiveFrag, NextFrag, DeliverAtt, Reached, AfterFrag;
    ReachedGrows(tx, pduMax, k);
    ReachedStart(tx, pduMax);
    if k > 0 {
      SpliceStep(s, splice, len, tx, pduMax);
      var fs := Frags(tx, pduMax);
      assert fs[..k][0] == fs[0] && fs[..k][1..] == fs[1..][..k - 1];
      if k > 1 {
        SpliceNext(s, splice, len, tx, pduMax, k);
      } else {
        assert fs[1..][..0] == [];
      }
    }
  }

  lemma ReachedStart(tx: Tx, pduMax: nat)
    ensures Reached(tx, pduMax, 0) == tx.offset
  {}

  lemma {:induction false} SpliceNext(s: Link, splice: seq<u8>, len: nat, tx: Tx, pduMax: nat, k: nat)
    requires CanFinish(tx, pduMax) && pduMax >= 5 && !s.halted && 0 < tx.offset < len <= TX_ATT_SIZE
    requires |splice| == |tx.msg| <= TX_ATT_SIZE && splice[tx.offset..] == tx.msg[tx.offset..]
    requires s.rx.partial == splice[..tx.offset] && s.rx.msgLen == len && 1 < k <= |Frags(tx, pduMax)|
    ensures Reached(tx, pduMax, k) <= |splice|
    ensures var t, n := ReceiveFrags(ReceiveFrag(s, NextFrag(tx, pduMax)), Frags(tx, pduMax)[1..][..k - 1]), Reached(tx, pduMax, k);
            && (n < len ==> t == s.(rx := s.rx.(partial := splice[..n])))
            && (Reached(tx, pduMax, k - 1) < len <= n ==> t == DeliverAtt(s, splice[..len]))
    decreases k, 0
  {
    hide ReceiveFrag, ReceiveFrags, NextFrag, DeliverAtt, Reached, AfterFrag;
    var next := AfterFrag(tx, pduMax);
    SpliceStep(s, splice, len, tx, pduMax);
    NextFrags(tx, pduMax);
    NextOffset(tx, pduMax);
    ReachedNext(tx, pduMax, k - 1);
    ReachedNext(tx, pduMax, k - 2);
    ReachedGrows(tx, pduMax, k);
    ReachedGrows(tx, pduMax, k - 1);
    if next.offset < len {
      assert splice[next.offset..] == splice[tx.offset..][next.offset - tx.offset..];
      assert tx.msg[next.offset..] == tx.msg[tx.offset..][next.offset - tx.offset..];
      SpliceRun(s.(rx := s.rx.(partial := splice[..next.offset])), splice, len, next, pduMax, k - 1);
      DeliverIgnoresPartial(s, splice[..next.offset], splice[..Min(len, |splice|)]);
    }
  }

  lemma NextFrags(tx: Tx, pduMax: nat)
    requires CanFinish(tx, pduMax) && |Frags(tx, pduMax)| > 1
    ensures AfterFrag(tx, pduMax).pending && CanFinish(AfterFrag(tx, pduMax), pduMax)
    ensures Frags(tx, pduMax)[1..] == Frags(AfterFrag(tx, pduMax), pduMax)
  {}

  lemma NextOffset(tx: Tx, pduMax: nat)
    requires CanFinish(tx, pduMax) && tx.offset > 0 && AfterFrag(tx, pduMax).pending
    ensures AfterFrag(tx, pduMax).offset == Reached(tx, pduMax, 1) && tx.offset < AfterFrag(tx, pduMax).offset
    ensures AfterFrag(tx, pduMax).msg == tx.msg
  {
    assert Reached(tx, pduMax, 0) == tx.offset;
  }

  lemma DeliverIgnoresPartial(s: Link, p: seq<u8>, m: seq<u8>)
    ensures DeliverAtt(s.(rx := s.rx.(partial := p)), m) == DeliverAtt(s, m)
  {}

  /** `queue_att` while `old` is being sent and the receiver has its first `a.tx.offset` bytes: the new
      message goes out from that offset on, and the receiver takes it for the rest of the old one. It hands
      on the head of the old message joined to the tail of the new one, cut to the old length, with the
      fragment that reaches this length and not before; if the new message is shorter than the old one
      it hands on nothing and goes on waiting. */
  lemma QueuedOverAnother(a: Link, att: seq<u8>, pduMax: nat, s: Link, k: nat)
    requires Valid(a) && a.tx.pending && 0 < a.tx.offset < |a.tx.msg| && a.tx.offset <= |att| <= TX_ATT_SIZE && pduMax >= 5
    requires !s.halted && s.rx == Rx(a.tx.msg[..a.tx.offset], |a.tx.msg|, L2CAP_ATT_CID)
    requires k <= |Frags(QueueAtt(a, att).tx, pduMax)|
    ensures var tx, splice, len := QueueAtt(a, att).tx, a.tx.msg[..a.tx.offset] + att[a.tx.offset..], |a.tx.msg|;
            var t, n := ReceiveFrags(s, Frags(tx, pduMax)[..k]), Reached(tx, pduMax, k);
            && n <= |splice|
            && (n < len ==> t == s.(rx := s.rx.(partial := splice[..n])))
            && (k > 0 && Reached(tx, pduMax, k - 1) < len <= n ==> t == DeliverAtt(s, splice[..len]))
  {
    hide ReceiveFrag, ReceiveFrags, Frags, DeliverAtt, Reached;
    var tx := QueueAtt(a, att).tx;
    assert att[..|att|] == att;
    SpliceRun(s, a.tx.msg[..a.tx.offset] + att[a.tx.offset..], |a.tx.msg|, tx, pduMax, k);
  }
}
