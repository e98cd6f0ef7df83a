/** Service data units over the fragmenter: when an SDU sent with `l2cap_send` is reported by the peer, and
    what one that is not costs. */
module CocDelivery {
  import opened Wrappers
  import opened Octets
  import opened DataPdu
  import opened Link
  import opened Fragmentation
  import opened CocSegmentation

  /** Bytes a fragment can add to an SDU. */
  function Gain(f: Frag): nat { if |f.payload| >= 4 then |f.payload| - 4 else 0 }

  lemma HandleBound(s: Link, body: seq<u8>, cid: u16)
    ensures Bounded(s, Dispatch(s, cid, body, Idle).0, Held(s) + |body|)
  {
    hide RxCocSdu, Bounded, AppendAtt, HandleSignaling;
    FrameBound(s, body);
    AttBound(s, body);
    SignalBound(s, body);
    BoundedWeaken(s, AppendAtt(s, body), Held(s), Held(s) + |body|);
    BoundedWeaken(s, HandleSignaling(s, body), Held(s), Held(s) + |body|);
    SmpBound(s, body);
  }

  lemma SmpBound(s: Link, body: seq<u8>)
    ensures Bounded(s, s.(log := s.log + [SmpPdu(body)]), Held(s) + |body|)
    ensures Bounded(s, s, Held(s) + |body|)
  {}

  lemma AttBound(s: Link, body: seq<u8>)
    ensures Bounded(s, AppendAtt(s, body), Held(s))
  {}

  lemma SignalBound(s: Link, body: seq<u8>)
    ensures Bounded(s, HandleSignaling(s, body), Held(s))
  {
    hide Word, ConnRspMsg;
  }

  lemma HaltBound(s: Link, halted: bool, n: nat)
    requires Held(s) <= n
    ensures Bounded(s, s.(halted := halted), n)
  {}

  lemma FragBound(s: Link, f: Frag)
    ensures Bounded(s, ReceiveFrag(s, f), Held(s) + Gain(f))
  {
    hide Bounded, AppendAtt, Dispatch, Word;
    AttBound(s, f.payload);
    BoundedWeaken(s, AppendAtt(s, f.payload), Held(s), Held(s) + Gain(f));
    BoundedSelf(s);
    BoundedWeaken(s, s, Held(s), Held(s) + Gain(f));
    HaltBound(s, s.role.Slave? && ShortControl(f.payload), Held(s) + Gain(f));
    if |f.payload| >= 4 {
      var t := s.(rx := Rx([], Word(f.payload, 0), Word(f.payload, 2)));
      HandleBound(t, f.payload[4..], Word(f.payload, 2));
      SameLog(s, t, Dispatch(t, Word(f.payload, 2), f.payload[4..], Idle).0, Held(s) + Gain(f));
    }
  }

  lemma SameLog(s: Link, t: Link, u: Link, n: nat)
    requires s.log == t.log && Bounded(t, u, n)
    ensures Bounded(s, u, n)
  {}

  function GainSum(fs: seq<Frag>): nat
    decreases |fs|
  {
    if fs == [] then 0 else Gain(fs[0]) + GainSum(fs[1..])
  }

  lemma {:induction false} FragsBound(s: Link, fs: seq<Frag>)
    ensures Bounded(s, ReceiveFrags(s, fs), Held(s) + GainSum(fs))
    decreases |fs|
  {
    hide ReceiveFrag, Bounded, Gain;
    if fs == [] {
      BoundedSelf(s);
    } else {
      var t := ReceiveFrag(s, fs[0]);
      FragBound(s, fs[0]);
      FragsBound(t, fs[1..]);
      HeldBound(s, t, Held(s) + Gain(fs[0]));
      BoundedWeaken(t, ReceiveFrags(t, fs[1..]), Held(t) + GainSum(fs[1..]), Held(s) + GainSum(fs));
      BoundedTrans(s, t, ReceiveFrags(t, fs[1..]), Held(s) + Gain(fs[0]), Held(s) + GainSum(fs));
    }
  }

  lemma {:induction false} GainBelowPayload(fs: seq<Frag>)
    requires forall i :: 0 <= i < |fs| ==> fs[i].payload != []
    ensures GainSum(fs) + |fs| <= PayloadSum(fs)
    decreases |fs|
  {
    if fs != [] {
      GainBelowPayload(fs[1..]);
    }
  }

  /** The receiver of a channel whose SDUs arrive on `cid`. */
  predicate OnData(s: Link, cid: u16) {
    && !s.halted && OnCoc(s, cid)
    && cid != L2CAP_ATT_CID && cid != L2CAP_SIGNALING_CID && cid != L2CAP_SMP_CID
  }

  /** It holds nothing of an earlier SDU. */
  predicate Listening(s: Link, cid: u16) { OnData(s, cid) && s.coc.value.rxSdu == [] }

  /** The first fragment of an SDU message. */
  lemma FirstSduFrag(tx: Tx, data: seq<u8>, pduMax: nat, s: Link)
    requires CanFinish(tx, pduMax) && tx.offset == 0 && |data| + 2 < 0x1_0000 && tx.msg == SduMsg(data) && OnData(s, tx.cid)
    ensures var f := NextFrag(tx, pduMax); var body := tx.msg[..Chunk(tx, pduMax)];
            && |f.payload| == 4 + |body|
            && ReceiveFrag(s, f) == RxCocSdu(s.(rx := Rx([], |tx.msg|, tx.cid)), body, Idle).0
  {
    hide RxCocSdu;
    var f := NextFrag(tx, pduMax);
    Le16RoundTrip(|tx.msg|);
    Le16RoundTrip(tx.cid);
    assert Word(f.payload, 0) == |tx.msg| && Word(f.payload, 2) == tx.cid;
    assert f.payload[4..] == tx.msg[..Chunk(tx, pduMax)];
  }

  /** An SDU that fits one packet is delivered whole. */
  lemma ShortSduArrives(tx: Tx, data: seq<u8>, pduMax: nat, s: Link)
    requires CanFinish(tx, pduMax) && FitsBuffer(tx, pduMax) && tx.offset == 0 && |data| + 6 <= pduMax
    requires |data| + 2 < 0x1_0000 && tx.msg == SduMsg(data) && Listening(s, tx.cid)
    ensures |Frags(tx, pduMax)| == 1
    ensures ReceiveFrags(s, Frags(tx, pduMax)) == Completed(s.(rx := Rx([], |tx.msg|, tx.cid)), data)
  {
    hide ToLe16, FromLe16, ReceiveFrag, NextFrag;
    FirstSduFrag(tx, data, pduMax, s);
    Le16RoundTrip(|data|);
    assert tx.msg[..Chunk(tx, pduMax)] == tx.msg;
    assert tx.msg[2..2 + |data|] == data && data[..|data|] == data;
    var fs := Frags(tx, pduMax);
    assert fs[1..] == [];
  }

  lemma LongSduFirstFrag(tx: Tx, data: seq<u8>, pduMax: nat, s: Link)
    requires CanFinish(tx, pduMax) && tx.offset == 0 && |data| + 6 > pduMax >= 5
    requires |data| + 2 < 0x1_0000 && tx.msg == SduMsg(data) && Listening(s, tx.cid)
    ensures var t := ReceiveFrag(s, NextFrag(tx, pduMax));
            t.log == s.log && t.rx.partial == [] && Held(t) == if pduMax >= 6 then Min(pduMax - 6, RX_SDU_SIZE) else 0
    ensures AfterFrag(tx, pduMax).pending && AfterFrag(tx, pduMax).offset == pduMax - 4
  {
    hide ToLe16, FromLe16, ReceiveFrag, NextFrag;
    FirstSduFrag(tx, data, pduMax, s);
    Le16RoundTrip(|data|);
    assert Word(tx.msg, 0) == |data|;
  }

  // ---------- When an SDU arrives ----------

  /** What a receiver holds after `bytes` more. */
  function HeldWith(c: Coc, bytes: seq<u8>): seq<u8> {
    c.rxSdu + bytes[..Min(|bytes|, if |c.rxSdu| <= RX_SDU_SIZE then RX_SDU_SIZE - |c.rxSdu| else 0)]
  }

  /** A receiver that holds part of an SDU takes the start of the next message for more of it, length
      field and all. */
  lemma FirstFragIntoHeld(tx: Tx, data: seq<u8>, pduMax: nat, s: Link)
    requires CanFinish(tx, pduMax) && tx.offset == 0 && |data| + 2 < 0x1_0000 && tx.msg == SduMsg(data)
    requires OnData(s, tx.cid) && s.coc.value.rxSdu != []
    ensures var c := s.coc.value; var all := HeldWith(c, tx.msg[..Chunk(tx, pduMax)]);
            var started := s.(rx := Rx([], |tx.msg|, tx.cid));
            ReceiveFrag(s, NextFrag(tx, pduMax))
            == if |all| < c.rxSduTotal then started.(coc := Some(c.(rxSdu := all))) else Completed(started, all[..c.rxSduTotal])
  {
    hide ReceiveFrag, NextFrag, QueueSignaling, CreditMsg, SduMsg;
    FirstSduFrag(tx, data, pduMax, s);
    var c := s.coc.value;
    var all := HeldWith(c, tx.msg[..Chunk(tx, pduMax)]);
    if |all| >= c.rxSduTotal {
      assert all[..c.rxSduTotal][..Min(c.rxSduTotal, RX_DATA_SIZE)] == all[..Min(c.rxSduTotal, RX_DATA_SIZE)];
    }
  }

  /** What was held and the whole message that carries `data` begin with `data` and complete the SDU. */
  predicate HeldReports(c: Coc, data: seq<u8>)
    requires |data| < 0x1_0000
  {
    var all := HeldWith(c, SduMsg(data));
    |all| >= c.rxSduTotal && all[..Min(c.rxSduTotal, RX_DATA_SIZE)] == data
  }

  /** An SDU that fits one packet, sent to a receiver that holds part of another. */
  lemma ShortSduIntoHeld(tx: Tx, data: seq<u8>, pduMax: nat, s: Link)
    requires CanFinish(tx, pduMax) && tx.offset == 0 && |data| + 6 <= pduMax && |data| + 2 < 0x1_0000
    requires tx.msg == SduMsg(data) && OnData(s, tx.cid) && s.coc.value.rxSdu != []
    ensures |Frags(tx, pduMax)| == 1
    ensures var c, t := s.coc.value, ReceiveFrags(s, Frags(tx, pduMax)); var all := HeldWith(c, tx.msg);
            && s.log <= t.log
            && (|all| < c.rxSduTotal ==> t.log == s.log)
            && (|all| >= c.rxSduTotal ==> t.log[|s.log|..] == [Sdu(all[..Min(c.rxSduTotal, RX_DATA_SIZE)])])
            && (Sdu(data) in t.log[|s.log|..] <==> HeldReports(c, data))
  {
    hide ReceiveFrag, NextFrag, SduMsg, HeldWith;
    WholeChunk(tx, pduMax);
    FirstFragIntoHeld(tx, data, pduMax, s);
    var fs, c := Frags(tx, pduMax), s.coc.value;
    var all := HeldWith(c, tx.msg);
    assert fs[1..] == [];
    if |all| >= c.rxSduTotal {
      assert all[..c.rxSduTotal][..Min(c.rxSduTotal, RX_DATA_SIZE)] == all[..Min(c.rxSduTotal, RX_DATA_SIZE)];
    }
  }

  lemma WholeChunk(tx: Tx, pduMax: nat)
    requires tx.offset == 0 && |tx.msg| + 4 <= pduMax
    ensures tx.msg[..Chunk(tx, pduMax)] == tx.msg && !AfterFrag(tx, pduMax).pending
  {}

  /** `data` and `pre` agree as far as both go. */
  predicate Agrees(data: seq<u8>, pre: seq<u8>) { data[..Min(|data|, |pre|)] == pre[..Min(|data|, |pre|)] }

  /** When an SDU that `l2cap_send` accepted is reported by a peer in any state of its channel. A peer that
      holds nothing reports it exactly when SDU, length field and L2CAP header fit one packet. A peer that
      still holds part of a lost SDU takes it for more of that one: if it fits one packet it is reported
      exactly when it happens to be what comes out, and in any case only if it begins with the bytes held
      followed by its own length field. */
  lemma SduArrivesIffItFits(a: Link, data: seq<u8>, pduMax: nat, s: Link)
    requires a.coc.Some? && |data| < 0x1_0000 && L2capSend(a, data).1.Ok?
    requires pduMax >= 5 && FitsBuffer(L2capSend(a, data).0.tx, pduMax) && OnData(s, a.coc.value.localCid)
    ensures var tx := L2capSend(a, data).0.tx;
            tx == Tx(SduMsg(data), 0, true, a.coc.value.localCid) && |data| + 2 == |tx.msg| <= TX_ATT_SIZE && CanFinish(tx, pduMax)
    ensures var t := ReceiveFrags(s, Frags(L2capSend(a, data).0.tx, pduMax)); var c := s.coc.value;
            && s.log <= t.log
            && var arrives := Sdu(data) in t.log[|s.log|..];
               && (Held(s) == 0 ==> (arrives <==> |data| + 6 <= pduMax))
               && (Held(s) > 0 && |data| + 6 <= pduMax ==> (arrives <==> HeldReports(c, data)))
               && (Held(s) > 0 && arrives ==> Agrees(data, HeldWith(c, SduMsg(data)[..Min(|data| + 2, pduMax - 4)])))
  {
    hide ReceiveFrag, NextFrag, RxCocSdu, Bounded, ReceiveFrags, Completed, SduMsg, Frags, PayloadSum, HeldWith, Agrees, HeldReports;
    var tx := L2capSend(a, data).0.tx;
    assert tx == Tx(SduMsg(data), 0, true, a.coc.value.localCid);
    if Held(s) > 0 {
      HeldSduAgrees(tx, data, pduMax, s);
      if |data| + 6 <= pduMax {
        ShortSduIntoHeld(tx, data, pduMax, s);
      }
    } else if |data| + 6 <= pduMax {
      ShortSduArrives(tx, data, pduMax, s);
      CompletedLog(s.(rx := Rx([], |tx.msg|, tx.cid)), data);
    } else {
      LongSduIsLost(tx, data, pduMax, s);
    }
  }

  /** From `s` to `t` only SDUs that agree with `pre` were reported. */
  ghost predicate AgreeingOnly(s: Link, t: Link, pre: seq<u8>) {
    s.log <= t.log && forall i :: |s.log| <= i < |t.log| && t.log[i].Sdu? ==> Agrees(t.log[i].bytes, pre)
  }

  /** A receiver that holds `pre` holds on to it until it reports an SDU that begins with it or loses the
      channel. */
  lemma HoldStep(s: Link, f: Frag, pre: seq<u8>)
    requires s.coc.Some? && pre <= s.coc.value.rxSdu && pre != []
    ensures var t := ReceiveFrag(s, f);
            AgreeingOnly(s, t, pre) && (Held(t) == 0 || (t.coc.Some? && pre <= t.coc.value.rxSdu))
  {
    hide Dispatch, AppendAtt, Word, Agrees;
    HoldAppend(s, f.payload, pre);
    if |f.payload| >= 4 {
      var t := s.(rx := Rx([], Word(f.payload, 0), Word(f.payload, 2)));
      HoldDispatch(t, Word(f.payload, 2), f.payload[4..], pre);
    }
  }

  lemma HoldAppend(s: Link, body: seq<u8>, pre: seq<u8>)
    ensures AgreeingOnly(s, AppendAtt(s, body), pre) && AppendAtt(s, body).coc == s.coc
  {}

  lemma HoldDispatch(s: Link, cid: u16, body: seq<u8>, pre: seq<u8>)
    requires s.coc.Some? && pre <= s.coc.value.rxSdu && pre != []
    ensures var t := Dispatch(s, cid, body, Idle).0;
            AgreeingOnly(s, t, pre) && (Held(t) == 0 || (t.coc.Some? && pre <= t.coc.value.rxSdu))
  {
    hide Word, CreditMsg, ConnRspMsg, AppendAtt, Agrees, RxCocSdu, HandleSignaling;
    HoldAppend(s, body, pre);
    HoldFrame(s, body, pre);
    HoldSignal(s, body, pre);
  }

  lemma HoldSignal(s: Link, body: seq<u8>, pre: seq<u8>)
    requires s.coc.Some? && pre <= s.coc.value.rxSdu && pre != []
    ensures var t := HandleSignaling(s, body);
            t.log == s.log && (Held(t) == 0 || (t.coc.Some? && pre <= t.coc.value.rxSdu))
  {
    hide Word, ConnRspMsg;
  }

  lemma HoldFrame(s: Link, body: seq<u8>, pre: seq<u8>)
    requires s.coc.Some? && pre <= s.coc.value.rxSdu && pre != []
    ensures var t := RxCocSdu(s, body, Idle).0;
            AgreeingOnly(s, t, pre) && (Held(t) == 0 || (t.coc.Some? && pre <= t.coc.value.rxSdu))
  {
    hide Word, CreditMsg;
    var c := s.coc.value;
    var all := Gather(c, body).value.0;
    assert pre <= all;
    var n := Min(c.rxSduTotal, RX_DATA_SIZE);
    if |all| >= c.rxSduTotal {
      assert Agrees(all[..n], pre);
    }
  }

  /** Through any fragments that are too few to carry `data` behind `pre`. */
  lemma {:induction false} HoldRun(s: Link, fs: seq<Frag>, pre: seq<u8>, data: seq<u8>)
    requires s.coc.Some? && pre <= s.coc.value.rxSdu && pre != [] && GainSum(fs) < |data|
    ensures var t := ReceiveFrags(s, fs); s.log <= t.log && (Sdu(data) in t.log[|s.log|..] ==> Agrees(data, pre))
    decreases |fs|
  {
    hide ReceiveFrag, Agrees, Bounded, Gain;
    if fs != [] {
      var t, u := ReceiveFrag(s, fs[0]), ReceiveFrags(s, fs);
      HoldStep(s, fs[0], pre);
      if Held(t) == 0 {
        FragsBound(t, fs[1..]);
        NotReported(t, u, data, GainSum(fs[1..]));
      } else {
        HoldRun(t, fs[1..], pre, data);
      }
      LogSplit(s, t, u, pre, data);
    }
  }

  lemma LogSplit(s: Link, t: Link, u: Link, pre: seq<u8>, data: seq<u8>)
    requires AgreeingOnly(s, t, pre) && t.log <= u.log && (Sdu(data) in u.log[|t.log|..] ==> Agrees(data, pre))
    ensures s.log <= u.log && (Sdu(data) in u.log[|s.log|..] ==> Agrees(data, pre))
  {
    hide Agrees;
    if Sdu(data) in u.log[|s.log|..] {
      var i :| |s.log| <= i < |u.log| && u.log[i] == Sdu(data);
      if i >= |t.log| {
        assert u.log[|t.log|..][i - |t.log|] == Sdu(data);
      }
    }
  }

  lemma FirstFragAgrees(tx: Tx, data: seq<u8>, pduMax: nat, s: Link, pre: seq<u8>)
    requires CanFinish(tx, pduMax) && tx.offset == 0 && 5 <= pduMax && |data| + 2 < 0x1_0000 && tx.msg == SduMsg(data)
    requires OnData(s, tx.cid) && s.coc.value.rxSdu != []
    requires pre == HeldWith(s.coc.value, tx.msg[..Min(|tx.msg|, pduMax - 4)])
    ensures var t := ReceiveFrag(s, NextFrag(tx, pduMax));
            pre != [] && AgreeingOnly(s, t, pre) && (Held(t) == 0 || (t.coc.Some? && pre <= t.coc.value.rxSdu))
  {
    hide ReceiveFrag, NextFrag, SduMsg, Agrees, HeldWith, Completed;
    FirstFragIntoHeld(tx, data, pduMax, s);
    FirstReport(s, tx, pduMax, pre);
  }

  lemma HeldSduAgrees(tx: Tx, data: seq<u8>, pduMax: nat, s: Link)
    requires CanFinish(tx, pduMax) && tx.offset == 0 && 5 <= pduMax && |data| + 2 < 0x1_0000 && tx.msg == SduMsg(data)
    requires OnData(s, tx.cid) && s.coc.value.rxSdu != []
    ensures var t := ReceiveFrags(s, Frags(tx, pduMax));
            && s.log <= t.log
            && (Sdu(data) in t.log[|s.log|..] ==> Agrees(data, HeldWith(s.coc.value, tx.msg[..Min(|tx.msg|, pduMax - 4)])))
  {
    hide ReceiveFrag, NextFrag, SduMsg, Bounded, PayloadSum, GainSum, Agrees, HeldWith, AgreeingOnly;
    var fs, next := Frags(tx, pduMax), AfterFrag(tx, pduMax);
    var pre := HeldWith(s.coc.value, tx.msg[..Min(|tx.msg|, pduMax - 4)]);
    var t, u := ReceiveFrag(s, fs[0]), ReceiveFrags(s, fs);
    FirstFragAgrees(tx, data, pduMax, s, pre);
    assert u == ReceiveFrags(t, fs[1..]);
    if !next.pending {
      assert fs[1..] == [] && u == t;
    } else {
      ContinuationAccounting(next, pduMax);
      assert fs[1..] == Frags(next, pduMax);
      TailGain(fs[1..], pduMax, data);
      if data == [] {
        EmptyAgrees(pre);
        FragsBound(t, fs[1..]);
        BoundedLog(t, u, Held(t) + GainSum(fs[1..]));
      } else if Held(t) == 0 {
        FragsBound(t, fs[1..]);
        NotReported(t, u, data, GainSum(fs[1..]));
      } else {
        HoldRun(t, fs[1..], pre, data);
      }
    }
    LogSplit(s, t, u, pre, data);
  }

  lemma EmptyAgrees(pre: seq<u8>)
    ensures Agrees([], pre)
  {}

  lemma BoundedLog(s: Link, t: Link, n: nat)
    requires Bounded(s, t, n)
    ensures s.log <= t.log
  {}

  lemma FirstReport(s: Link, tx: Tx, pduMax: nat, pre: seq<u8>)
    requires pduMax >= 5 && tx.offset == 0 && s.coc.Some? && s.coc.value.rxSdu != []
    requires pre == HeldWith(s.coc.value, tx.msg[..Min(|tx.msg|, pduMax - 4)])
    ensures pre != [] && tx.msg[..Chunk(tx, pduMax)] == tx.msg[..Min(|tx.msg|, pduMax - 4)]
    ensures var c := s.coc.value; var started := s.(rx := Rx([], |tx.msg|, tx.cid));
            |pre| >= c.rxSduTotal ==> AgreeingOnly(s, Completed(started, pre[..c.rxSduTotal]), pre) && Held(Completed(started, pre[..c.rxSduTotal])) == 0
  {
    hide CreditMsg;
  }

  /** The fragments after the first gain less than the SDU. */
  lemma TailGain(fs: seq<Frag>, pduMax: nat, data: seq<u8>)
    requires pduMax >= 5 && fs != [] && PayloadSum(fs) == |data| + 6 - pduMax
    requires forall i :: 0 <= i < |fs| ==> fs[i].payload != [] && |fs[i].payload| <= pduMax
    ensures data != [] ==> GainSum(fs) < |data|
  {
    hide PayloadSum, GainSum;
    GainBelowPayload(fs);
    if pduMax == 5 {
      GainInFives(fs);
    }
  }

  lemma CompletedLog(s: Link, data: seq<u8>)
    requires s.coc.Some? && |data| <= RX_DATA_SIZE
    ensures Completed(s, data).log == s.log + [Sdu(data)] && Completed(s, data).log[|s.log|..] == [Sdu(data)]
  {
    assert data[..|data|] == data;
  }

  lemma LongSduIsLost(tx: Tx, data: seq<u8>, pduMax: nat, s: Link)
    requires CanFinish(tx, pduMax) && tx.offset == 0 && |data| + 6 > pduMax >= 5 && pduMax <= TX_BUF_SIZE - 2
    requires |data| + 2 < 0x1_0000 && tx.msg == SduMsg(data) && Listening(s, tx.cid)
    ensures var t := ReceiveFrags(s, Frags(tx, pduMax));
            s.log <= t.log && Sdu(data) !in t.log[|s.log|..]
  {
    hide ReceiveFrag, NextFrag, RxCocSdu, Bounded, SduMsg, Listening, PayloadSum, GainSum;
    var fs, next := Frags(tx, pduMax), AfterFrag(tx, pduMax);
    LongSduFirstFrag(tx, data, pduMax, s);
    ContinuationAccounting(next, pduMax);
    assert fs[1..] == Frags(next, pduMax);
    var s1 := ReceiveFrag(s, fs[0]);
    FragsBound(s1, fs[1..]);
    GainBelowPayload(fs[1..]);
    var n := Held(s1) + GainSum(fs[1..]);
    if data == [] {
      OneByteIsIgnored(s1, fs[1..]);
    } else {
      if pduMax == 5 {
        GainInFives(fs[1..]);
      }
      NotReported(s1, ReceiveFrags(s1, fs[1..]), data, n);
    }
  }

  lemma {:induction false} GainInFives(fs: seq<Frag>)
    requires forall i :: 0 <= i < |fs| ==> |fs[i].payload| <= 5
    ensures 5 * GainSum(fs) <= PayloadSum(fs)
    decreases |fs|
  {
    if fs != [] {
      GainInFives(fs[1..]);
    }
  }

  /** A single continuation byte outside a message is dropped. */
  lemma OneByteIsIgnored(s: Link, fs: seq<Frag>)
    requires PayloadSum(fs) == 1 && |fs| == 1 && fs[0].llid != LLID_CONTROL && s.rx.partial == []
    ensures ReceiveFrags(s, fs) == s
  {
    assert fs[1..] == [];
  }

  // ---------- What a lost SDU costs ----------

  /** A continuation that the receiver, being between messages, takes for the start of one on no channel it
      knows, or drops. */
  predicate Ignored(s: Link, f: Frag) {
    && f.llid == LLID_DATA_CONTINUATION_OR_COMPLETE
    && (|f.payload| < 4
        || var cid := Word(f.payload, 2);
           cid != L2CAP_ATT_CID && cid != L2CAP_SIGNALING_CID && cid != L2CAP_SMP_CID && !OnCoc(s, cid))
  }

  lemma {:induction false} TailIgnored(s: Link, fs: seq<Frag>)
    requires s.rx.partial == [] && forall i :: 0 <= i < |fs| ==> Ignored(s, fs[i])
    ensures var t := ReceiveFrags(s, fs); t == s.(rx := t.rx) && t.rx.partial == []
    decreases |fs|
  {
    hide Word;
    if fs != [] {
      TailIgnored(ReceiveFrag(s, fs[0]), fs[1..]);
    }
  }

  /** An SDU above one packet that `l2cap_send` accepts costs the sender a credit. The receiver, if it
      ignores the continuations, queues nothing, so the credit is never returned, and it goes on holding
      the bytes of the first packet. */
  lemma LongSduCostsACredit(a: Link, data: seq<u8>, pduMax: nat, s: Link)
    requires a.coc.Some? && |data| < 0x1_0000 && L2capSend(a, data).1.Ok? && |data| + 6 > pduMax >= 7
    requires pduMax <= TX_BUF_SIZE - 2 && Listening(s, a.coc.value.localCid)
    ensures CanFinish(L2capSend(a, data).0.tx, pduMax)
    ensures (forall i :: 1 <= i < |Frags(L2capSend(a, data).0.tx, pduMax)| ==> Ignored(s, Frags(L2capSend(a, data).0.tx, pduMax)[i])) ==>
              var b := L2capSend(a, data).0; var t := ReceiveFrags(s, Frags(b.tx, pduMax));
              && b.coc == Some(a.coc.value.(credits := a.coc.value.credits - 1))
              && t == s.(rx := t.rx, coc := Some(s.coc.value.(rxSdu := data[..pduMax - 6], rxSduTotal := |data|)))
              && t.rx.partial == []
  {
    hide ReceiveFrag, NextFrag, SduMsg;
    var b := L2capSend(a, data).0;
    var fs := Frags(b.tx, pduMax);
    LongSduHeld(b.tx, data, pduMax, s);
    if forall i :: 1 <= i < |fs| ==> Ignored(s, fs[i]) {
      var t := ReceiveFrag(s, fs[0]);
      SameIgnored(s, t);
      forall i | 0 <= i < |fs[1..]|
        ensures Ignored(t, fs[1..][i])
      {
        assert fs[1..][i] == fs[i + 1];
      }
      TailIgnored(t, fs[1..]);
    }
  }

  lemma SameIgnored(s: Link, t: Link)
    requires s.coc.Some? && t.coc.Some?
    requires t.coc.value.localCid == s.coc.value.localCid && t.coc.value.peerCid == s.coc.value.peerCid
    ensures forall f :: Ignored(t, f) <==> Ignored(s, f)
  {}

  lemma LongSduHeld(tx: Tx, data: seq<u8>, pduMax: nat, s: Link)
    requires CanFinish(tx, pduMax) && tx.offset == 0 && |data| + 6 > pduMax >= 7 && pduMax <= TX_BUF_SIZE - 2
    requires |data| + 2 < 0x1_0000 && tx.msg == SduMsg(data) && Listening(s, tx.cid)
    ensures var c := s.coc.value;
            ReceiveFrag(s, NextFrag(tx, pduMax))
            == s.(rx := Rx([], |tx.msg|, tx.cid), coc := Some(c.(rxSdu := data[..pduMax - 6], rxSduTotal := |data|)))
  {
    hide ToLe16, FromLe16, ReceiveFrag, NextFrag;
    FirstSduFrag(tx, data, pduMax, s);
    Le16RoundTrip(|data|);
    var body := tx.msg[..Chunk(tx, pduMax)];
    assert Word(body, 0) == |data| && body[2..2 + (|body| - 2)] == data[..pduMax - 6];
  }

  /** One lost SDU swallows later ones: as long as the bytes held and the next message do not add up to
      the lost SDU's length, the next SDU is not reported although it fits one packet. */
  lemma LongSduSwallowsNext(tx: Tx, next: seq<u8>, pduMax: nat, s: Link)
    requires CanFinish(tx, pduMax) && tx.offset == 0 && |next| + 6 <= pduMax <= TX_BUF_SIZE - 2 && tx.msg == SduMsg(next)
    requires OnData(s, tx.cid) && s.coc.value.rxSdu != [] && Held(s) + |next| + 2 < s.coc.value.rxSduTotal
    ensures ReceiveFrags(s, Frags(tx, pduMax)).log == s.log
  {
    hide ReceiveFrag, NextFrag, SduMsg;
    ShortSduIntoHeld(tx, next, pduMax, s);
  }
}
