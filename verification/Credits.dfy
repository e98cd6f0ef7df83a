/** Two connections joined by a lossless in-order link, after the acceptor of a credit-based channel
    answered the initiator: exactly which events destroy a credit, SDUs arrive in order, and the initiator
    never gets to send. */
module Credits {
  import opened Wrappers
  import opened Octets
  import opened DataPdu
  import opened Link
  import opened Fragmentation
  import opened CocSegmentation
  import opened CocDelivery
  import opened Ledger

  /** Acceptor, initiator, the packets under way in each direction, and the SDUs the acceptor's
      application had accepted and not overwritten. */
  datatype Net = Net(a: Link, i: Link, toI: seq<seq<u8>>, toA: seq<seq<u8>>, sent: seq<seq<u8>>)

  /** Sends by the applications, transmissions with any acknowledgement bits, and receptions. */
  datatype Event = SendA(data: seq<u8>) | SendI(data: seq<u8>) | TxA(bits: Bits) | TxI(bits: Bits) | RxA | RxI

  /** SDUs stay within one link layer packet. */
  predicate Enabled(e: Event, pduMax: nat) {
    (e.SendA? ==> |e.data| + 6 <= pduMax) && (e.SendI? ==> |e.data| < 0x1_0000)
  }

  function Emit(tx: Tx, pduMax: nat, bits: Bits): seq<u8>
    requires tx.offset <= |tx.msg| <= TX_ATT_SIZE && pduMax <= TX_BUF_SIZE - 2 && (pduMax >= 4 || tx.offset > 0)
  {
    PacketOf(NextFrag(tx, pduMax), bits.nesn, bits.sn)
  }

  /** One event. Nothing keeps an application or a reception from queueing over a pending message. */
  function Step(n: Net, e: Event, pduMax: nat): Net
    requires 4 <= pduMax <= TX_BUF_SIZE - 2 && Valid(n.a) && Valid(n.i) && |n.sent| >= |Pending(n.a.tx)|
  {
    match e
    case SendA(data) =>
      var (a, r) := L2capSend(n.a, data);
      if r.Err? then n
      else
        var over := |Pending(n.a.tx)|;
        n.(a := a, sent := n.sent[..|n.sent| - over] + [data])
    case SendI(data) => n.(i := L2capSend(n.i, data).0)
    case TxA(bits) =>
      if !n.a.tx.pending then n
      else n.(a := n.a.(tx := AfterFrag(n.a.tx, pduMax)), toI := n.toI + [Emit(n.a.tx, pduMax, bits)])
    case TxI(bits) =>
      if !n.i.tx.pending then n
      else n.(i := n.i.(tx := AfterFrag(n.i.tx, pduMax)), toA := n.toA + [Emit(n.i.tx, pduMax, bits)])
    case RxA => if n.toA == [] then n else n.(a := Receive(n.a, n.toA[0]), toA := n.toA[1..])
    case RxI => if n.toI == [] then n else n.(i := Receive(n.i, n.toI[0]), toI := n.toI[1..])
  }

  // ---------- What is under way ----------

  /** The SDU in a pending message. */
  function Pending(tx: Tx): (r: seq<seq<u8>>)
    ensures |r| == BoolBit(tx.pending)
  {
    if tx.pending then [if |tx.msg| >= 2 then tx.msg[2..] else []] else []
  }

  function Sdus(log: seq<Upcall>): seq<seq<u8>>
    decreases |log|
  {
    if log == [] then []
    else Sdus(log[..|log| - 1]) + (if log[|log| - 1].Sdu? then [log[|log| - 1].bytes] else [])
  }

  function SduFrag(d: seq<u8>): Frag
    requires |d| < 250
  {
    Frag(LLID_DATA_COMPLETE, ToLe16(|d| + 2) + ToLe16(COC_LOCAL_CID) + SduMsg(d))
  }

  function CreditFrag(): Frag {
    Frag(LLID_DATA_COMPLETE, ToLe16(6) + ToLe16(L2CAP_SIGNALING_CID) + CreditMsg(COC_LOCAL_CID))
  }

  predicate Holds(packet: seq<u8>, f: Frag) {
    Decode(packet).Ok? && Frag(Decode(packet).value.llid, Decode(packet).value.payload) == f
  }

  /** The SDU a packet carries. */
  function Cargo(packet: seq<u8>): seq<u8> { if |packet| >= 8 then packet[8..] else [] }

  function Cargos(packets: seq<seq<u8>>): (r: seq<seq<u8>>)
    ensures |r| == |packets|
  {
    seq(|packets|, k requires 0 <= k < |packets| => Cargo(packets[k]))
  }

  // ---------- The invariant ----------

  predicate OpenCoc(s: Link) {
    && Valid(s) && !s.halted && s.tx.offset == 0
    && s.coc.Some? && s.coc.value.localCid == s.coc.value.peerCid == COC_LOCAL_CID
    && s.coc.value.mtu == COC_MTU && s.coc.value.rxSdu == []
  }

  predicate SmallSdu(d: seq<u8>, pduMax: nat) { |d| + 6 <= pduMax }

  /** Everything under way is an SDU towards the initiator or one returned credit towards the acceptor. */
  predicate Inv(n: Net, pduMax: nat) {
    && 10 <= pduMax <= TX_BUF_SIZE - 2
    && OpenCoc(n.a) && OpenCoc(n.i) && n.i.coc.value.credits == 0
    && (n.a.tx.pending ==> |n.a.tx.msg| >= 2 && SmallSdu(n.a.tx.msg[2..], pduMax)
                           && n.a.tx.msg == SduMsg(n.a.tx.msg[2..]) && n.a.tx.cid == COC_LOCAL_CID)
    && (n.i.tx.pending ==> n.i.tx.msg == CreditMsg(COC_LOCAL_CID) && n.i.tx.cid == L2CAP_SIGNALING_CID)
    && (forall k :: 0 <= k < |n.toI| ==> SmallSdu(Cargo(n.toI[k]), pduMax) && Holds(n.toI[k], SduFrag(Cargo(n.toI[k]))))
    && (forall k :: 0 <= k < |n.toA| ==> Holds(n.toA[k], CreditFrag()))
    && Sdus(n.i.log) + Cargos(n.toI) + Pending(n.a.tx) == n.sent
    && Total(n) <= COC_CREDITS
  }

  /** The credits in the system: held by the acceptor, spent on an SDU queued or on air, and returned in a
      message queued or on air. */
  function Total(n: Net): nat
    requires n.a.coc.Some?
  {
    n.a.coc.value.credits + BoolBit(n.a.tx.pending) + |n.toI| + BoolBit(n.i.tx.pending) + |n.toA|
  }

  /** The event queues a message over a pending one: a send that is accepted, or the reception of an SDU. */
  predicate Loses(n: Net, e: Event) {
    || (e.SendA? && n.a.tx.pending && L2capSend(n.a, e.data).1.Ok?)
    || (e.RxI? && n.toI != [] && n.i.tx.pending)
  }

  /** What an event does to the credits in the system. */
  predicate Accounted(n: Net, e: Event, m: Net)
    requires n.a.coc.Some?
  {
    m.a.coc.Some? && Total(m) + BoolBit(Loses(n, e)) == Total(n)
  }

  // ---------- Packets ----------

  lemma EmitWhole(tx: Tx, pduMax: nat, bits: Bits)
    requires tx.offset == 0 && |tx.msg| + 4 <= pduMax <= TX_BUF_SIZE - 2
    ensures var f := Frag(LLID_DATA_COMPLETE, ToLe16(|tx.msg|) + ToLe16(tx.cid) + tx.msg);
            && Holds(Emit(tx, pduMax, bits), f)
            && |Emit(tx, pduMax, bits)| == 6 + |tx.msg| && Emit(tx, pduMax, bits)[6..] == tx.msg
            && AfterFrag(tx, pduMax) == tx.(offset := 0, pending := false)
  {
    hide ToLe16, Header, Decode;
    var f := NextFrag(tx, pduMax);
    assert tx.msg[0..|tx.msg|] == tx.msg;
    DecodeEncoded(DataPdu(f.llid, !bits.nesn, bits.sn, false, f.payload));
  }

  lemma ReceiveSdu(s: Link, packet: seq<u8>, d: seq<u8>)
    requires OpenCoc(s) && |d| <= 56 && Holds(packet, SduFrag(d))
    ensures Receive(s, packet) == Completed(s.(rx := Rx([], |d| + 2, COC_LOCAL_CID)), d)
  {
    hide Decode, ToLe16, FromLe16;
    var p := SduFrag(d).payload;
    Le16RoundTrip(|d| + 2);
    Le16RoundTrip(COC_LOCAL_CID);
    Le16RoundTrip(|d|);
    assert Word(p, 0) == |d| + 2 && Word(p, 2) == COC_LOCAL_CID && p[4..] == SduMsg(d);
    assert SduMsg(d)[2..2 + |d|] == d && d[..|d|] == d;
  }

  lemma ReceiveCredit(s: Link, packet: seq<u8>)
    requires OpenCoc(s) && Holds(packet, CreditFrag())
    ensures var c := s.coc.value;
            Receive(s, packet) == s.(rx := Rx([], 6, L2CAP_SIGNALING_CID), coc := Some(c.(credits := Min(c.credits + 1, U16_MAX))))
  {
    hide Decode, CreditMsg, ToLe16, Word;
    HeaderWords(6, L2CAP_SIGNALING_CID, CreditMsg(COC_LOCAL_CID));
    CreditWords();
  }

  lemma CreditWords()
    ensures var body := CreditMsg(COC_LOCAL_CID);
            body[0] == LE_FLOW_CONTROL_CREDIT && Word(body, 2) == COC_LOCAL_CID && Word(body, 4) == 1
  {
    hide ToLe16, FromLe16;
    Le16RoundTrip(COC_LOCAL_CID);
    Le16RoundTrip(1);
  }

  lemma CompletedFacts(s: Link, d: seq<u8>)
    requires OpenCoc(s) && |d| <= 56
    ensures var t := Completed(s, d);
            && OpenCoc(t) && t.coc == s.coc.(value := s.coc.value.(rxSduTotal := 0))
            && t.tx == Tx(CreditMsg(COC_LOCAL_CID), 0, true, L2CAP_SIGNALING_CID)
            && Sdus(t.log) == Sdus(s.log) + [d]
  {
    assert d[..|d|] == d;
    assert (s.log + [Sdu(d)])[..|s.log|] == s.log;
    assert CreditMsg(COC_LOCAL_CID)[..6] == CreditMsg(COC_LOCAL_CID);
  }

  // ---------- Every step keeps the invariant ----------

  lemma SendAKeeps(n: Net, data: seq<u8>, pduMax: nat)
    requires Inv(n, pduMax) && SmallSdu(data, pduMax)
    ensures Inv(Step(n, SendA(data), pduMax), pduMax) && Accounted(n, SendA(data), Step(n, SendA(data), pduMax))
  {
    hide ToLe16, Holds, Cargo, Sdus;
    var base := Sdus(n.i.log) + Cargos(n.toI);
    assert n.sent[..|n.sent| - |Pending(n.a.tx)|] == base;
    assert SduMsg(data)[2..] == data;
  }

  lemma TxAKeeps(n: Net, bits: Bits, pduMax: nat)
    requires Inv(n, pduMax)
    ensures Inv(Step(n, TxA(bits), pduMax), pduMax) && Accounted(n, TxA(bits), Step(n, TxA(bits), pduMax))
  {
    hide ToLe16, Holds, Sdus, Emit;
    if n.a.tx.pending {
      var d, p := n.a.tx.msg[2..], Emit(n.a.tx, pduMax, bits);
      EmitWhole(n.a.tx, pduMax, bits);
      assert p[8..] == p[6..][2..];
      assert Cargos(n.toI + [p]) == Cargos(n.toI) + [d];
    }
  }

  lemma TxIKeeps(n: Net, bits: Bits, pduMax: nat)
    requires Inv(n, pduMax)
    ensures Inv(Step(n, TxI(bits), pduMax), pduMax) && Accounted(n, TxI(bits), Step(n, TxI(bits), pduMax))
  {
    hide ToLe16, Holds, Cargo, Sdus, Emit;
    if n.i.tx.pending {
      EmitWhole(n.i.tx, pduMax, bits);
    }
  }

  lemma RxAKeeps(n: Net, pduMax: nat)
    requires Inv(n, pduMax)
    ensures Inv(Step(n, RxA, pduMax), pduMax) && Accounted(n, RxA, Step(n, RxA, pduMax))
  {
    hide ToLe16, Holds, Cargo, Sdus, Receive;
    if n.toA != [] {
      ReceiveCredit(n.a, n.toA[0]);
    }
  }

  lemma RxIKeeps(n: Net, pduMax: nat)
    requires Inv(n, pduMax)
    ensures Inv(Step(n, RxI, pduMax), pduMax) && Accounted(n, RxI, Step(n, RxI, pduMax))
  {
    hide ToLe16, Holds, Cargo, Sdus, Receive, CreditMsg, Completed;
    if n.toI != [] {
      var d := Cargo(n.toI[0]);
      var s := n.i.(rx := Rx([], |d| + 2, COC_LOCAL_CID));
      ReceiveSdu(n.i, n.toI[0], d);
      CompletedFacts(s, d);
      assert Cargos(n.toI) == [d] + Cargos(n.toI[1..]);
    }
  }

  lemma SendIKeeps(n: Net, data: seq<u8>, pduMax: nat)
    requires Inv(n, pduMax)
    ensures Step(n, SendI(data), pduMax) == n && !Loses(n, SendI(data))
  {}

  /** Every event keeps the invariant; it destroys one credit exactly when it queues over a pending
      message, and creates none. */
  lemma StepKeeps(n: Net, e: Event, pduMax: nat)
    requires Inv(n, pduMax) && Enabled(e, pduMax)
    ensures Inv(Step(n, e, pduMax), pduMax)
    ensures Step(n, e, pduMax).a.coc.Some? && Total(Step(n, e, pduMax)) == Total(n) - BoolBit(Loses(n, e))
  {
    hide Inv, L2capSend, Receive, Emit, Total, Loses, Step;
    InvFacts(n, pduMax);
    match e
    case SendA(data) => SendAKeeps(n, data, pduMax);
    case SendI(data) => SendIKeeps(n, data, pduMax);
    case TxA(bits) => TxAKeeps(n, bits, pduMax);
    case TxI(bits) => TxIKeeps(n, bits, pduMax);
    case RxA => RxAKeeps(n, pduMax);
    case RxI => RxIKeeps(n, pduMax);
  }

  lemma InvFacts(n: Net, pduMax: nat)
    requires Inv(n, pduMax)
    ensures 10 <= pduMax <= TX_BUF_SIZE - 2 && Valid(n.a) && Valid(n.i) && |n.sent| >= |Pending(n.a.tx)|
    ensures n.a.coc.Some? && n.a.coc.value.credits <= Total(n) <= COC_CREDITS
  {}

  // ---------- Runs ----------

  ghost predicate Run(ns: seq<Net>, es: seq<Event>, pduMax: nat) {
    && |ns| == |es| + 1 && Inv(ns[0], pduMax)
    && forall k :: 0 <= k < |es| ==> StepsTo(ns[k], es[k], ns[k + 1], pduMax)
  }

  ghost predicate StepsTo(n: Net, e: Event, m: Net, pduMax: nat) {
    Enabled(e, pduMax) && (Inv(n, pduMax) ==> (InvFacts(n, pduMax); m == Step(n, e, pduMax)))
  }

  lemma {:induction false} RunKeeps(ns: seq<Net>, es: seq<Event>, pduMax: nat, k: nat)
    requires Run(ns, es, pduMax) && k < |ns|
    ensures Inv(ns[k], pduMax)
    decreases k
  {
    hide Inv, Step, Total, Loses;
    if k > 0 {
      RunKeeps(ns, es, pduMax, k - 1);
      assert StepsTo(ns[k - 1], es[k - 1], ns[k], pduMax);
      InvFacts(ns[k - 1], pduMax);
      StepKeeps(ns[k - 1], es[k - 1], pduMax);
    }
  }

  /** How many of the first `k` events queue over a pending message. */
  function Losses(ns: seq<Net>, es: seq<Event>, k: nat): (r: nat)
    requires k <= |es| <= |ns|
    ensures r == 0 <==> forall j :: 0 <= j < k ==> !Loses(ns[j], es[j])
    decreases k
  {
    if k == 0 then 0 else Losses(ns, es, k - 1) + BoolBit(Loses(ns[k - 1], es[k - 1]))
  }

  /** Over every run: the credits in the system are those it started with less one for each event that
      queued over a pending message. So they are conserved exactly when there was no such event, and the
      acceptor never sends beyond its grant. What the initiator's application has seen, with what is still
      under way, is what was sent, in order. */
  lemma {:induction false} CreditsConserved(ns: seq<Net>, es: seq<Event>, pduMax: nat, k: nat)
    requires Run(ns, es, pduMax) && k < |ns|
    ensures ns[0].a.coc.Some? && ns[k].a.coc.Some?
    ensures Total(ns[k]) + Losses(ns, es, k) == Total(ns[0])
    ensures Total(ns[k]) == Total(ns[0]) <==> forall j :: 0 <= j < k ==> !Loses(ns[j], es[j])
    ensures Sdus(ns[k].i.log) + Cargos(ns[k].toI) + Pending(ns[k].a.tx) == ns[k].sent
    decreases k
  {
    hide Inv, Step, Total, Loses, Sdus, Cargos, Pending;
    RunKeeps(ns, es, pduMax, k);
    InvFacts(ns[k], pduMax);
    SentInOrder(ns[k], pduMax);
    if k > 0 {
      CreditsConserved(ns, es, pduMax, k - 1);
      RunKeeps(ns, es, pduMax, k - 1);
      assert StepsTo(ns[k - 1], es[k - 1], ns[k], pduMax);
      InvFacts(ns[k - 1], pduMax);
      StepKeeps(ns[k - 1], es[k - 1], pduMax);
    }
  }

  lemma SentInOrder(n: Net, pduMax: nat)
    requires Inv(n, pduMax)
    ensures Sdus(n.i.log) + Cargos(n.toI) + Pending(n.a.tx) == n.sent
  {}

  /** After the handshake the initiator's sends are refused in every state of every run of one-packet SDUs:
      the response grants it credits that the code stores as the peer's, and nothing in such a run grants
      others. `CreditsIffGiven` is the exact condition, `LongSduGrantsCredits` and `CrossingRequestsGrant`
      show two ways to meet it. */
  lemma InitiatorNeverSends(ns: seq<Net>, es: seq<Event>, pduMax: nat, k: nat, data: seq<u8>)
    requires Run(ns, es, pduMax) && k < |ns|
    ensures L2capSend(ns[k].i, data) == (ns[k].i, Err(if |data| > COC_MTU then InvalidLength else NotRunning))
  {
    RunKeeps(ns, es, pduMax, k);
  }

  // ---------- Beyond one packet ----------

  /** An L2CAP packet that grants eight credits. */
  function GrantPacket(): (r: seq<u8>)
    ensures |r| == 10
  {
    ToLe16(6) + ToLe16(L2CAP_SIGNALING_CID) + [LE_FLOW_CONTROL_CREDIT, 0] + ToLe16(COC_LOCAL_CID) + ToLe16(COC_CREDITS)
  }

  /** An SDU whose second packet is that. */
  function GrantingSdu(pduMax: nat): (r: seq<u8>)
    requires 10 <= pduMax <= TX_BUF_SIZE - 2
    ensures |r| == pduMax + 4
  {
    seq(pduMax - 6, _ => 0) + GrantPacket()
  }

  lemma GrantingFrags(tx: Tx, pduMax: nat)
    requires 10 <= pduMax <= TX_BUF_SIZE - 2 && tx.pending && tx.offset == 0 && tx.msg == SduMsg(GrantingSdu(pduMax))
    ensures CanFinish(tx, pduMax)
    ensures Frags(tx, pduMax) == [NextFrag(tx, pduMax), Frag(LLID_DATA_CONTINUATION_OR_COMPLETE, GrantPacket())]
  {
    hide ToLe16, GrantPacket;
    var next := AfterFrag(tx, pduMax);
    assert next.offset == pduMax - 4 && next.msg[pduMax - 4..pduMax + 6] == GrantPacket();
    assert Frags(next, pduMax) == [NextFrag(next, pduMax)];
  }

  lemma GrantWords()
    ensures var p := GrantPacket();
            && Word(p, 2) == L2CAP_SIGNALING_CID && p[4] == LE_FLOW_CONTROL_CREDIT
            && Word(p[4..], 2) == COC_LOCAL_CID && Word(p[4..], 4) == COC_CREDITS
  {
    hide ToLe16, FromLe16;
    Le16RoundTrip(6);
    Le16RoundTrip(L2CAP_SIGNALING_CID);
    Le16RoundTrip(COC_LOCAL_CID);
    Le16RoundTrip(COC_CREDITS);
  }

  /** In every state of the runs above, one accepted SDU above a packet breaks both results: the
      acceptor's credit is spent and nothing is queued to return it, and the initiator, who takes the
      second packet for a signalling message, gains eight credits out of the SDU's bytes. With the default
      packet size the SDU has 31 bytes. */
  lemma LongSduGrantsCredits(n: Net, pduMax: nat)
    requires Inv(n, pduMax) && n.a.coc.value.credits > 0
    ensures L2capSend(n.a, GrantingSdu(pduMax)).1.Ok? && CanFinish(L2capSend(n.a, GrantingSdu(pduMax)).0.tx, pduMax)
    ensures var a := L2capSend(n.a, GrantingSdu(pduMax)).0; var i := ReceiveFrags(n.i, Frags(a.tx, pduMax));
            && a.coc == Some(n.a.coc.value.(credits := n.a.coc.value.credits - 1))
            && i.tx == n.i.tx && i.log == n.i.log
            && i.coc.Some? && i.coc.value.credits == COC_CREDITS && L2capSend(i, []).1.Ok?
  {
    hide ToLe16, ReceiveFrag, NextFrag, Cargos, Sdus, Holds, Cargo, GrantPacket, GrantingSdu, SduMsg;
    var data := GrantingSdu(pduMax);
    var a := L2capSend(n.a, data).0;
    GrantingFrags(a.tx, pduMax);
    LongSduHeld(a.tx, data, pduMax, n.i);
    var t, f := ReceiveFrag(n.i, NextFrag(a.tx, pduMax)), Frag(LLID_DATA_CONTINUATION_OR_COMPLETE, GrantPacket());
    GrantWords();
    GrantReceived(t, f);
    assert Frags(a.tx, pduMax)[1..] == [f] && [f][1..] == [];
    assert ReceiveFrags(t, [f]) == ReceiveFrag(t, f);
  }

  lemma GrantReceived(t: Link, f: Frag)
    requires !t.halted && t.rx.partial == [] && f == Frag(LLID_DATA_CONTINUATION_OR_COMPLETE, GrantPacket())
    requires OnCoc(t, COC_LOCAL_CID) && t.coc.value.credits == 0 && t.coc.value.mtu == COC_MTU
    ensures var u := ReceiveFrag(t, f);
            && u.tx == t.tx && u.log == t.log
            && u.coc == Some(t.coc.value.(credits := COC_CREDITS)) && L2capSend(u, []).1.Ok?
  {
    hide Word, GrantPacket;
    GrantWords();
  }

  // ---------- The handshake ----------

  /** A connection with no channel and nothing to send. */
  predicate Quiet(s: Link) {
    Valid(s) && !s.halted && s.coc.None? && !s.tx.pending && Sdus(s.log) == []
  }

  lemma HeaderWords(n: u16, cid: u16, body: seq<u8>)
    ensures var p := ToLe16(n) + ToLe16(cid) + body;
            p[4..] == body && Word(p, 0) == n && Word(p, 2) == cid && p != [] && |p| == 4 + |body|
  {
    hide ToLe16, FromLe16;
    Le16RoundTrip(n);
    Le16RoundTrip(cid);
  }

  lemma RequestWords(psm: u16)
    ensures var body := ConnReqMsg(psm);
            && body[0] == LE_CREDIT_BASED_CONNECTION_REQ && Word(body, 2) == psm && Word(body, 4) == COC_LOCAL_CID
            && Word(body, 6) == COC_MTU && Word(body, 8) == COC_MPS && Word(body, 10) == COC_CREDITS
  {
    hide ToLe16, FromLe16;
    Le16RoundTrip(psm);
    Le16RoundTrip(COC_LOCAL_CID);
    Le16RoundTrip(COC_MTU);
    Le16RoundTrip(COC_MPS);
    Le16RoundTrip(COC_CREDITS);
  }

  lemma ResponseWords()
    ensures var body := ConnRspMsg(COC_LOCAL_CID);
            && body[0] == LE_CREDIT_BASED_CONNECTION_RSP && Word(body, 2) == COC_LOCAL_CID && Word(body, 4) == COC_MTU
            && Word(body, 6) == COC_MPS && Word(body, 8) == COC_CREDITS && Word(body, 10) == 0
  {
    hide ToLe16, FromLe16;
    Le16RoundTrip(COC_LOCAL_CID);
    Le16RoundTrip(COC_MTU);
    Le16RoundTrip(COC_MPS);
    Le16RoundTrip(COC_CREDITS);
    Le16RoundTrip(0);
  }

  lemma AcceptRequest(s: Link, packet: seq<u8>, psm: u16)
    requires !s.halted && Holds(packet, Frag(LLID_DATA_COMPLETE, ToLe16(12) + ToLe16(L2CAP_SIGNALING_CID) + ConnReqMsg(psm)))
    ensures var c := NewCoc(psm).(peerCid := COC_LOCAL_CID, credits := COC_CREDITS);
            Receive(s, packet) == QueueSignaling(s.(rx := Rx([], 12, L2CAP_SIGNALING_CID), coc := Some(c)), ConnRspMsg(COC_LOCAL_CID))
  {
    hide Decode, ConnReqMsg, ConnRspMsg, ToLe16, Word;
    HeaderWords(12, L2CAP_SIGNALING_CID, ConnReqMsg(psm));
    RequestWords(psm);
  }

  lemma AcceptResponse(s: Link, packet: seq<u8>, psm: u16)
    requires !s.halted && s.coc == Some(NewCoc(psm))
    requires Holds(packet, Frag(LLID_DATA_COMPLETE, ToLe16(12) + ToLe16(L2CAP_SIGNALING_CID) + ConnRspMsg(COC_LOCAL_CID)))
    ensures var c := NewCoc(psm).(peerCid := COC_LOCAL_CID, peerCredits := COC_CREDITS);
            Receive(s, packet) == s.(rx := Rx([], 12, L2CAP_SIGNALING_CID), coc := Some(c))
  {
    hide Decode, ConnRspMsg, ToLe16, Word;
    HeaderWords(12, L2CAP_SIGNALING_CID, ConnRspMsg(COC_LOCAL_CID));
    ResponseWords();
  }

  /** The initiator after its request is on air. */
  function Requested(i: Link, psm: u16, pduMax: nat): Link
    requires Quiet(i)
  {
    var i1 := L2capConnect(i, psm);
    i1.(tx := AfterFrag(i1.tx, pduMax))
  }

  /** The acceptor after it received the request. */
  function Answering(a: Link, i: Link, psm: u16, pduMax: nat, b: Bits): Link
    requires Quiet(i) && 16 <= pduMax <= TX_BUF_SIZE - 2
  {
    Receive(a, Emit(L2capConnect(i, psm).tx, pduMax, b))
  }

  /** Both after the request and the response were transmitted and received. */
  function Opened(a: Link, i: Link, psm: u16, pduMax: nat, b1: Bits, b2: Bits): Net
    requires Quiet(a) && Quiet(i) && 16 <= pduMax <= TX_BUF_SIZE - 2
  {
    AnswerPending(a, i, psm, pduMax, b1);
    var a1 := Answering(a, i, psm, pduMax, b1);
    Net(a1.(tx := AfterFrag(a1.tx, pduMax)), Receive(Requested(i, psm, pduMax), Emit(a1.tx, pduMax, b2)), [], [], [])
  }

  lemma AnswerPending(a: Link, i: Link, psm: u16, pduMax: nat, b: Bits)
    requires Quiet(a) && Quiet(i) && 16 <= pduMax <= TX_BUF_SIZE - 2
    ensures var c := NewCoc(psm).(peerCid := COC_LOCAL_CID, credits := COC_CREDITS);
            Answering(a, i, psm, pduMax, b)
            == QueueSignaling(a.(rx := Rx([], 12, L2CAP_SIGNALING_CID), coc := Some(c)), ConnRspMsg(COC_LOCAL_CID))
    ensures Answering(a, i, psm, pduMax, b).tx == Tx(ConnRspMsg(COC_LOCAL_CID), 0, true, L2CAP_SIGNALING_CID)
  {
    hide Decode, Holds, ToLe16, ConnReqMsg, ConnRspMsg, Receive, Emit, Sdus;
    assert ConnReqMsg(psm)[..12] == ConnReqMsg(psm) && ConnRspMsg(COC_LOCAL_CID)[..12] == ConnRspMsg(COC_LOCAL_CID);
    EmitWhole(L2capConnect(i, psm).tx, pduMax, b);
    AcceptRequest(a, Emit(L2capConnect(i, psm).tx, pduMax, b), psm);
  }

  /** When both ends open a channel at once, the request that the peer sent gives the requester eight
      credits. */
  lemma CrossingRequestsGrant(i: Link, psm: u16, peerPsm: u16, packet: seq<u8>)
    requires Quiet(i) && Holds(packet, Frag(LLID_DATA_COMPLETE, ToLe16(12) + ToLe16(L2CAP_SIGNALING_CID) + ConnReqMsg(peerPsm)))
    ensures HasCredits(Receive(L2capConnect(i, psm), packet)) && Receive(L2capConnect(i, psm), packet).coc.value.credits == COC_CREDITS
  {
    hide ToLe16, ConnReqMsg, ConnRspMsg, Receive, Holds, Sdus;
    AcceptRequest(L2capConnect(i, psm), packet, peerPsm);
  }

  /** Opening a channel from two quiet connections reaches the invariant with all credits at the
      acceptor and none at the initiator. */
  lemma HandshakeEstablishes(a: Link, i: Link, psm: u16, pduMax: nat, b1: Bits, b2: Bits)
    requires Quiet(a) && Quiet(i) && 16 <= pduMax <= TX_BUF_SIZE - 2
    ensures var n := Opened(a, i, psm, pduMax, b1, b2);
            Inv(n, pduMax) && n.a.coc.value.credits == Total(n) == COC_CREDITS && n.i.coc.value.credits == 0
  {
    hide Decode, Holds, ToLe16, ConnReqMsg, ConnRspMsg, Receive, Emit, Sdus, Answering;
    assert ConnReqMsg(psm)[..12] == ConnReqMsg(psm);
    AnswerPending(a, i, psm, pduMax, b1);
    var a1 := Answering(a, i, psm, pduMax, b1);
    EmitWhole(L2capConnect(i, psm).tx, pduMax, b1);
    EmitWhole(a1.tx, pduMax, b2);
    AcceptResponse(Requested(i, psm, pduMax), Emit(a1.tx, pduMax, b2), psm);
  }

  /** From the handshake on, in every run: the credits in the system are the eight granted less one for
      each event that queued over a pending message, so all eight are there exactly when there was none. */
  lemma GrantedCreditsRemain(a: Link, i: Link, psm: u16, b1: Bits, b2: Bits, ns: seq<Net>, es: seq<Event>, pduMax: nat, k: nat)
    requires Quiet(a) && Quiet(i) && 16 <= pduMax <= TX_BUF_SIZE - 2
    requires |ns| == |es| + 1 && ns[0] == Opened(a, i, psm, pduMax, b1, b2) && k < |ns|
    requires forall j :: 0 <= j < |es| ==> StepsTo(ns[j], es[j], ns[j + 1], pduMax)
    ensures ns[k].a.coc.Some? && Total(ns[k]) == COC_CREDITS - Losses(ns, es, k)
    ensures Total(ns[k]) == COC_CREDITS <==> forall j :: 0 <= j < k ==> !Loses(ns[j], es[j])
  {
    hide Inv, Step, Total, Loses, Opened, StepsTo;
    HandshakeEstablishes(a, i, psm, pduMax, b1, b2);
    CreditsConserved(ns, es, pduMax, k);
  }
}
