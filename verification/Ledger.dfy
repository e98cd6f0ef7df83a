/** The credits of one end of a channel, whatever the peer sends: exactly which fragments open, close or
    credit it, when it can send at all, and that it never sends beyond what it was granted. */
module Ledger {
  import opened Octets
  import opened DataPdu
  import opened Link
  import opened Fragmentation

  // ---------- What a fragment does to the credits ----------

  /** The signalling message that a fragment is taken for. */
  predicate Signals(s: Link, f: Frag, code: u8) {
    && !s.halted && f.llid != LLID_CONTROL && IsFirst(s, f.llid) && |f.payload| >= 8
    && Word(f.payload, 2) == L2CAP_SIGNALING_CID && f.payload[4] == code
  }

  /** A connection request, which replaces any channel. */
  predicate Opens(s: Link, f: Frag) { Signals(s, f, LE_CREDIT_BASED_CONNECTION_REQ) && |f.payload| >= 16 }

  /** A refusal, or the end of the channel. */
  predicate Closes(s: Link, f: Frag) {
    s.coc.Some?
    && ((Signals(s, f, LE_CREDIT_BASED_CONNECTION_RSP) && |f.payload| >= 16 && Word(f.payload[4..], 10) != 0)
        || (Signals(s, f, LE_CREDIT_BASED_CONNECTION_END) && OnCoc(s, Word(f.payload[4..], 2))))
  }

  /** The credits of a flow control message for the channel. */
  function Granted(s: Link, f: Frag): nat {
    if Signals(s, f, LE_FLOW_CONTROL_CREDIT) && |f.payload| >= 10 && OnCoc(s, Word(f.payload[4..], 2))
    then Word(f.payload[4..], 4) else 0
  }

  /** Every received fragment: it opens the channel with the credits it names, closes it, or adds what it
      grants, up to 65535. */
  lemma CreditStep(s: Link, f: Frag)
    ensures var t := ReceiveFrag(s, f);
            if Opens(s, f) then t.coc.Some? && t.coc.value.credits == Word(f.payload[4..], 10)
            else if Closes(s, f) then t.coc.None?
            else t.coc.Some? == s.coc.Some?
                 && (s.coc.Some? ==> t.coc.value.credits == Min(s.coc.value.credits + Granted(s, f), U16_MAX))
  {
    hide Word, HandleSignaling, RxCocSdu, AppendAtt;
    AppendKeepsCoc(s, f.payload);
    if |f.payload| >= 4 {
      var cid, body := Word(f.payload, 2), f.payload[4..];
      var t := s.(rx := Rx([], Word(f.payload, 0), cid));
      AppendKeepsCoc(t, body);
      SduKeepsCredits(t, body);
      SignalingCredits(t, body);
    }
  }

  lemma AppendKeepsCoc(s: Link, body: seq<u8>)
    ensures AppendAtt(s, body).coc == s.coc
  {}

  lemma SduKeepsCredits(s: Link, body: seq<u8>)
    ensures var t := RxCocSdu(s, body, Idle).0;
            t.coc.Some? == s.coc.Some? && (s.coc.Some? ==> t.coc.value.credits == s.coc.value.credits)
  {
    hide Word, CreditMsg;
  }

  lemma SignalingCredits(s: Link, body: seq<u8>)
    ensures var t := HandleSignaling(s, body);
            if |body| >= 12 && body[0] == LE_CREDIT_BASED_CONNECTION_REQ then t.coc.Some? && t.coc.value.credits == Word(body, 10)
            else if s.coc.Some? && |body| >= 4
                    && ((body[0] == LE_CREDIT_BASED_CONNECTION_RSP && |body| >= 12 && Word(body, 10) != 0)
                        || (body[0] == LE_CREDIT_BASED_CONNECTION_END && OnCoc(s, Word(body, 2)))) then t.coc.None?
            else t.coc.Some? == s.coc.Some?
                 && (s.coc.Some? ==>
                       t.coc.value.credits == Min(s.coc.value.credits + (
                         if |body| >= 6 && body[0] == LE_FLOW_CONTROL_CREDIT && OnCoc(s, Word(body, 2)) then Word(body, 4) else 0), U16_MAX))
  {
    hide Word, ConnRspMsg;
  }

  // ---------- When an end can send ----------

  predicate HasCredits(s: Link) { s.coc.Some? && s.coc.value.credits > 0 }

  /** A request or a flow control message with at least one credit. */
  predicate Gives(s: Link, f: Frag) {
    if Opens(s, f) then Word(f.payload[4..], 10) > 0 else !Closes(s, f) && s.coc.Some? && Granted(s, f) > 0
  }

  /** A request without credits, a refusal or the end of the channel. */
  predicate Takes(s: Link, f: Frag) {
    if Opens(s, f) then Word(f.payload[4..], 10) == 0 else Closes(s, f)
  }

  lemma CreditsStep(s: Link, f: Frag)
    ensures HasCredits(ReceiveFrag(s, f)) <==> Gives(s, f) || (HasCredits(s) && !Takes(s, f))
  {
    hide Opens, Closes, Granted, ReceiveFrag;
    CreditStep(s, f);
  }

  /** The link that fragment `j` meets. */
  function Before(s: Link, fs: seq<Frag>, j: nat): Link
    requires j <= |fs|
  {
    ReceiveFrags(s, fs[..j])
  }

  /** No fragment from `j` on takes the credits. */
  ghost predicate Untaken(s: Link, fs: seq<Frag>, j: nat) {
    forall i :: j <= i < |fs| ==> !Takes(Before(s, fs, i), fs[i])
  }

  /** Some fragment gives credits that none after it takes. */
  ghost predicate Given(s: Link, fs: seq<Frag>) {
    exists j :: 0 <= j < |fs| && Gives(Before(s, fs, j), fs[j]) && Untaken(s, fs, j + 1)
  }

  lemma {:induction false} ReceiveFragsSnoc(s: Link, fs: seq<Frag>, f: Frag)
    ensures ReceiveFrags(s, fs + [f]) == ReceiveFrag(ReceiveFrags(s, fs), f)
    decreases |fs|
  {
    hide ReceiveFrag;
    if fs == [] {
      assert ([] + [f])[1..] == [];
    } else {
      assert (fs + [f])[1..] == fs[1..] + [f];
      ReceiveFragsSnoc(ReceiveFrag(s, fs[0]), fs[1..], f);
    }
  }

  /** For every sequence of fragments from any peer: an end has credits afterwards exactly when some
      fragment gave it some that none after it took, or it had some that none took. So one that starts
      without, like the side that opened a channel, can send only after such a fragment. */
  lemma {:induction false} CreditsIffGiven(s: Link, fs: seq<Frag>)
    ensures HasCredits(ReceiveFrags(s, fs)) <==> Given(s, fs) || (HasCredits(s) && Untaken(s, fs, 0))
    decreases |fs|
  {
    hide ReceiveFrags, ReceiveFrag, Gives, Takes, HasCredits;
    if fs == [] {
      NoFrags(s);
    } else {
      var n := |fs| - 1;
      var init, t := fs[..n], Before(s, fs, n);
      assert fs == init + [fs[n]];
      ReceiveFragsSnoc(s, init, fs[n]);
      CreditsStep(t, fs[n]);
      CreditsIffGiven(s, init);
      SamePrefixes(s, fs);
      UntakenInit(s, fs, 0);
      GivenInit(s, fs);
    }
  }

  lemma NoFrags(s: Link)
    ensures ReceiveFrags(s, []) == s
  {}

  lemma SamePrefixes(s: Link, fs: seq<Frag>)
    requires fs != []
    ensures forall j :: 0 <= j < |fs| ==> Before(s, fs[..|fs| - 1], j) == Before(s, fs, j)
  {
    hide ReceiveFrags;
    forall j | 0 <= j < |fs|
      ensures Before(s, fs[..|fs| - 1], j) == Before(s, fs, j)
    {
      assert fs[..|fs| - 1][..j] == fs[..j];
    }
  }

  lemma UntakenInit(s: Link, fs: seq<Frag>, j: nat)
    requires j < |fs|
    ensures Untaken(s, fs, j) <==> Untaken(s, fs[..|fs| - 1], j) && !Takes(Before(s, fs, |fs| - 1), fs[|fs| - 1])
  {
    hide ReceiveFrags, Before, Takes;
    SamePrefixes(s, fs);
    var init := fs[..|fs| - 1];
    if Untaken(s, fs, j) {
      forall i | j <= i < |init|
        ensures !Takes(Before(s, init, i), init[i])
      {
        assert !Takes(Before(s, fs, i), fs[i]);
      }
    }
    if Untaken(s, init, j) && !Takes(Before(s, fs, |fs| - 1), fs[|fs| - 1]) {
      forall i | j <= i < |fs|
        ensures !Takes(Before(s, fs, i), fs[i])
      {
        if i < |init| {
          assert !Takes(Before(s, init, i), init[i]);
        }
      }
    }
  }

  lemma GivenInit(s: Link, fs: seq<Frag>)
    requires fs != []
    ensures var n := |fs| - 1;
            Given(s, fs) <==> Gives(Before(s, fs, n), fs[n]) || (Given(s, fs[..n]) && !Takes(Before(s, fs, n), fs[n]))
  {
    hide ReceiveFrags, Before, Takes, Gives;
    SamePrefixes(s, fs);
    var n := |fs| - 1;
    var init := fs[..n];
    if Given(s, fs) {
      var j :| 0 <= j < |fs| && Gives(Before(s, fs, j), fs[j]) && Untaken(s, fs, j + 1);
      if j < n {
        UntakenInit(s, fs, j + 1);
        assert Gives(Before(s, init, j), init[j]);
      }
    }
    if Given(s, init) && !Takes(Before(s, fs, n), fs[n]) {
      var j :| 0 <= j < |init| && Gives(Before(s, init, j), init[j]) && Untaken(s, init, j + 1);
      UntakenInit(s, fs, j + 1);
      assert Gives(Before(s, fs, j), fs[j]);
    }
    if Gives(Before(s, fs, n), fs[n]) {
      assert Untaken(s, fs, n + 1);
    }
  }

  // ---------- Sending against the grant ----------

  /** What happens at one end: a send or a connection by the application, a fragment from the peer, or
      anything else that is done to the transmit queue. */
  datatype Op = Send(data: seq<u8>) | Connect(psm: u16) | Get(f: Frag) | Queue(tx: Tx)

  function Do(s: Link, op: Op): Link {
    match op
    case Send(data) => L2capSend(s, data).0
    case Connect(psm) => L2capConnect(s, psm)
    case Get(f) => ReceiveFrag(s, f)
    case Queue(tx) => s.(tx := tx)
  }

  function DoAll(s: Link, ops: seq<Op>): Link
    decreases |ops|
  {
    if ops == [] then s else Do(DoAll(s, ops[..|ops| - 1]), ops[|ops| - 1])
  }

  /** One for an accepted send. */
  function Spent(s: Link, op: Op): nat { BoolBit(op.Send? && L2capSend(s, op.data).1.Ok?) }

  /** The credits a fragment adds, which is all it grants unless the counter would overflow. */
  function Gained(s: Link, op: Op): nat
    requires s.coc.Some?
  {
    if op.Get? then Min(Granted(s, op.f), U16_MAX - s.coc.value.credits) else 0
  }

  /** The channel is neither replaced nor closed. */
  predicate Keeps(s: Link, op: Op) { op.Get? ==> !Opens(s, op.f) && !Closes(s, op.f) }

  predicate KeepsAll(s: Link, ops: seq<Op>)
    decreases |ops|
  {
    ops == [] || (KeepsAll(s, ops[..|ops| - 1]) && Keeps(DoAll(s, ops[..|ops| - 1]), ops[|ops| - 1]))
  }

  function TotalSpent(s: Link, ops: seq<Op>): nat
    decreases |ops|
  {
    if ops == [] then 0 else TotalSpent(s, ops[..|ops| - 1]) + Spent(DoAll(s, ops[..|ops| - 1]), ops[|ops| - 1])
  }

  function TotalGained(s: Link, ops: seq<Op>): nat
    decreases |ops|
  {
    if ops == [] then 0
    else
      var before := DoAll(s, ops[..|ops| - 1]);
      TotalGained(s, ops[..|ops| - 1]) + if before.coc.Some? then Gained(before, ops[|ops| - 1]) else 0
  }

  lemma DoStep(s: Link, op: Op)
    requires s.coc.Some? && Keeps(s, op)
    ensures var t := Do(s, op); t.coc.Some? && t.coc.value.credits + Spent(s, op) == s.coc.value.credits + Gained(s, op)
  {
    hide Opens, Closes, Granted, ReceiveFrag;
    if op.Get? {
      CreditStep(s, op.f);
    }
  }

  /** Over everything that can happen at one end of an open channel, with SDUs of any length and any peer:
      credits left and sends accepted add up to the credits at the start and those gained since. So the
      sends never exceed the grants. */
  lemma {:induction false} SendsWithinGrants(s: Link, ops: seq<Op>)
    requires s.coc.Some? && KeepsAll(s, ops)
    ensures var t := DoAll(s, ops);
            t.coc.Some? && t.coc.value.credits + TotalSpent(s, ops) == s.coc.value.credits + TotalGained(s, ops)
    ensures TotalSpent(s, ops) <= s.coc.value.credits + TotalGained(s, ops)
    decreases |ops|
  {
    hide Do, Spent, Gained, Keeps;
    if ops != [] {
      SendsWithinGrants(s, ops[..|ops| - 1]);
      DoStep(DoAll(s, ops[..|ops| - 1]), ops[|ops| - 1]);
    }
  }
}
