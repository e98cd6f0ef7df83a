/** The signalling messages byte for byte, and the MTU they negotiate: what each message does to channel and
    transmit queue, and that no accepted SDU exceeds what the peer last named. */
module Negotiation {
  import opened Wrappers
  import opened Octets
  import opened DataPdu
  import opened Link
  import opened Fragmentation
  import opened Ledger

  // ---------- Messages from the peer ----------

  /** A signalling message: code, identifier, and 16-bit fields, low byte first. */
  function Message(code: u8, id: u8, fields: seq<u16>): (r: seq<u8>)
    ensures |r| == 2 + 2 * |fields|
  {
    [code, id] + Fields(fields)
  }

  function Fields(fields: seq<u16>): (r: seq<u8>)
    ensures |r| == 2 * |fields|
    decreases |fields|
  {
    if fields == [] then [] else ToLe16(fields[0]) + Fields(fields[1..])
  }

  lemma {:induction false} FieldAt(fields: seq<u16>, i: nat)
    requires i < |fields|
    ensures Word(Fields(fields), 2 * i) == fields[i]
    decreases |fields|
  {
    hide ToLe16, FromLe16;
    Le16RoundTrip(fields[0]);
    if i > 0 {
      FieldAt(fields[1..], i - 1);
      assert Fields(fields)[2..] == Fields(fields[1..]);
    }
  }

  lemma MessageWord(code: u8, id: u8, fields: seq<u16>, tail: seq<u8>, i: nat)
    requires i < |fields|
    ensures var m := Message(code, id, fields) + tail; m[0] == code && Word(m, 2 + 2 * i) == fields[i]
  {
    hide Fields, FromLe16;
    FieldAt(fields, i);
    var m := Message(code, id, fields) + tail;
    assert m[2 + 2 * i] == Fields(fields)[2 * i] && m[3 + 2 * i] == Fields(fields)[2 * i + 1];
  }

  /** The bytes of a 16-bit number. */
  function Lo(n: u16): u8 { n % 256 }

  function Hi(n: u16): u8 { n / 256 }

  /** A request (0x14) from PSM, channel, MTU, MPS and credits: a fresh channel bounded by the peer's and the
      own limits, and the response (0x15) queued. */
  lemma RequestReceived(s: Link, id: u8, psm: u16, cid: u16, mtu: u16, mps: u16, credits: u16, tail: seq<u8>)
    ensures HandleSignaling(s, Message(0x14, id, [psm, cid, mtu, mps, credits]) + tail)
            == s.(coc := Some(Coc(psm, 0x0040, cid, credits, 0, Min(mtu, 247), Min(mps, 251), [], 0)),
                  tx := Tx([0x15, 0, Lo(cid), Hi(cid), 247, 0, 251, 0, 8, 0, 0, 0], 0, true, 0x0005))
  {
    hide Word, Message;
    var fields := [psm, cid, mtu, mps, credits];
    MessageWord(0x14, id, fields, tail, 0);
    MessageWord(0x14, id, fields, tail, 1);
    MessageWord(0x14, id, fields, tail, 2);
    MessageWord(0x14, id, fields, tail, 3);
    MessageWord(0x14, id, fields, tail, 4);
    ResponseBytes(cid);
  }

  lemma ResponseBytes(cid: u16)
    ensures var m := ConnRspMsg(cid);
            m == [0x15, 0, Lo(cid), Hi(cid), 247, 0, 251, 0, 8, 0, 0, 0] && m[..12] == m
  {}

  /** A response (0x15) from channel, MTU, MPS, credits and result: with result zero it lowers the limits and
      notes channel and credits, with any other it ends the channel. */
  lemma ResponseReceived(s: Link, id: u8, cid: u16, mtu: u16, mps: u16, credits: u16, result: u16, tail: seq<u8>)
    ensures HandleSignaling(s, Message(0x15, id, [cid, mtu, mps, credits, result]) + tail)
            == if s.coc.None? then s
               else if result != 0 then s.(coc := None)
               else s.(coc := Some(s.coc.value.(peerCid := cid, mtu := Min(s.coc.value.mtu, mtu),
                                                mps := Min(s.coc.value.mps, mps), peerCredits := credits)))
  {
    hide Word, Message;
    var fields := [cid, mtu, mps, credits, result];
    MessageWord(0x15, id, fields, tail, 0);
    MessageWord(0x15, id, fields, tail, 1);
    MessageWord(0x15, id, fields, tail, 2);
    MessageWord(0x15, id, fields, tail, 3);
    MessageWord(0x15, id, fields, tail, 4);
  }

  /** A flow control credit (0x16) counts for a channel known by either of its numbers, up to 65535. */
  lemma CreditReceived(s: Link, id: u8, cid: u16, n: u16, tail: seq<u8>)
    ensures HandleSignaling(s, Message(0x16, id, [cid, n]) + tail)
            == if OnCoc(s, cid) then s.(coc := Some(s.coc.value.(credits := Min(s.coc.value.credits + n, 65535)))) else s
  {
    hide Word, Message;
    MessageWord(0x16, id, [cid, n], tail, 0);
    MessageWord(0x16, id, [cid, n], tail, 1);
  }

  /** The end of a channel (0x17). */
  lemma EndReceived(s: Link, id: u8, cid: u16, tail: seq<u8>)
    ensures HandleSignaling(s, Message(0x17, id, [cid]) + tail) == if OnCoc(s, cid) then s.(coc := None) else s
  {
    hide Word, Message;
    MessageWord(0x17, id, [cid], tail, 0);
  }

  /** Every other message, and each of these that is too short but for a response, changes nothing. */
  lemma OthersIgnored(s: Link, body: seq<u8>)
    requires |body| < 4 || (body[0] == 0x14 && |body| < 12) || (body[0] == 0x16 && |body| < 6)
             || (body[0] != 0x14 && body[0] != 0x15 && body[0] != 0x16 && body[0] != 0x17)
    ensures HandleSignaling(s, body) == s
  {}

  // ---------- Messages to the peer ----------

  /** Connecting queues a request for a fresh channel without credits; over an open channel it changes
      nothing. */
  lemma ConnectQueues(s: Link, psm: u16)
    ensures L2capConnect(s, psm)
            == if s.coc.Some? then s
               else s.(coc := Some(Coc(psm, 0x0040, 0, 0, 0, 247, 251, [], 0)),
                       tx := Tx([0x14, 0, Lo(psm), Hi(psm), 0x40, 0, 247, 0, 251, 0, 8, 0], 0, true, 0x0005))
  {
    var m := ConnReqMsg(psm);
    assert m == [0x14, 0, Lo(psm), Hi(psm), 0x40, 0, 247, 0, 251, 0, 8, 0] && m[..12] == m;
  }

  /** Queued messages are cut to their buffers: 247 bytes for signalling, 251 for ATT. */
  lemma QueuedWhole(s: Link, msg: seq<u8>)
    ensures QueueSignaling(s, msg).tx.msg <= msg && |QueueSignaling(s, msg).tx.msg| == Min(|msg|, 247)
    ensures QueueAtt(s, msg).tx.msg <= msg && |QueueAtt(s, msg).tx.msg| == Min(|msg|, 251)
  {}

  /** Sending: which refusal comes first, and what an accepted SDU queues. */
  lemma SendOutcome(s: Link, data: seq<u8>)
    ensures var (t, r) := L2capSend(s, data);
            if s.coc.None? then (t, r) == (s, Err(NotRunning))
            else if |data| > s.coc.value.mtu || |data| > 249 then (t, r) == (s, Err(InvalidLength))
            else if s.coc.value.credits == 0 then (t, r) == (s, Err(NotRunning))
            else r == Ok(()) && |data| < 0x1_0000
                 && t == s.(coc := Some(s.coc.value.(credits := s.coc.value.credits - 1)),
                            tx := Tx([Lo(|data|), Hi(|data|)] + data, 0, true, s.coc.value.localCid))
  {}

  // ---------- The negotiated MTU ----------

  /** After any request naming an MTU, a send is accepted exactly when it stays within that MTU and 247 and
      the request gave a credit. */
  lemma RequestBindsSend(s: Link, id: u8, psm: u16, cid: u16, mtu: u16, mps: u16, credits: u16, tail: seq<u8>, data: seq<u8>)
    ensures var t := HandleSignaling(s, Message(0x14, id, [psm, cid, mtu, mps, credits]) + tail);
            L2capSend(t, data).1 == if |data| > Min(mtu, 247) then Err(InvalidLength)
                                    else if credits == 0 then Err(NotRunning) else Ok(())
  {
    hide HandleSignaling, Message;
    RequestReceived(s, id, psm, cid, mtu, mps, credits, tail);
    SendOutcome(HandleSignaling(s, Message(0x14, id, [psm, cid, mtu, mps, credits]) + tail), data);
  }

  /** After any accepting response naming an MTU, that MTU and the one before both bound a send. */
  lemma ResponseBindsSend(s: Link, id: u8, cid: u16, mtu: u16, mps: u16, credits: u16, tail: seq<u8>, data: seq<u8>)
    requires s.coc.Some?
    ensures var t := HandleSignaling(s, Message(0x15, id, [cid, mtu, mps, credits, 0]) + tail);
            L2capSend(t, data).1 == if |data| > Min(s.coc.value.mtu, mtu) || |data| + 2 > 251 then Err(InvalidLength)
                                    else if s.coc.value.credits == 0 then Err(NotRunning) else Ok(())
  {
    hide HandleSignaling, Message;
    ResponseReceived(s, id, cid, mtu, mps, credits, 0, tail);
    SendOutcome(HandleSignaling(s, Message(0x15, id, [cid, mtu, mps, credits, 0]) + tail), data);
  }

  /** A response with result zero for an open channel. */
  predicate Accepts(s: Link, f: Frag) {
    s.coc.Some? && Signals(s, f, LE_CREDIT_BASED_CONNECTION_RSP) && |f.payload| >= 16 && Word(f.payload[4..], 10) == 0
  }

  /** The MTU that an operation names, if it names one. */
  function Names(s: Link, op: Op): Option<nat> {
    if op.Get? && Opens(s, op.f) then Some(Word(op.f.payload[4..], 6))
    else if op.Get? && Accepts(s, op.f) then Some(Word(op.f.payload[4..], 4))
    else if op.Connect? && s.coc.None? then Some(COC_MTU)
    else None
  }

  /** The channel's MTU by what has been named: a request or an own connection starts it, a response lowers
      it. */
  function MtuBound(s: Link, ops: seq<Op>): nat
    decreases |ops|
  {
    if ops == [] then (if s.coc.Some? then s.coc.value.mtu else 0)
    else
      var before, op, bound := DoAll(s, ops[..|ops| - 1]), ops[|ops| - 1], MtuBound(s, ops[..|ops| - 1]);
      match Names(before, op)
      case None => bound
      case Some(named) => if op.Get? && !Opens(before, op.f) then Min(bound, named) else Min(named, COC_MTU)
  }

  /** The MTU that was named last. */
  function LastNamed(s: Link, ops: seq<Op>): Option<nat>
    decreases |ops|
  {
    if ops == [] then None
    else
      var named := Names(DoAll(s, ops[..|ops| - 1]), ops[|ops| - 1]);
      if named.Some? then named else LastNamed(s, ops[..|ops| - 1])
  }

  /** What an operation does to the MTU. */
  lemma MtuStep(s: Link, op: Op)
    ensures var t := Do(s, op);
            && (t.coc.Some? && Names(s, op).None? ==> s.coc.Some? && t.coc.value.mtu == s.coc.value.mtu)
            && (op.Get? && Opens(s, op.f) ==> t.coc.Some? && t.coc.value.mtu == Min(Word(op.f.payload[4..], 6), COC_MTU))
            && (op.Get? && !Opens(s, op.f) && Names(s, op).Some? ==>
                  s.coc.Some? && t.coc.Some? && t.coc.value.mtu == Min(s.coc.value.mtu, Names(s, op).value))
            && (!op.Get? && Names(s, op).Some? ==> t.coc.Some? && t.coc.value.mtu == COC_MTU)
  {
    hide Word, HandleSignaling, RxCocSdu, AppendAtt, ConnReqMsg, SduMsg;
    if op.Get? && |op.f.payload| >= 4 {
      var p := op.f.payload;
      var t := s.(rx := Rx([], Word(p, 0), Word(p, 2)));
      AppendKeepsCoc(t, p[4..]);
      SduKeepsMtu(t, p[4..]);
      SignalMtu(t, p[4..]);
    }
    if op.Get? {
      AppendKeepsCoc(s, op.f.payload);
    }
  }

  lemma SduKeepsMtu(s: Link, body: seq<u8>)
    ensures var t := RxCocSdu(s, body, Idle).0; t.coc.Some? == s.coc.Some? && (s.coc.Some? ==> t.coc.value.mtu == s.coc.value.mtu)
  {
    hide Word, CreditMsg;
  }

  lemma SignalMtu(s: Link, body: seq<u8>)
    ensures var t := HandleSignaling(s, body);
            if |body| >= 12 && body[0] == LE_CREDIT_BASED_CONNECTION_REQ then
              t.coc.Some? && t.coc.value.mtu == Min(Word(body, 6), COC_MTU)
            else if |body| >= 12 && s.coc.Some? && body[0] == LE_CREDIT_BASED_CONNECTION_RSP && Word(body, 10) == 0 then
              t.coc.Some? && t.coc.value.mtu == Min(s.coc.value.mtu, Word(body, 4))
            else t.coc.Some? ==> s.coc.Some? && t.coc.value.mtu == s.coc.value.mtu
  {
    hide Word, ConnRspMsg;
  }

  lemma {:induction false} MtuNegotiated(s: Link, ops: seq<Op>)
    ensures var t := DoAll(s, ops); t.coc.Some? ==> t.coc.value.mtu == MtuBound(s, ops)
    ensures LastNamed(s, ops).Some? ==> MtuBound(s, ops) <= LastNamed(s, ops).value
    decreases |ops|
  {
    hide Do, Names, Opens;
    if ops != [] {
      MtuNegotiated(s, ops[..|ops| - 1]);
      MtuStep(DoAll(s, ops[..|ops| - 1]), ops[|ops| - 1]);
      NamedByConnect(DoAll(s, ops[..|ops| - 1]), ops[|ops| - 1]);
    }
  }

  lemma NamedByConnect(s: Link, op: Op)
    ensures Names(s, op).Some? && !op.Get? ==> Names(s, op).value == COC_MTU
    ensures op.Get? && Opens(s, op.f) ==> Names(s, op) == Some(Word(op.f.payload[4..], 6))
  {}

  /** Over everything that can happen at one end: a send is accepted exactly when there is a channel with a
      credit and the SDU stays within 249 bytes and the negotiated MTU, which never exceeds what the last
      request or accepting response named. */
  lemma AcceptedWithinMtu(s: Link, ops: seq<Op>, data: seq<u8>)
    ensures var t := DoAll(s, ops);
            L2capSend(t, data).1.Ok? <==> t.coc.Some? && t.coc.value.credits > 0 && |data| <= 249 && |data| <= MtuBound(s, ops)
    ensures L2capSend(DoAll(s, ops), data).1.Ok? && LastNamed(s, ops).Some? ==> |data| <= LastNamed(s, ops).value
  {
    hide DoAll, MtuBound, LastNamed, L2capSend;
    MtuNegotiated(s, ops);
    SendOutcome(DoAll(s, ops), data);
  }
}
