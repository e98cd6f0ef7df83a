/** The L2CAP data path of a connection as a value (src/hw/conn.rs): what each step of the fragmenter,
    the reassembler, the signalling channel and the credit-based channel does to it. `Conn` holds the
    same state in buffers and is proved to take these steps. */
module Link {
  import opened Wrappers
  import opened Octets
  import opened DataPdu

  const L2CAP_ATT_CID: u16 := 0x0004
  const L2CAP_SIGNALING_CID: u16 := 0x0005
  const L2CAP_SMP_CID: u16 := 0x0006

  const LE_CREDIT_BASED_CONNECTION_REQ: u8 := 0x14
  const LE_CREDIT_BASED_CONNECTION_RSP: u8 := 0x15
  const LE_FLOW_CONTROL_CREDIT: u8 := 0x16
  const LE_CREDIT_BASED_CONNECTION_END: u8 := 0x17

  const COC_LOCAL_CID: u16 := 0x0040
  const COC_CREDITS: u16 := 8
  const COC_MTU: u16 := 247
  const COC_MPS: u16 := 251

  const LL_CONTROL_CONNECTION_UPDATE_REQ: u8 := 0x00
  const LL_CONTROL_LENGTH_REQ: u8 := 0x14
  const LL_CONTROL_LENGTH_RSP: u8 := 0x15

  // Buffer sizes.
  const TX_ATT_SIZE: nat := 251
  const TX_BUF_SIZE: nat := 64
  const RX_L2CAP_SIZE: nat := 256
  const RX_SDU_SIZE: nat := 256
  const RX_DATA_SIZE: nat := 244

  /** A credit-based channel; `rxSdu` is the part of the incoming SDU received so far. */
  datatype Coc = Coc(psm: u16, localCid: u16, peerCid: u16, credits: u16, peerCredits: u16, mtu: u16, mps: u16,
                     rxSdu: seq<u8>, rxSduTotal: nat)

  function NewCoc(psm: u16): Coc {
    Coc(psm, COC_LOCAL_CID, 0, 0, 0, COC_MTU, COC_MPS, [], 0)
  }

  /** The message being sent and how far the fragmenter is. */
  datatype Tx = Tx(msg: seq<u8>, offset: nat, pending: bool, cid: u16)

  /** The ATT message being reassembled. */
  datatype Rx = Rx(partial: seq<u8>, msgLen: nat, cid: u16)

  /** Messages handed to the layers above. */
  datatype Upcall = AttPdu(bytes: seq<u8>) | SmpPdu(bytes: seq<u8>) | Sdu(bytes: seq<u8>)

  datatype ConnEvent = Idle | Data | L2cap(cid: u16)

  datatype Role = Master | Slave

  /** `halted` marks a read outside a message, where the source panics. */
  datatype Link = Link(role: Role, tx: Tx, rx: Rx, coc: Option<Coc>, rxData: seq<u8>, log: seq<Upcall>, halted: bool)

  // ---------- Sending ----------

  datatype Frag = Frag(llid: nat, payload: seq<u8>)

  function Chunk(tx: Tx, pduMax: nat): nat
    requires tx.offset <= |tx.msg|
  {
    Min(|tx.msg| - tx.offset, if tx.offset > 0 then pduMax else if pduMax >= 4 then pduMax - 4 else 0)
  }

  /** The fragment `tx_fragment` builds next. */
  function NextFrag(tx: Tx, pduMax: nat): Frag
    requires tx.offset <= |tx.msg| < 0x1_0000
  {
    var chunk := Chunk(tx, pduMax);
    var body := tx.msg[tx.offset..tx.offset + chunk];
    if tx.offset > 0 then Frag(LLID_DATA_CONTINUATION_OR_COMPLETE, body)
    else Frag(if chunk == |tx.msg| then LLID_DATA_COMPLETE else LLID_DATA_START,
              ToLe16(|tx.msg|) + ToLe16(tx.cid) + body)
  }

  /** The fragmenter after that fragment. */
  function AfterFrag(tx: Tx, pduMax: nat): Tx
    requires tx.offset <= |tx.msg|
  {
    var end := tx.offset + Chunk(tx, pduMax);
    if end >= |tx.msg| then tx.(offset := 0, pending := false) else tx.(offset := end)
  }

  /** One call of the fragmenter in the terms of its code. */
  lemma FragStep(tx: Tx, pduMax: nat)
    requires tx.offset <= |tx.msg| < 0x1_0000
    ensures var first := tx.offset == 0;
            var chunk := Min(|tx.msg| - tx.offset, if first then (if pduMax >= 4 then pduMax - 4 else 0) else pduMax);
            var body := tx.msg[tx.offset..tx.offset + chunk];
            && chunk == Chunk(tx, pduMax)
            && NextFrag(tx, pduMax).llid == (if first && chunk == |tx.msg| then LLID_DATA_COMPLETE
                                             else if first then LLID_DATA_START
                                             else LLID_DATA_CONTINUATION_OR_COMPLETE)
            && NextFrag(tx, pduMax).payload == if first then ToLe16(|tx.msg|) + ToLe16(tx.cid) + body else body
  {
    hide ToLe16;
  }

  /** The link layer packet that carries a fragment. */
  function PacketOf(f: Frag, nesn: bool, sn: bool): seq<u8>
    requires |f.payload| < 64
  {
    Encoded(DataPdu(f.llid, !nesn, sn, false, f.payload))
  }

  function QueueAtt(s: Link, att: seq<u8>): Link {
    s.(tx := s.tx.(msg := att[..Min(|att|, TX_ATT_SIZE)], pending := true))
  }

  function QueueSignaling(s: Link, msg: seq<u8>): Link {
    s.(tx := Tx(msg[..Min(|msg|, TX_ATT_SIZE - 4)], 0, true, L2CAP_SIGNALING_CID))
  }

  // ---------- Signalling ----------

  function Word(body: seq<u8>, at: nat): u16
    requires at + 1 < |body|
  {
    FromLe16(body[at], body[at + 1])
  }

  function ConnReqMsg(psm: u16): (r: seq<u8>)
    ensures |r| == 12
  {
    [LE_CREDIT_BASED_CONNECTION_REQ, 0] + ToLe16(psm) + ToLe16(COC_LOCAL_CID) + ToLe16(COC_MTU) + ToLe16(COC_MPS) + ToLe16(COC_CREDITS)
  }

  function ConnRspMsg(peerCid: u16): (r: seq<u8>)
    ensures |r| == 12
  {
    [LE_CREDIT_BASED_CONNECTION_RSP, 0] + ToLe16(peerCid) + ToLe16(COC_MTU) + ToLe16(COC_MPS) + ToLe16(COC_CREDITS) + ToLe16(0)
  }

  function CreditMsg(cid: u16): (r: seq<u8>)
    ensures |r| == 6
  {
    [LE_FLOW_CONTROL_CREDIT, 0] + ToLe16(cid) + ToLe16(1)
  }

  function HandleSignaling(s: Link, body: seq<u8>): Link {
    if |body| < 4 then s
    else if body[0] == LE_CREDIT_BASED_CONNECTION_REQ then
      if |body| < 12 then s
      else
        var coc := NewCoc(Word(body, 2)).(peerCid := Word(body, 4), mtu := Min(Word(body, 6), COC_MTU),
                                          mps := Min(Word(body, 8), COC_MPS), credits := Word(body, 10));
        QueueSignaling(s.(coc := Some(coc)), ConnRspMsg(Word(body, 4)))
    else if s.coc.None? then s
    else if body[0] == LE_CREDIT_BASED_CONNECTION_RSP then
      if |body| < 12 then s.(halted := true)
      else if Word(body, 10) != 0 then s.(coc := None)
      else
        var c := s.coc.value;
        s.(coc := Some(c.(peerCid := Word(body, 2), mtu := Min(c.mtu, Word(body, 4)), mps := Min(c.mps, Word(body, 6)),
                          peerCredits := Word(body, 8))))
    else if body[0] == LE_FLOW_CONTROL_CREDIT then
      var c := s.coc.value;
      if |body| >= 6 && (Word(body, 2) == c.localCid || Word(body, 2) == c.peerCid)
      then s.(coc := Some(c.(credits := Min(c.credits + Word(body, 4), U16_MAX))))
      else s
    else if body[0] == LE_CREDIT_BASED_CONNECTION_END then
      if Word(body, 2) == s.coc.value.localCid || Word(body, 2) == s.coc.value.peerCid then s.(coc := None) else s
    else s
  }

  function L2capConnect(s: Link, psm: u16): Link {
    if s.coc.Some? then s else QueueSignaling(s.(coc := Some(NewCoc(psm))), ConnReqMsg(psm))
  }

  function SduMsg(data: seq<u8>): (r: seq<u8>)
    requires |data| < 0x1_0000
    ensures |r| == |data| + 2
  {
    ToLe16(|data|) + data
  }

  function L2capSend(s: Link, data: seq<u8>): (Link, Result<()>) {
    if s.coc.None? then (s, Err(NotRunning))
    else if |data| > s.coc.value.mtu || |data| + 2 > TX_ATT_SIZE then (s, Err(InvalidLength))
    else if s.coc.value.credits == 0 then (s, Err(NotRunning))
    else
      var c := s.coc.value;
      (s.(coc := Some(c.(credits := c.credits - 1)), tx := Tx(SduMsg(data), 0, true, c.localCid)), Ok(()))
  }

  // ---------- Receiving ----------

  /** The incoming SDU after one more frame: what has arrived and how long it should be, or nothing when
      a first frame is too short for the length field. */
  function Gather(c: Coc, body: seq<u8>): Option<(seq<u8>, nat)> {
    if c.rxSdu == [] then
      if |body| < 2 then None else Some((body[2..2 + Min(|body| - 2, RX_SDU_SIZE)], Word(body, 0)))
    else Some((c.rxSdu + body[..Min(|body|, if |c.rxSdu| <= RX_SDU_SIZE then RX_SDU_SIZE - |c.rxSdu| else 0)], c.rxSduTotal))
  }

  function RxCocSdu(s: Link, body: seq<u8>, ev: ConnEvent): (Link, ConnEvent) {
    if s.coc.None? then (s, ev)
    else
      var c := s.coc.value;
      match Gather(c, body)
      case None => (s, ev)
      case Some((sdu, total)) =>
        if |sdu| < total then (s.(coc := Some(c.(rxSdu := sdu, rxSduTotal := total))), ev)
        else
          var data := sdu[..Min(total, RX_DATA_SIZE)];
          var t := QueueSignaling(s.(coc := Some(c.(rxSdu := [], rxSduTotal := 0))), CreditMsg(c.peerCid));
          (t.(rxData := data, log := s.log + [Sdu(data)]), Data)
  }

  /** The bytes that the handler of an ATT message reads whatever its length. */
  function AttMin(op: u8): nat {
    if op == 0x08 || op == 0x10 then 7
    else if op == 0x04 || op == 0x0C then 5
    else if op == 0x0A || op == 0x12 || op == 0x52 || op == 0x1B then 3
    else 1
  }

  /** The handler reads outside the message; it ignores an empty one. */
  predicate ShortAtt(m: seq<u8>) { m != [] && |m| < AttMin(m[0]) }

  /** Hands a complete ATT message on; its handler is represented by what it reads. */
  function DeliverAtt(s: Link, m: seq<u8>): Link {
    s.(rx := s.rx.(partial := []), log := s.log + [AttPdu(m)], halted := s.halted || ShortAtt(m))
  }

  /** Adds a fragment body to the ATT message and delivers it when it is complete. */
  function AppendAtt(s: Link, body: seq<u8>): Link {
    var room := if |s.rx.partial| <= RX_L2CAP_SIZE then RX_L2CAP_SIZE - |s.rx.partial| else 0;
    var p := s.rx.partial + body[..Min(|body|, room)];
    var len := Min(s.rx.msgLen, RX_L2CAP_SIZE);
    if |p| >= len then DeliverAtt(s, p[..len])
    else s.(rx := s.rx.(partial := p))
  }

  predicate IsFirst(s: Link, llid: nat) {
    llid != LLID_DATA_CONTINUATION_OR_COMPLETE || s.rx.partial == []
  }

  predicate OnCoc(s: Link, cid: u16) {
    s.coc.Some? && (s.coc.value.peerCid == cid || s.coc.value.localCid == cid)
  }

  /** The body of a first fragment, by channel. */
  function Dispatch(t: Link, cid: u16, body: seq<u8>, ev: ConnEvent): (Link, ConnEvent) {
    if cid == L2CAP_SMP_CID then (t.(log := t.log + [SmpPdu(body)]), ev)
    else if cid == L2CAP_SIGNALING_CID then (HandleSignaling(t, body), ev)
    else if cid == L2CAP_ATT_CID then (AppendAtt(t, body), ev)
    else if OnCoc(t, cid) then RxCocSdu(t, body, ev)
    else (t, L2cap(cid))
  }

  function HandleL2cap(s: Link, payload: seq<u8>, llid: nat, ev: ConnEvent): (Link, ConnEvent) {
    if !IsFirst(s, llid) then (AppendAtt(s, payload), ev)
    else if |payload| < 4 then (s, ev)
    else
      var cid := Word(payload, 2);
      Dispatch(s.(rx := Rx([], Word(payload, 0), cid)), cid, payload[4..], ev)
  }

  /** An LL control packet that the slave's handler reads outside of: the connection update is guarded by
      one byte too few. */
  predicate ShortControl(p: seq<u8>) {
    p != [] && (((p[0] == LL_CONTROL_LENGTH_REQ || p[0] == LL_CONTROL_LENGTH_RSP) && |p| < 7)
                || (p[0] == LL_CONTROL_CONNECTION_UPDATE_REQ && |p| == 10))
  }

  /** One received link layer packet: decoded, and handed on unless it is empty. LL control does nothing to
      the data path, and the master does not look beyond its first byte. */
  function Receive(s: Link, packet: seq<u8>): Link {
    match Decode(packet)
    case Err(_) => s
    case Ok(p) => ReceiveFrag(s, Frag(p.llid, p.payload))
  }

  function ReceiveFrag(s: Link, f: Frag): Link {
    if s.halted || f.payload == [] then s
    else if f.llid == LLID_CONTROL then s.(halted := s.role.Slave? && ShortControl(f.payload))
    else HandleL2cap(s, f.payload, f.llid, Idle).0
  }

  /** A link whose buffers are within their sizes and whose fragmenter is at rest between messages. */
  predicate Valid(s: Link) {
    && s.tx.offset <= |s.tx.msg| <= TX_ATT_SIZE
    && (!s.tx.pending ==> s.tx.offset == 0)
    && |s.rx.partial| <= RX_L2CAP_SIZE
    && (s.coc.Some? ==> |s.coc.value.rxSdu| <= RX_SDU_SIZE)
    && |s.rxData| <= RX_DATA_SIZE
  }

  /** `queue_att` keeps the offset of a message that is being sent. It stays inside the new message, so
      that the next fragment can be built, exactly when the new one is not shorter; when nothing is
      pending it is zero. */
  lemma QueueAttKeepsValid(s: Link, att: seq<u8>)
    requires Valid(s)
    ensures Valid(QueueAtt(s, att)) <==> s.tx.offset <= Min(|att|, TX_ATT_SIZE)
    ensures !s.tx.pending ==> Valid(QueueAtt(s, att)) && QueueAtt(s, att).tx.offset == 0
  {}

  // ---------- Every packet, in every state ----------

  /** A connection response without its result field, on a link with a channel. */
  predicate ShortResponse(s: Link, f: Frag) {
    && f.llid != LLID_CONTROL && IsFirst(s, f.llid) && 8 <= |f.payload| < 16
    && Word(f.payload, 2) == L2CAP_SIGNALING_CID && f.payload[4] == LE_CREDIT_BASED_CONNECTION_RSP && s.coc.Some?
  }

  /** The ATT message that a fragment completes: the fragments collected before it and its own bytes, cut
      to the announced length. */
  function CompletedAtt(s: Link, f: Frag): Option<seq<u8>> {
    if f.llid == LLID_CONTROL || f.payload == [] then None
    else if !IsFirst(s, f.llid) then CompletedBy(s.rx.partial, f.payload, s.rx.msgLen)
    else if |f.payload| < 4 || Word(f.payload, 2) != L2CAP_ATT_CID then None
    else CompletedBy([], f.payload[4..], Word(f.payload, 0))
  }

  function CompletedBy(partial: seq<u8>, body: seq<u8>, msgLen: nat): Option<seq<u8>> {
    var all, len := partial + body, Min(msgLen, RX_L2CAP_SIZE);
    if |all| >= len then Some(all[..len]) else None
  }

  /** The fragments that are read outside of: a connection response of 4 to 11 bytes while a channel is
      open or opening, one that completes an ATT message shorter than its opcode needs, and a slave's LL
      control packet shorter than its opcode needs. */
  predicate Overread(s: Link, f: Frag) {
    || ShortResponse(s, f)
    || (CompletedAtt(s, f).Some? && ShortAtt(CompletedAtt(s, f).value))
    || (f.llid == LLID_CONTROL && s.role.Slave? && ShortControl(f.payload))
  }

  /** No received fragment overruns a buffer, and these are exactly the ones that are read outside of. */
  lemma FragKeepsValid(s: Link, f: Frag)
    requires Valid(s)
    ensures Valid(ReceiveFrag(s, f))
    ensures ReceiveFrag(s, f).halted <==> s.halted || Overread(s, f)
  {
    hide Valid, Dispatch, AppendAtt, Word, CompletedBy, ShortAtt;
    assert Valid(s.(halted := s.role.Slave? && ShortControl(f.payload))) by { HaltKeepsValid(s, s.role.Slave? && ShortControl(f.payload)); }
    AppendKeepsValid(s, f.payload);
    if |f.payload| >= 4 {
      var cid := Word(f.payload, 2);
      var t := s.(rx := Rx([], Word(f.payload, 0), cid));
      RestartKeepsValid(s, t.rx);
      DispatchKeepsValid(t, cid, f.payload[4..]);
    }
  }

  lemma RestartKeepsValid(s: Link, rx: Rx)
    requires Valid(s) && rx.partial == []
    ensures Valid(s.(rx := rx))
  {}

  lemma HaltKeepsValid(s: Link, halted: bool)
    requires Valid(s)
    ensures Valid(s.(halted := halted))
  {}

  /** Cutting to the buffer first makes no difference to a complete message. */
  lemma AppendKeepsValid(s: Link, body: seq<u8>)
    requires Valid(s)
    ensures var m := CompletedBy(s.rx.partial, body, s.rx.msgLen);
            && Valid(AppendAtt(s, body))
            && (AppendAtt(s, body).halted <==> s.halted || (m.Some? && ShortAtt(m.value)))
  {
    hide ShortAtt;
    var room, len := RX_L2CAP_SIZE - |s.rx.partial|, Min(s.rx.msgLen, RX_L2CAP_SIZE);
    var p, all := s.rx.partial + body[..Min(|body|, room)], s.rx.partial + body;
    if |all| >= len {
      assert p[..len] == all[..len];
    }
  }

  lemma DispatchKeepsValid(t: Link, cid: u16, body: seq<u8>)
    requires Valid(t)
    ensures var u := Dispatch(t, cid, body, Idle).0;
            && Valid(u)
            && (u.halted <==> t.halted
                              || (cid == L2CAP_SIGNALING_CID && 4 <= |body| < 12
                                  && body[0] == LE_CREDIT_BASED_CONNECTION_RSP && t.coc.Some?)
                              || (cid == L2CAP_ATT_CID
                                  && var m := CompletedBy(t.rx.partial, body, t.rx.msgLen); m.Some? && ShortAtt(m.value)))
  {
    hide HandleSignaling, RxCocSdu, AppendAtt, Valid, CompletedBy, ShortAtt;
    SignalingKeepsValid(t, body);
    SduKeepsValid(t, body);
    AppendKeepsValid(t, body);
    assert Valid(t.(log := t.log + [SmpPdu(body)])) by { LogKeepsValid(t, SmpPdu(body)); }
  }

  lemma LogKeepsValid(s: Link, u: Upcall)
    requires Valid(s)
    ensures Valid(s.(log := s.log + [u]))
  {}

  lemma SignalingKeepsValid(s: Link, body: seq<u8>)
    requires Valid(s)
    ensures var u := HandleSignaling(s, body);
            && Valid(u)
            && (u.halted <==> s.halted || (4 <= |body| < 12 && body[0] == LE_CREDIT_BASED_CONNECTION_RSP && s.coc.Some?))
  {
    hide Word, ConnRspMsg;
  }

  lemma SduKeepsValid(s: Link, body: seq<u8>)
    requires Valid(s)
    ensures var u := RxCocSdu(s, body, Idle).0; Valid(u) && u.halted == s.halted
  {
    hide Word, CreditMsg;
  }

  /** The same for every byte string taken as a link layer packet. */
  lemma ReceiveKeepsValid(s: Link, packet: seq<u8>)
    requires Valid(s)
    ensures Valid(Receive(s, packet))
    ensures Receive(s, packet).halted <==>
            s.halted || (Decode(packet).Ok? && Overread(s, Frag(Decode(packet).value.llid, Decode(packet).value.payload)))
  {
    hide Valid, ReceiveFrag, Overread, Decode;
    match Decode(packet)
    case Err(_) =>
    case Ok(p) => FragKeepsValid(s, Frag(p.llid, p.payload));
  }
}
