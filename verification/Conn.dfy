/** The data path of `Conn` (src/hw/conn.rs) with its fixed buffers. Every method is proved to take the
    corresponding step of `Link`; the layers above are represented by the log of what they are handed. */
module Conn {
  import opened Wrappers
  import opened Octets
  import opened DataPdu
  import opened L = Link

  class Conn {
    const role: Role
    var txAtt: array<u8>
    var txAttLen: nat
    var txFragOffset: nat
    var txPending: bool
    var txCid: u16
    var txPduMax: nat
    var txBuf: array<u8>
    var rxL2cap: array<u8>
    var rxL2capLen: nat
    var rxL2capMsgLen: nat
    var rxL2capCid: u16
    var coc: Option<Coc>
    var rxData: array<u8>
    var rxDataLen: nat
    var sn: bool
    var nesn: bool
    var log: seq<Upcall>

    ghost predicate Valid()
      reads this
    {
      && txAtt.Length == TX_ATT_SIZE && txBuf.Length == TX_BUF_SIZE
      && rxL2cap.Length == RX_L2CAP_SIZE && rxData.Length == RX_DATA_SIZE
      && txAtt != txBuf && txAtt != rxL2cap && txAtt != rxData
      && txBuf != rxL2cap && txBuf != rxData && rxL2cap != rxData
      && txAttLen <= TX_ATT_SIZE && (!txPending ==> txFragOffset == 0)
      && rxL2capLen <= RX_L2CAP_SIZE && rxDataLen <= RX_DATA_SIZE
      && (coc.Some? ==> |coc.value.rxSdu| <= RX_SDU_SIZE)
    }

    ghost function TxState(): Tx
      reads this, txAtt
      requires Valid()
    {
      Tx(txAtt[..txAttLen], txFragOffset, txPending, txCid)
    }

    /** The connection as a value. */
    ghost function State(): (s: Link)
      reads this, txAtt, rxL2cap, rxData
      requires Valid()
    {
      Link(role, TxState(), Rx(rxL2cap[..rxL2capLen], rxL2capMsgLen, rxL2capCid), coc, rxData[..rxDataLen], log, false)
    }

    constructor (role: Role)
      ensures Valid() && State() == Link(role, Tx([], 0, false, L2CAP_ATT_CID), Rx([], 0, L2CAP_ATT_CID), None, [], [], false)
      ensures txPduMax == 27
      ensures fresh(txAtt) && fresh(txBuf) && fresh(rxL2cap) && fresh(rxData)
    {
      this.role := role;
      txAtt := new u8[TX_ATT_SIZE](_ => 0);
      txBuf := new u8[TX_BUF_SIZE](_ => 0);
      rxL2cap := new u8[RX_L2CAP_SIZE](_ => 0);
      rxData := new u8[RX_DATA_SIZE](_ => 0);
      txAttLen, txFragOffset, txPending, txCid, txPduMax := 0, 0, false, L2CAP_ATT_CID, 27;
      rxL2capLen, rxL2capMsgLen, rxL2capCid := 0, 0, L2CAP_ATT_CID;
      coc, rxDataLen, sn, nesn, log := None, 0, false, false, [];
    }

    /** Builds the next fragment in `txBuf`. The offset must lie in the message, from which the source
        subtracts it, and the payload must fit the buffer, which the source indexes. */
    method TxFragment() returns (n: nat)
      requires Valid() && txPending && txFragOffset <= txAttLen
      requires |NextFrag(TxState(), txPduMax).payload| <= 62
      modifies this`txFragOffset, this`txPending, txBuf
      ensures Valid() && n <= txBuf.Length
      ensures txBuf[..n] == PacketOf(old(NextFrag(TxState(), txPduMax)), nesn, sn)
      ensures State() == old(State()).(tx := AfterFrag(old(TxState()), txPduMax))
    {
      hide ToLe16, PacketOf, NextFrag, AfterFrag, Chunk;
      var attLen := txAttLen;
      var remaining := attLen - txFragOffset;
      var first := txFragOffset == 0;
      var avail := if first then (if txPduMax >= 4 then txPduMax - 4 else 0) else txPduMax;
      var chunk := Min(remaining, avail);
      var complete := first && chunk == attLen;
      var llid := if complete then LLID_DATA_COMPLETE
                  else if first then LLID_DATA_START
                  else LLID_DATA_CONTINUATION_OR_COMPLETE;
      var payloadLen := if first then 4 + chunk else chunk;
      var body := Body(chunk);
      FragStep(TxState(), txPduMax);
      WriteFrag(llid, payloadLen, first, attLen, body);
      n := 2 + payloadLen;
      Advance(chunk);
    }

    /** The next bytes of the message. */
    method Body(chunk: nat) returns (body: seq<u8>)
      requires Valid() && txFragOffset + chunk <= txAttLen
      ensures body == TxState().msg[txFragOffset..txFragOffset + chunk]
    {
      body := txAtt[txFragOffset..txFragOffset + chunk];
      ghost var all := txAtt[..];
      assert body == all[txFragOffset..txFragOffset + chunk];
      assert txAtt[..txAttLen] == all[..txAttLen];
      PrefixSlice(all, txAttLen, txFragOffset, txFragOffset + chunk);
    }

    /** Moves the fragmenter behind the bytes sent. */
    method Advance(chunk: nat)
      requires Valid() && txPending && txFragOffset <= txAttLen && chunk == Chunk(TxState(), txPduMax)
      modifies this`txFragOffset, this`txPending
      ensures Valid() && State() == old(State()).(tx := AfterFrag(old(TxState()), txPduMax))
    {
      txFragOffset := txFragOffset + chunk;
      if txFragOffset >= txAttLen {
        txPending := false;
        txFragOffset := 0;
      }
    }

    /** The writes of `tx_fragment` into `txBuf`. */
    method WriteFrag(llid: nat, payloadLen: nat, first: bool, attLen: u16, body: seq<u8>)
      requires txBuf.Length == TX_BUF_SIZE && payloadLen <= TX_BUF_SIZE - 2
      requires payloadLen == if first then 4 + |body| else |body|
      modifies txBuf
      ensures txBuf[..2 + payloadLen] ==
              PacketOf(Frag(llid, if first then ToLe16(attLen) + ToLe16(txCid) + body else body), nesn, sn)
    {
      hide Header, ToLe16;
      var header := [Header(llid, !nesn, sn, false), payloadLen];
      CopyFromSlice(txBuf, 0, header);
      if first {
        CopyFromSlice(txBuf, 2, ToLe16(attLen));
        CopyFromSlice(txBuf, 4, ToLe16(txCid));
        CopyFromSlice(txBuf, 6, body);
        assert txBuf[..2 + payloadLen] == header + (ToLe16(attLen) + ToLe16(txCid) + body);
      } else {
        CopyFromSlice(txBuf, 2, body);
        assert txBuf[..2 + payloadLen] == header + body;
      }
    }

    /** The offset of a message that is being sent stays. */
    method QueueAtt(att: seq<u8>)
      requires Valid()
      modifies this`txAttLen, this`txPending, txAtt
      ensures Valid() && State() == L.QueueAtt(old(State()), att)
    {
      var len := Min(|att|, txAtt.Length);
      CopyFromSlice(txAtt, 0, att[..len]);
      txAttLen := len;
      txPending := true;
      assert txAtt[..txAttLen] == att[..len];
    }

    method QueueSignaling(msg: seq<u8>)
      requires Valid()
      modifies this`txAttLen, this`txCid, this`txFragOffset, this`txPending, txAtt
      ensures Valid() && State() == L.QueueSignaling(old(State()), msg)
    {
      var n := Min(|msg|, txAtt.Length - 4);
      CopyFromSlice(txAtt, 0, msg[..n]);
      txAttLen := n;
      txCid := L2CAP_SIGNALING_CID;
      txFragOffset := 0;
      txPending := true;
      assert txAtt[..txAttLen] == msg[..n];
    }

    /** A signalling message; a connection response shorter than twelve bytes is read out of bounds. */
    method HandleLeSignaling(body: seq<u8>)
      requires Valid() && !HandleSignaling(State(), body).halted
      modifies this`coc, this`txAttLen, this`txCid, this`txFragOffset, this`txPending, txAtt
      ensures Valid() && State() == HandleSignaling(old(State()), body)
    {
      if |body| < 4 {
        return;
      }
      var code := body[0];
      if code == LE_CREDIT_BASED_CONNECTION_REQ {
        if |body| < 12 {
          return;
        }
        var c := NewCoc(Word(body, 2));
        c := c.(peerCid := Word(body, 4));
        c := c.(mtu := Min(Word(body, 6), COC_MTU));
        c := c.(mps := Min(Word(body, 8), COC_MPS));
        c := c.(credits := Word(body, 10));
        coc := Some(c);
        QueueSignaling(ConnRspMsg(Word(body, 4)));
      } else if code == LE_CREDIT_BASED_CONNECTION_RSP {
        if coc.Some? {
          if Word(body, 10) == 0 {
            var c := coc.value;
            c := c.(peerCid := Word(body, 2));
            c := c.(mtu := Min(c.mtu, Word(body, 4)));
            c := c.(mps := Min(c.mps, Word(body, 6)));
            c := c.(peerCredits := Word(body, 8));
            coc := Some(c);
          } else {
            coc := None;
          }
        }
      } else if code == LE_FLOW_CONTROL_CREDIT {
        if coc.Some? && |body| >= 6 {
          var cid, c := Word(body, 2), coc.value;
          if cid == c.localCid || cid == c.peerCid {
            coc := Some(c.(credits := Min(c.credits + Word(body, 4), U16_MAX)));
          }
        }
      } else if code == LE_CREDIT_BASED_CONNECTION_END {
        if coc.Some? {
          var cid := Word(body, 2);
          if cid == coc.value.localCid || cid == coc.value.peerCid {
            coc := None;
          }
        }
      }
    }

    method L2capConnect(psm: u16)
      requires Valid()
      modifies this`coc, this`txAttLen, this`txCid, this`txFragOffset, this`txPending, txAtt
      ensures Valid() && State() == L.L2capConnect(old(State()), psm)
    {
      if coc.Some? {
        return;
      }
      coc := Some(NewCoc(psm));
      QueueSignaling(ConnReqMsg(psm));
    }

    method L2capSend(data: seq<u8>) returns (r: Result<()>)
      requires Valid()
      modifies this`coc, this`txAttLen, this`txCid, this`txFragOffset, this`txPending, txAtt
      ensures Valid() && (State(), r) == L.L2capSend(old(State()), data)
    {
      hide ToLe16, SduMsg;
      if coc.None? {
        return Err(NotRunning);
      }
      var c := coc.value;
      if |data| > c.mtu || |data| + 2 > txAtt.Length {
        return Err(InvalidLength);
      }
      if c.credits == 0 {
        return Err(NotRunning);
      }
      coc := Some(c.(credits := c.credits - 1));
      var total := |data| + 2;
      WriteSdu(data);
      txAttLen := total;
      txCid := c.localCid;
      txFragOffset := 0;
      txPending := true;
      return Ok(());
    }

    /** The writes of `l2cap_send` into `txAtt`. */
    method WriteSdu(data: seq<u8>)
      requires |data| + 2 <= txAtt.Length < 0x1_0000
      modifies txAtt
      ensures txAtt[..|data| + 2] == SduMsg(data)
    {
      hide ToLe16;
      CopyFromSlice(txAtt, 0, ToLe16(|data|));
      CopyFromSlice(txAtt, 2, data);
    }

    method RxCocSdu(body: seq<u8>, ev: ConnEvent) returns (result: ConnEvent)
      requires Valid()
      modifies this`coc, this`txAttLen, this`txCid, this`txFragOffset, this`txPending, this`rxDataLen, this`log, txAtt, rxData
      ensures Valid() && (State(), result) == L.RxCocSdu(old(State()), body, ev)
    {
      hide Word, CreditMsg, L.QueueSignaling, Gather;
      result := ev;
      if coc.None? {
        return;
      }
      var c := coc.value;
      var gathered := CollectFrame(c, body);
      if gathered.None? {
        return;
      }
      var (sdu, total) := gathered.value;
      if |sdu| < total {
        coc := Some(c.(rxSdu := sdu, rxSduTotal := total));
        return;
      }
      coc := Some(c.(rxSdu := [], rxSduTotal := 0));
      QueueSignaling(CreditMsg(c.peerCid));
      DeliverSdu(sdu[..total]);
      result := Data;
      assert sdu[..total][..Min(total, RX_DATA_SIZE)] == sdu[..Min(total, RX_DATA_SIZE)];
    }

    /** The SDU with one more frame and its announced length, or nothing for a first frame without one. */
    method CollectFrame(c: Coc, body: seq<u8>) returns (r: Option<(seq<u8>, nat)>)
      requires |c.rxSdu| <= RX_SDU_SIZE
      ensures r == Gather(c, body) && (r.Some? ==> |r.value.0| <= RX_SDU_SIZE)
    {
      hide Word;
      if |c.rxSdu| == 0 {
        if |body| < 2 {
          return None;
        }
        var n := Min(|body| - 2, RX_SDU_SIZE);
        return Some((body[2..2 + n], Word(body, 0)));
      }
      var n := Min(|body|, RX_SDU_SIZE - |c.rxSdu|);
      return Some((c.rxSdu + body[..n], c.rxSduTotal));
    }

    /** Stores a complete SDU for the application. */
    method DeliverSdu(sdu: seq<u8>)
      requires Valid()
      modifies this`rxDataLen, this`log, rxData
      ensures Valid()
      ensures var data := sdu[..Min(|sdu|, RX_DATA_SIZE)];
              State() == old(State()).(rxData := data, log := old(log) + [Sdu(data)])
    {
      var n := Min(|sdu|, rxData.Length);
      CopyFromSlice(rxData, 0, sdu[..n]);
      rxDataLen := n;
      assert rxData[..rxDataLen] == sdu[..n];
      log := log + [Sdu(rxData[..rxDataLen])];
    }

    /** The tail of `handle_l2cap`: collects an ATT fragment and delivers a complete message, which must not
        be shorter than its handler reads. */
    method AppendAtt(body: seq<u8>)
      requires Valid() && !L.AppendAtt(State(), body).halted
      modifies this`rxL2capLen, this`log, rxL2cap
      ensures Valid() && State() == L.AppendAtt(old(State()), body)
    {
      var cap := rxL2cap.Length;
      var n := Min(|body|, cap - rxL2capLen);
      ghost var had := rxL2cap[..rxL2capLen];
      CopyFromSlice(rxL2cap, rxL2capLen, body[..n]);
      rxL2capLen := rxL2capLen + n;
      assert rxL2cap[..rxL2capLen] == had + body[..n];
      var msgLen := Min(rxL2capMsgLen, cap);
      if rxL2capLen >= msgLen {
        assert rxL2cap[..msgLen] == (had + body[..n])[..msgLen];
        log := log + [AttPdu(rxL2cap[..msgLen])];
        rxL2capLen := 0;
      }
    }

    /** Hands the body of a first fragment to its channel. */
    method Dispatch(cid: u16, body: seq<u8>, ev: ConnEvent) returns (result: ConnEvent)
      requires Valid() && !L.Dispatch(State(), cid, body, ev).0.halted
      modifies this`coc, this`txAttLen, this`txCid, this`txFragOffset, this`txPending, this`rxDataLen, this`log
      modifies this`rxL2capLen, txAtt, rxL2cap, rxData
      ensures Valid() && (State(), result) == L.Dispatch(old(State()), cid, body, ev)
    {
      hide HandleSignaling, L.RxCocSdu, L.AppendAtt;
      result := ev;
      if cid == L2CAP_SMP_CID {
        log := log + [SmpPdu(body)];
      } else if cid == L2CAP_SIGNALING_CID {
        HandleLeSignaling(body);
      } else if cid == L2CAP_ATT_CID {
        AppendAtt(body);
      } else if coc.Some? && (coc.value.peerCid == cid || coc.value.localCid == cid) {
        result := RxCocSdu(body, ev);
      } else {
        result := L2cap(cid);
      }
    }

    method HandleL2cap(payload: seq<u8>, llid: nat, ev: ConnEvent) returns (result: ConnEvent)
      requires Valid() && !L.HandleL2cap(State(), payload, llid, ev).0.halted
      modifies this`coc, this`txAttLen, this`txCid, this`txFragOffset, this`txPending, this`rxDataLen, this`log
      modifies this`rxL2capLen, this`rxL2capMsgLen, this`rxL2capCid, txAtt, rxL2cap, rxData
      ensures Valid() && (State(), result) == L.HandleL2cap(old(State()), payload, llid, ev)
    {
      hide Word, L.Dispatch, L.AppendAtt;
      result := ev;
      var isFirst := llid != LLID_DATA_CONTINUATION_OR_COMPLETE || rxL2capLen == 0;
      if isFirst {
        if |payload| < 4 {
          return;
        }
        rxL2capLen := 0;
        rxL2capMsgLen := Word(payload, 0);
        rxL2capCid := Word(payload, 2);
        assert State() == old(State()).(rx := Rx([], Word(payload, 0), Word(payload, 2)));
        result := Dispatch(rxL2capCid, payload[4..], ev);
      } else {
        AppendAtt(payload);
      }
    }
  }
}
