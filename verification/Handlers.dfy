/** What the receive path hands to the layers above: which indices their handlers read, which event a
    fragment raises, and what each kind of message leaves alone. */
module Handlers {
  import opened Octets
  import opened DataPdu
  import opened Link

  // ---------- The reads of the handlers ----------

  /** The message bytes that the ATT handler indexes, by opcode; it slices the value from byte 3 on. */
  function AttReads(op: u8): set<nat> {
    if op == 0x1B || op == 0x0A || op == 0x12 || op == 0x52 then {1, 2}
    else if op == 0x04 || op == 0x0C then {1, 2, 3, 4}
    else if op == 0x08 || op == 0x10 then {1, 2, 3, 4, 5, 6}
    else {}
  }

  predicate AttSlices(op: u8) { op == 0x1B || op == 0x12 || op == 0x52 }

  /** The bytes that the LL control handler of a slave indexes. */
  function ControlReads(p: seq<u8>): set<nat>
    requires p != []
  {
    if p[0] == 0x14 || p[0] == 0x15 then {1, 2, 5, 6}
    else if p[0] == 0x00 && |p| >= 10 then {3, 4, 7, 8, 9, 10}
    else {}
  }

  predicate Inside(indices: set<nat>, n: nat) { forall i :: i in indices ==> i < n }

  lemma InsideIff(indices: set<nat>, n: nat, top: nat)
    requires top in indices && forall i :: i in indices ==> i <= top
    ensures Inside(indices, n) <==> top < n
  {}

  /** Every read of an ATT message lies inside it exactly when it is not short. */
  lemma AttReadsInside(m: seq<u8>)
    requires m != []
    ensures Inside(AttReads(m[0]), |m|) && (AttSlices(m[0]) ==> |m| >= 3) <==> !ShortAtt(m)
  {
    var op, r := m[0], AttReads(m[0]);
    if op == 0x1B || op == 0x0A || op == 0x12 || op == 0x52 {
      InsideIff(r, |m|, 2);
    } else if op == 0x04 || op == 0x0C {
      InsideIff(r, |m|, 4);
    } else if op == 0x08 || op == 0x10 {
      InsideIff(r, |m|, 6);
    }
  }

  /** Every read of an LL control packet lies inside it exactly when it is not short. */
  lemma ControlReadsInside(p: seq<u8>)
    requires p != []
    ensures Inside(ControlReads(p), |p|) <==> !ShortControl(p)
  {
    if p[0] == 0x14 || p[0] == 0x15 {
      InsideIff(ControlReads(p), |p|, 6);
    } else if p[0] == 0x00 && |p| >= 10 {
      InsideIff(ControlReads(p), |p|, 10);
    }
  }

  // ---------- Events ----------

  /** A first fragment on a channel that nothing handles. */
  predicate Unhandled(s: Link, payload: seq<u8>, llid: nat) {
    && IsFirst(s, llid) && |payload| >= 4
    && var cid := payload[2] as nat + 256 * payload[3] as nat;
       cid != 4 && cid != 5 && cid != 6 && !(s.coc.Some? && (s.coc.value.peerCid == cid || s.coc.value.localCid == cid))
  }

  /** A frame reports `Data` exactly when it completes an SDU; the SDU is logged and stored. */
  lemma SduEvent(s: Link, body: seq<u8>, ev: ConnEvent)
    ensures var (t, r) := RxCocSdu(s, body, ev);
            if t.log == s.log then r == ev && t.rxData == s.rxData
            else r == Data && t.log == s.log + [Sdu(t.rxData)]
  {
    hide Word, CreditMsg;
  }

  /** A fragment raises `Data` exactly when it adds an SDU to what the application is handed, `L2cap` exactly
      when it starts a message on a channel that nothing handles, and otherwise no event. */
  lemma FragEvent(s: Link, payload: seq<u8>, llid: nat, ev: ConnEvent)
    ensures var (t, r) := HandleL2cap(s, payload, llid, ev);
            && s.log <= t.log && |t.log| <= |s.log| + 1
            && r == if t.log != s.log && t.log[|s.log|].Sdu? then Data
                    else if Unhandled(s, payload, llid) then L2cap(payload[2] as nat + 256 * payload[3] as nat)
                    else ev
  {
    hide AppendAtt, RxCocSdu, HandleSignaling;
    AppendLog(s, payload);
    if IsFirst(s, llid) && |payload| >= 4 {
      var t, body := s.(rx := Rx([], Word(payload, 0), Word(payload, 2))), payload[4..];
      AppendLog(t, body);
      SduEvent(t, body, ev);
      SignalLog(t, body);
    }
  }

  lemma AppendLog(s: Link, body: seq<u8>)
    ensures var t := AppendAtt(s, body); s.log <= t.log && |t.log| <= |s.log| + 1 && (t.log != s.log ==> t.log[|s.log|].AttPdu?)
  {}

  lemma SignalLog(s: Link, body: seq<u8>)
    ensures HandleSignaling(s, body).log == s.log
  {
    hide Word, ConnRspMsg;
  }

  /** A fragment completes the ATT message exactly when as many bytes as announced have arrived, or 256, and
      what is handed on is cut to the smaller of the two. */
  lemma AttComplete(s: Link, body: seq<u8>)
    requires |s.rx.partial| <= 256
    ensures var t, all := AppendAtt(s, body), s.rx.partial + body;
            if |all| >= Min(s.rx.msgLen, 256) then
              t.log == s.log + [AttPdu(all[..Min(s.rx.msgLen, 256)])] && t.rx.partial == []
            else t.log == s.log && t.rx.partial == all
  {
    var room, len := 256 - |s.rx.partial|, Min(s.rx.msgLen, 256);
    var p, all := s.rx.partial + body[..Min(|body|, room)], s.rx.partial + body;
    if |all| >= len {
      assert p[..len] == all[..len];
    } else {
      assert p == all;
    }
  }

  // ---------- What is left alone ----------

  /** A first fragment too short for a header, a packet that does not decode and an empty one change nothing;
      one on a channel that nothing handles only ends the message before it. */
  lemma IgnoredPackets(s: Link, packet: seq<u8>)
    ensures (|packet| <= 2 || |packet| - 2 != packet[1] % 64) ==> Receive(s, packet) == s
    ensures (!s.halted && 2 < |packet| < 6 && |packet| - 2 == packet[1] % 64
             && packet[0] % 4 != 2 && IsFirst(s, packet[0] % 4)) ==> Receive(s, packet) == s
    ensures (!s.halted && |packet| >= 6 && |packet| - 2 == packet[1] % 64
             && packet[0] % 4 != 2 && Unhandled(s, packet[2..], packet[0] % 4)) ==>
              Receive(s, packet) == s.(rx := Rx([], packet[2] as nat + 256 * packet[3] as nat, packet[4] as nat + 256 * packet[5] as nat))
  {
    hide AppendAtt, RxCocSdu, HandleSignaling;
    if |packet| >= 2 {
      var p := packet[2..];
      assert |packet| >= 6 ==> p[0] == packet[2] && p[1] == packet[3] && p[2] == packet[4] && p[3] == packet[5];
    }
  }

  /** An SMP message is handed on whole from its first fragment, and nothing else happens. */
  lemma SmpHandedOn(s: Link, llid: nat, msgLen: u16, body: seq<u8>, ev: ConnEvent)
    requires IsFirst(s, llid)
    ensures HandleL2cap(s, ToLe16(msgLen) + ToLe16(0x0006) + body, llid, ev)
            == (s.(rx := Rx([], msgLen, 0x0006), log := s.log + [SmpPdu(body)]), ev)
  {
    hide ToLe16, FromLe16;
    var p := ToLe16(msgLen) + ToLe16(0x0006) + body;
    Le16RoundTrip(msgLen);
    Le16RoundTrip(0x0006);
    assert p[4..] == body;
  }
}
