/** HCI packets and the H4 byte-stream framer (src/hci.rs). */
module Hci {
  import opened Wrappers
  import opened Octets

  const HCI_COMMAND: u8 := 0x01
  const HCI_ACL_DATA: u8 := 0x02
  const HCI_EVENT: u8 := 0x04

  const PAYLOAD_SIZE: nat := 260

  datatype HciPacket = HciPacket(packetType: u8, payload: seq<u8>, len: nat) {
    predicate Carries(packetType: u8, bytes: seq<u8>) {
      && this.packetType == packetType && len == |bytes|
      && |payload| == PAYLOAD_SIZE && bytes <= payload
    }
  }

  // ---------- Packet layouts ----------

  function CommandBytes(ogf: u8, ocf: u16, params: seq<u8>): seq<u8> {
    [ocf % 256, (ocf / 256) % 4 + 4 * (ogf % 64), AsU8(|params|)] + params
  }

  function EventBytes(code: u8, params: seq<u8>): seq<u8> {
    [code, AsU8(|params|)] + params
  }

  function AclBytes(handle: u16, data: seq<u8>): seq<u8> {
    [handle % 256, handle / 256, AsU8(|data|), AsU8(|data| / 256)] + data
  }

  // ---------- How a packet is read ----------

  /** What the three kinds of packet say. */
  datatype Message =
    | CommandMsg(ogf: nat, ocf: nat, params: seq<u8>)
    | EventMsg(code: u8, params: seq<u8>)
    | AclMsg(handle: nat, data: seq<u8>)
  {
    /** Every field fits its place in the packet. */
    predicate Fits() {
      match this
      case CommandMsg(ogf, ocf, params) => ogf < 64 && ocf < 1024 && |params| < 256
      case EventMsg(_, params) => |params| < 256
      case AclMsg(handle, data) => handle < 0x1_0000 && |data| < 0x1_0000
    }
  }

  /** Reads a packet by the layout of the interface: the opcode of a command has the OGF in its upper six
      bits, and each length field counts the rest of the packet. */
  function Parse(packetType: u8, payload: seq<u8>, len: nat): Option<Message>
    requires len <= |payload|
  {
    if packetType == 0x01 && len >= 3 && len == 3 + payload[2] as nat then
      Some(CommandMsg(Ogf(payload[0], payload[1]), Ocf(payload[0], payload[1]), payload[3..len]))
    else if packetType == 0x04 && len >= 2 && len == 2 + payload[1] as nat then
      Some(EventMsg(payload[0], payload[2..len]))
    else if packetType == 0x02 && len >= 4 && len == 4 + FromLe16(payload[2], payload[3]) then
      Some(AclMsg(FromLe16(payload[0], payload[1]), payload[4..len]))
    else None
  }

  function Ogf(lo: u8, hi: u8): nat { FromLe16(lo, hi) / 1024 }

  function Ocf(lo: u8, hi: u8): nat { FromLe16(lo, hi) % 1024 }

  lemma ShortLength(n: nat)
    ensures AsU8(n) == n <==> n < 256
    ensures n < 0x1_0000 ==> n / 256 < 256
    ensures FromLe16(AsU8(n), AsU8(n / 256)) == n <==> n < 0x1_0000
  {
    if n < 0x1_0000 {
      assert n / 256 < 256;
    }
  }

  lemma CommandParses(ogf: u8, ocf: u16, params: seq<u8>, payload: seq<u8>)
    requires CommandBytes(ogf, ocf, params) <= payload
    ensures var m := CommandMsg(ogf, ocf, params);
            Parse(0x01, payload, 3 + |params|) == Some(m) <==> m.Fits()
  {
    hide Ogf, Ocf, FromLe16, AsU8;
    var b := CommandBytes(ogf, ocf, params);
    OpcodeRead(ogf, ocf, params);
    ShortLength(|params|);
    assert payload[0] == b[0] && payload[1] == b[1] && payload[2] == AsU8(|params|);
    assert payload[3..3 + |params|] == b[3..] == params;
  }

  lemma OpcodeRead(ogf: u8, ocf: u16, params: seq<u8>)
    ensures var b := CommandBytes(ogf, ocf, params);
            (Ocf(b[0], b[1]) == ocf <==> ocf < 1024) && (Ogf(b[0], b[1]) == ogf <==> ogf < 64)
  {
    OpcodeRoundTrip(ogf, ocf, params);
    var b := CommandBytes(ogf, ocf, params);
    OpcodeBound(b[0], b[1]);
  }

  lemma OpcodeBound(lo: u8, hi: u8)
    ensures Ogf(lo, hi) < 64 && Ogf(lo, hi) == (FromLe16(lo, hi) / 1024) % 64 && Ocf(lo, hi) == FromLe16(lo, hi) % 1024
  {}

  lemma EventParses(code: u8, params: seq<u8>, payload: seq<u8>)
    requires EventBytes(code, params) <= payload
    ensures Parse(0x04, payload, 2 + |params|) == Some(EventMsg(code, params)) <==> |params| < 256
  {
    hide AsU8;
    var b := EventBytes(code, params);
    ShortLength(|params|);
    assert payload[0] == b[0] && payload[1] == b[1];
    assert payload[2..2 + |params|] == b[2..] == params;
  }

  lemma AclParses(handle: u16, data: seq<u8>, payload: seq<u8>)
    requires AclBytes(handle, data) <= payload
    ensures Parse(0x02, payload, 4 + |data|) == Some(AclMsg(handle, data)) <==> |data| < 0x1_0000
  {
    hide FromLe16, AsU8;
    var b := AclBytes(handle, data);
    Le16RoundTrip(handle);
    ShortLength(|data|);
    assert payload[0] == b[0] && payload[1] == b[1] && payload[2] == b[2] && payload[3] == b[3];
    assert payload[4..4 + |data|] == b[4..] == data;
  }

  // ---------- Constructors ----------

  method Build(packetType: u8, header: seq<u8>, body: seq<u8>) returns (p: HciPacket)
    requires |header| + |body| <= PAYLOAD_SIZE
    ensures p.Carries(packetType, header + body)
    ensures p.payload[p.len..] == seq(PAYLOAD_SIZE - p.len, _ => 0)
  {
    var payload := new u8[PAYLOAD_SIZE](_ => 0);
    CopyFromSlice(payload, 0, header);
    CopyFromSlice(payload, |header|, body);
    return HciPacket(packetType, payload[..], |header| + |body|);
  }

  method Command(ogf: u8, ocf: u16, params: seq<u8>) returns (p: HciPacket)
    requires 3 + |params| <= PAYLOAD_SIZE
    ensures p.Carries(HCI_COMMAND, CommandBytes(ogf, ocf, params))
    ensures var m := CommandMsg(ogf, ocf, params);
            p.len <= |p.payload| && (Parse(p.packetType, p.payload, p.len) == Some(m) <==> m.Fits())
  {
    hide Parse;
    p := Build(HCI_COMMAND, [ocf % 256, (ocf / 256) % 4 + 4 * (ogf % 64), AsU8(|params|)], params);
    CommandParses(ogf, ocf, params, p.payload);
  }

  method Event(code: u8, params: seq<u8>) returns (p: HciPacket)
    requires 2 + |params| <= PAYLOAD_SIZE
    ensures p.Carries(HCI_EVENT, EventBytes(code, params))
    ensures p.len <= |p.payload| && (Parse(p.packetType, p.payload, p.len) == Some(EventMsg(code, params)) <==> |params| < 256)
  {
    hide Parse;
    p := Build(HCI_EVENT, [code, AsU8(|params|)], params);
    EventParses(code, params, p.payload);
  }

  method Acl(handle: u16, data: seq<u8>) returns (p: HciPacket)
    requires 4 + |data| <= PAYLOAD_SIZE
    ensures p.Carries(HCI_ACL_DATA, AclBytes(handle, data))
    ensures p.len <= |p.payload| && Parse(p.packetType, p.payload, p.len) == Some(AclMsg(handle, data))
  {
    hide Parse;
    p := Build(HCI_ACL_DATA, [handle % 256, handle / 256, AsU8(|data|), AsU8(|data| / 256)], data);
    AclParses(handle, data, p.payload);
  }

  /** The opcode split of `handle_command` recovers the OGF and OCF exactly when they have six and ten
      bits. */
  lemma OpcodeRoundTrip(ogf: u8, ocf: u16, params: seq<u8>)
    ensures var b := CommandBytes(ogf, ocf, params); var opcode := FromLe16(b[0], b[1]);
            && (opcode % 1024 == ocf <==> ocf < 1024)
            && ((opcode / 1024) % 64 == ogf <==> ogf < 64)
  {
    var low, top := ocf % 1024, ogf % 64;
    assert low == ocf % 256 + 256 * ((ocf / 256) % 4);
    assert FromLe16(ocf % 256, (ocf / 256) % 4 + 4 * top) == low + 1024 * top;
  }

  // ---------- The framer as a value ----------

  predicate IsType(b: u8) { b == HCI_COMMAND || b == HCI_ACL_DATA || b == HCI_EVENT }

  datatype Frame = Frame(packetType: u8, bytes: seq<u8>)

  datatype Framer = Waiting | InFrame(packetType: u8, got: seq<u8>)

  function HeaderLen(t: u8): nat { if t == HCI_COMMAND then 3 else if t == HCI_EVENT then 2 else 4 }

  /** The length of a frame, known once its header has arrived and zero before. */
  function Needed(t: u8, got: seq<u8>): nat {
    if |got| < HeaderLen(t) then 0
    else if t == HCI_COMMAND then 3 + got[2]
    else if t == HCI_EVENT then 2 + got[1]
    else 4 + FromLe16(got[2], got[3])
  }

  predicate Complete(f: Frame) { |f.bytes| >= HeaderLen(f.packetType) && |f.bytes| == Needed(f.packetType, f.bytes) }

  function FeedByte(s: Framer, b: u8): (Framer, Option<Frame>) {
    match s
    case Waiting => (if IsType(b) then InFrame(b, []) else Waiting, None)
    case InFrame(t, got) =>
      var f := Frame(t, got + [b]);
      if Complete(f) then (Waiting, Some(f)) else (InFrame(t, f.bytes), None)
  }

  class H4Framer {
    var packetType: Option<u8>
    var expected: nat
    var buf: array<u8>
    var bufLen: nat

    ghost predicate Valid()
      reads this, buf
    {
      && buf.Length == PAYLOAD_SIZE && bufLen <= PAYLOAD_SIZE
      && match packetType
         case None => expected == 0
         case Some(t) => IsType(t) && expected == Needed(t, buf[..bufLen]) && (|buf[..bufLen]| >= HeaderLen(t) ==> bufLen < expected)
    }

    ghost function State(): Framer
      reads this, buf
      requires Valid()
    {
      match packetType
      case None => Waiting
      case Some(t) => InFrame(t, buf[..bufLen])
    }

    constructor ()
      ensures Valid() && State() == Waiting && fresh(buf)
    {
      packetType, expected, bufLen := None, 0, 0;
      buf := new u8[PAYLOAD_SIZE](_ => 0);
    }

    /** Feeds one byte; inside a frame the buffer must have room for it. */
    method Feed(byte: u8) returns (r: Option<HciPacket>)
      requires Valid() && (packetType.Some? ==> bufLen < PAYLOAD_SIZE)
      modifies this`packetType, this`expected, this`bufLen, buf
      ensures Valid() && State() == FeedByte(old(State()), byte).0
      ensures var out := FeedByte(old(State()), byte).1;
              if out.None? then r.None? else r.Some? && r.value.Carries(out.value.packetType, out.value.bytes)
    {
      hide FromLe16;
      if packetType.None? {
        if byte == HCI_COMMAND || byte == HCI_ACL_DATA || byte == HCI_EVENT {
          packetType := Some(byte);
          bufLen := 0;
        }
        return None;
      }
      var t := packetType.value;
      ghost var had := buf[..bufLen];
      buf[bufLen] := byte;
      bufLen := bufLen + 1;
      ghost var got := buf[..bufLen];
      assert got == had + [byte];
      var header := HeaderLen(t);
      if bufLen == header {
        expected := if t == HCI_COMMAND then 3 + buf[2]
                    else if t == HCI_EVENT then 2 + buf[1]
                    else 4 + FromLe16(buf[2], buf[3]);
      }
      if |had| >= header {
        NeededStable(t, had, byte);
      }
      if bufLen == expected && expected >= header {
        Reset();
        return Some(HciPacket(t, buf[..], bufLen));
      }
      return None;
    }

    method Reset()
      modifies this`packetType, this`expected
      ensures packetType == None && expected == 0
    {
      packetType := None;
      expected := 0;
    }
  }

  lemma NeededStable(t: u8, got: seq<u8>, b: u8)
    requires |got| >= HeaderLen(t)
    ensures Needed(t, got + [b]) == Needed(t, got)
  {}

  // ---------- Streams ----------

  /** What a host may send: a byte that starts no frame, or a frame with its type byte. */
  datatype Item = Noise(b: u8) | Packet(frame: Frame)

  predicate WellFormed(item: Item) {
    match item
    case Noise(b) => !IsType(b)
    case Packet(f) => IsType(f.packetType) && Complete(f)
  }

  function Wire(item: Item): (r: seq<u8>)
    ensures r != []
  {
    match item
    case Noise(b) => [b]
    case Packet(f) => [f.packetType] + f.bytes
  }

  function WireAll(items: seq<Item>): seq<u8>
    decreases |items|
  {
    if items == [] then [] else Wire(items[0]) + WireAll(items[1..])
  }

  /** What each byte of a stream makes the framer return. */
  function Outputs(s: Framer, bytes: seq<u8>): (r: seq<Option<Frame>>)
    ensures |r| == |bytes|
    decreases |bytes|
  {
    if bytes == [] then [] else [FeedByte(s, bytes[0]).1] + Outputs(FeedByte(s, bytes[0]).0, bytes[1..])
  }

  function After(s: Framer, bytes: seq<u8>): Framer
    decreases |bytes|
  {
    if bytes == [] then s else After(FeedByte(s, bytes[0]).0, bytes[1..])
  }

  function Silence(n: nat): seq<Option<Frame>> { seq(n, _ => None) }

  /** Nothing until the last byte of an item, and then its frame. */
  function Expected(item: Item): (r: seq<Option<Frame>>)
    ensures |r| == |Wire(item)|
  {
    match item
    case Noise(_) => [None]
    case Packet(f) => Silence(|f.bytes|) + [Some(f)]
  }

  function ExpectedAll(items: seq<Item>): seq<Option<Frame>>
    decreases |items|
  {
    if items == [] then [] else Expected(items[0]) + ExpectedAll(items[1..])
  }

  /** Feeding the framer never finds its buffer full. */
  predicate NeverFull(s: Framer, bytes: seq<u8>)
    decreases |bytes|
  {
    bytes == [] || ((s.InFrame? ==> |s.got| < PAYLOAD_SIZE) && NeverFull(FeedByte(s, bytes[0]).0, bytes[1..]))
  }

  lemma {:induction false} StreamConcat(s: Framer, a: seq<u8>, b: seq<u8>)
    ensures Outputs(s, a + b) == Outputs(s, a) + Outputs(After(s, a), b)
    ensures After(s, a + b) == After(After(s, a), b)
    ensures NeverFull(s, a + b) <==> NeverFull(s, a) && NeverFull(After(s, a), b)
    decreases |a|
  {
    hide FeedByte;
    if a == [] {
      assert a + b == b;
    } else {
      assert (a + b)[0] == a[0] && (a + b)[1..] == a[1..] + b;
      StreamConcat(FeedByte(s, a[0]).0, a[1..], b);
    }
  }

  /** A prefix of a frame is not yet a frame. */
  lemma PrefixIncomplete(f: Frame, n: nat)
    requires Complete(f) && n < |f.bytes|
    ensures !Complete(Frame(f.packetType, f.bytes[..n]))
  {
    if n >= HeaderLen(f.packetType) {
      assert Needed(f.packetType, f.bytes[..n]) == Needed(f.packetType, f.bytes);
    }
  }

  lemma {:induction false} FrameTail(f: Frame, n: nat)
    requires Complete(f) && n < |f.bytes|
    ensures var s := InFrame(f.packetType, f.bytes[..n]); var rest := f.bytes[n..];
            && Outputs(s, rest) == Silence(|rest| - 1) + [Some(f)]
            && After(s, rest) == Waiting
            && (NeverFull(s, rest) <==> |f.bytes| <= PAYLOAD_SIZE)
    decreases |f.bytes| - n
  {
    hide Complete, Needed;
    var s, rest := InFrame(f.packetType, f.bytes[..n]), f.bytes[n..];
    assert f.bytes[..n] + [f.bytes[n]] == f.bytes[..n + 1] && rest[1..] == f.bytes[n + 1..];
    if n + 1 < |f.bytes| {
      PrefixIncomplete(f, n + 1);
      FrameTail(f, n + 1);
      assert [None] + Silence(|rest| - 2) == Silence(|rest| - 1);
    } else {
      assert f.bytes[..n + 1] == f.bytes && rest[1..] == [];
    }
  }

  lemma ItemFramed(item: Item)
    requires WellFormed(item)
    ensures Outputs(Waiting, Wire(item)) == Expected(item) && After(Waiting, Wire(item)) == Waiting
    ensures NeverFull(Waiting, Wire(item)) <==> (item.Packet? ==> |item.frame.bytes| <= PAYLOAD_SIZE)
  {
    match item
    case Noise(b) =>
    case Packet(f) =>
      var w := Wire(item);
      assert w[1..] == f.bytes && f.bytes[..0] == [] && f.bytes[0..] == f.bytes;
      FrameTail(f, 0);
      assert [None] + (Silence(|f.bytes| - 1) + [Some(f)]) == Silence(|f.bytes|) + [Some(f)];
  }

  predicate FitBuffer(items: seq<Item>) {
    forall i :: 0 <= i < |items| && items[i].Packet? ==> |items[i].frame.bytes| <= 260
  }

  /** For every stream of frames with arbitrary other bytes between them, the framer returns exactly those
      frames in order, each on its last byte, and ends between frames; and it never finds its buffer full
      exactly when every frame fits 260 bytes. */
  lemma {:induction false} StreamFramed(items: seq<Item>)
    requires forall i :: 0 <= i < |items| ==> WellFormed(items[i])
    ensures Outputs(Waiting, WireAll(items)) == ExpectedAll(items)
    ensures After(Waiting, WireAll(items)) == Waiting
    ensures NeverFull(Waiting, WireAll(items)) <==> FitBuffer(items)
    decreases |items|
  {
    hide WellFormed, Wire, Expected, FeedByte;
    if items != [] {
      ItemFramed(items[0]);
      StreamConcat(Waiting, Wire(items[0]), WireAll(items[1..]));
      StreamFramed(items[1..]);
      FitBufferCons(items);
    }
  }

  lemma FitBufferCons(items: seq<Item>)
    requires items != []
    ensures FitBuffer(items) <==> (items[0].Packet? ==> |items[0].frame.bytes| <= PAYLOAD_SIZE) && FitBuffer(items[1..])
  {
    if FitBuffer(items) {
      forall i | 0 <= i < |items[1..]| && items[1..][i].Packet?
        ensures |items[1..][i].frame.bytes| <= PAYLOAD_SIZE
      {
        assert items[1..][i] == items[i + 1];
      }
    }
    if (items[0].Packet? ==> |items[0].frame.bytes| <= PAYLOAD_SIZE) && FitBuffer(items[1..]) {
      forall i | 0 <= i < |items| && items[i].Packet?
        ensures |items[i].frame.bytes| <= PAYLOAD_SIZE
      {
        if i > 0 {
          assert items[1..][i - 1] == items[i];
        }
      }
    }
  }

  /** The three constructors produce well-formed frames as long as the length field holds the length;
      beyond 255 parameter bytes a command or event is not a frame. */
  lemma ConstructorsWellFormed(ogf: u8, ocf: u16, code: u8, handle: u16, data: seq<u8>)
    ensures WellFormed(Packet(Frame(HCI_COMMAND, CommandBytes(ogf, ocf, data)))) <==> |data| < 256
    ensures WellFormed(Packet(Frame(HCI_EVENT, EventBytes(code, data)))) <==> |data| < 256
    ensures WellFormed(Packet(Frame(HCI_ACL_DATA, AclBytes(handle, data)))) <==> |data| < 0x1_0000
  {
    if |data| < 0x1_0000 {
      assert |data| / 256 < 256;
    }
  }

  // ---------- What a host reads from a stream ----------

  /** A byte that starts no packet, or a message. */
  datatype Sent = Idle(b: u8) | Say(message: Message)

  predicate Sendable(s: Sent) {
    match s
    case Idle(b) => b != 1 && b != 2 && b != 4
    case Say(m) => m.Fits()
  }

  /** The packet that the constructors build for a message. */
  function FrameOf(m: Message): Frame
    requires m.Fits()
  {
    match m
    case CommandMsg(ogf, ocf, params) => Frame(HCI_COMMAND, CommandBytes(ogf, ocf, params))
    case EventMsg(code, params) => Frame(HCI_EVENT, EventBytes(code, params))
    case AclMsg(handle, data) => Frame(HCI_ACL_DATA, AclBytes(handle, data))
  }

  function ItemOf(s: Sent): Item
    requires Sendable(s)
  {
    match s
    case Idle(b) => Noise(b)
    case Say(m) => Packet(FrameOf(m))
  }

  function Items(sent: seq<Sent>): (r: seq<Item>)
    requires forall i :: 0 <= i < |sent| ==> Sendable(sent[i])
    ensures |r| == |sent| && forall i :: 0 <= i < |sent| ==> r[i] == ItemOf(sent[i])
  {
    seq(|sent|, i requires 0 <= i < |sent| => ItemOf(sent[i]))
  }

  function Messages(sent: seq<Sent>): seq<Message>
    decreases |sent|
  {
    if sent == [] then [] else (if sent[0].Say? then [sent[0].message] else []) + Messages(sent[1..])
  }

  /** What the framer's outputs are read as, one entry for each packet. */
  function Read(outs: seq<Option<Frame>>): seq<Option<Message>>
    decreases |outs|
  {
    if outs == [] then []
    else (if outs[0].Some? then [Parse(outs[0].value.packetType, outs[0].value.bytes, |outs[0].value.bytes|)] else []) + Read(outs[1..])
  }

  lemma {:induction false} ReadConcat(a: seq<Option<Frame>>, b: seq<Option<Frame>>)
    ensures Read(a + b) == Read(a) + Read(b)
    decreases |a|
  {
    hide Parse;
    if a == [] {
      assert a + b == b;
    } else {
      assert (a + b)[0] == a[0] && (a + b)[1..] == a[1..] + b;
      ReadConcat(a[1..], b);
    }
  }

  lemma {:induction false} ReadSilence(n: nat)
    ensures Read(Silence(n)) == []
    decreases n
  {
    if n > 0 {
      assert Silence(n)[1..] == Silence(n - 1);
      ReadSilence(n - 1);
    }
  }

  lemma FrameReads(m: Message)
    requires m.Fits()
    ensures var f := FrameOf(m); Parse(f.packetType, f.bytes, |f.bytes|) == Some(m) && WellFormed(Packet(f))
  {
    hide Parse, WellFormed;
    match m
    case CommandMsg(ogf, ocf, params) =>
      CommandParses(ogf, ocf, params, CommandBytes(ogf, ocf, params));
      ConstructorsWellFormed(ogf, ocf, 0, 0, params);
    case EventMsg(code, params) =>
      EventParses(code, params, EventBytes(code, params));
      ConstructorsWellFormed(0, 0, code, 0, params);
    case AclMsg(handle, data) =>
      AclParses(handle, data, AclBytes(handle, data));
      ConstructorsWellFormed(0, 0, 0, handle, data);
  }

  lemma ItemReads(s: Sent)
    requires Sendable(s)
    ensures WellFormed(ItemOf(s)) && Read(Expected(ItemOf(s))) == Somes(if s.Say? then [s.message] else [])
  {
    hide Parse, FrameOf;
    match s
    case Idle(b) => assert Expected(ItemOf(s))[1..] == [];
    case Say(m) =>
      FrameReads(m);
      var f := FrameOf(m);
      ReadConcat(Silence(|f.bytes|), [Some(f)]);
      ReadSilence(|f.bytes|);
      assert [Some(f)][1..] == [];
  }

  function Somes(ms: seq<Message>): (r: seq<Option<Message>>)
    ensures |r| == |ms|
  {
    seq(|ms|, i requires 0 <= i < |ms| => Some(ms[i]))
  }

  lemma {:induction false} ExpectedReads(sent: seq<Sent>)
    requires forall i :: 0 <= i < |sent| ==> Sendable(sent[i])
    ensures Read(ExpectedAll(Items(sent))) == Somes(Messages(sent))
    decreases |sent|
  {
    hide Sendable, Expected, ItemOf, WellFormed, Somes;
    if sent == [] {
      assert Somes([]) == [] by { SomesEmpty(); }
    } else {
      var items := Items(sent);
      ItemReads(sent[0]);
      assert items[1..] == Items(sent[1..]);
      ExpectedReads(sent[1..]);
      ReadConcat(Expected(items[0]), ExpectedAll(items[1..]));
      SomesConcat(if sent[0].Say? then [sent[0].message] else [], Messages(sent[1..]));
    }
  }

  lemma SomesEmpty()
    ensures Somes([]) == []
  {}

  lemma SomesConcat(a: seq<Message>, b: seq<Message>)
    ensures Somes(a + b) == Somes(a) + Somes(b)
  {}

  /** Whatever messages are built and sent, with other bytes between them: what the framer returns is read
      as exactly those messages, in order. */
  lemma StreamRead(sent: seq<Sent>)
    requires forall i :: 0 <= i < |sent| ==> Sendable(sent[i])
    ensures Read(Outputs(Waiting, WireAll(Items(sent)))) == Somes(Messages(sent))
  {
    hide Sendable, Outputs, WireAll, Read, WellFormed, ItemOf;
    forall i | 0 <= i < |sent|
      ensures WellFormed(Items(sent)[i])
    {
      ItemReads(sent[i]);
    }
    StreamFramed(Items(sent));
    ExpectedReads(sent);
  }
}
