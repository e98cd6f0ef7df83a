/** Bond storage: the RAM store of src/hw/conn.rs and the flash-backed store of src/hw/bond_flash.rs over
    one page. Erasing sets every byte to 0xFF and programming can only clear bits. */
module Bonds {
  import opened Wrappers
  import opened Octets

  const BOND_MAX: nat := 8
  const BOND_RECORD_LEN: nat := 44
  const BOND_PAGE_SIZE: nat := 4096

  /** `BOND_PAGE_MAGIC` and the record trailer in little-endian byte order. */
  const MAGIC: seq<u8> := [0x44, 0x31, 0x42, 0x4E]
  const TRAILER: seq<u8> := [0x5A, 0x5A, 0xA5, 0xA5]

  type Key = s: seq<u8> | |s| == 16 witness [0, 0, 0, 0, 0, 0, 0, 0, 0, 0, 0, 0, 0, 0, 0, 0]

  datatype BondInfo = BondInfo(addr: Addr, ltk: Key, irk: Option<Key>)

  type Slots = s: seq<Option<BondInfo>> | |s| == BOND_MAX witness [None, None, None, None, None, None, None, None]

  // ---------- Slots ----------

  predicate HoldsPeer(slot: Option<BondInfo>, peer: Addr) { slot.Some? && slot.value.addr == peer }

  /** The first slot with `peer`, or the number of slots. */
  function SlotOf(slots: seq<Option<BondInfo>>, peer: Addr): (r: nat)
    ensures r <= |slots|
    ensures r < |slots| ==> HoldsPeer(slots[r], peer)
    ensures forall j :: 0 <= j < r ==> !HoldsPeer(slots[j], peer)
  {
    if slots == [] then 0 else if HoldsPeer(slots[0], peer) then 0 else 1 + SlotOf(slots[1..], peer)
  }

  function FreeSlot(slots: seq<Option<BondInfo>>): (r: nat)
    ensures r <= |slots|
    ensures r < |slots| ==> slots[r].None?
    ensures forall j :: 0 <= j < r ==> slots[j].Some?
  {
    if slots == [] then 0 else if slots[0].None? then 0 else 1 + FreeSlot(slots[1..])
  }

  /** The slots after a save: the peer's slot, else the first free one, else no change. */
  function Saved(slots: Slots, info: BondInfo): Slots {
    var at := SlotOf(slots, info.addr);
    if at < BOND_MAX then slots[at := Some(info)]
    else if FreeSlot(slots) < BOND_MAX then slots[FreeSlot(slots) := Some(info)]
    else slots
  }

  function Found(slots: Slots, peer: Addr): Option<BondInfo> {
    var at := SlotOf(slots, peer);
    if at < BOND_MAX then slots[at] else None
  }

  lemma SlotOfIs(slots: Slots, peer: Addr, k: nat)
    requires k < BOND_MAX && HoldsPeer(slots[k], peer) && forall j :: 0 <= j < k ==> !HoldsPeer(slots[j], peer)
    ensures SlotOf(slots, peer) == k
  {}

  lemma FreeSlotIs(slots: Slots, k: nat)
    requires k < BOND_MAX && slots[k].None? && forall j :: 0 <= j < k ==> slots[j].Some?
    ensures FreeSlot(slots) == k
  {}

  class RamBondStore {
    var bonds: array<Option<BondInfo>>

    ghost predicate Valid()
      reads this
    {
      bonds.Length == BOND_MAX
    }

    constructor ()
      ensures Valid() && fresh(bonds) && bonds[..] == seq(BOND_MAX, _ => None)
    {
      bonds := new Option<BondInfo>[BOND_MAX](_ => None);
    }

    method Save(peer: Addr, ltk: Key, irk: Option<Key>)
      requires Valid()
      modifies bonds
      ensures bonds[..] == Saved(old(bonds[..]), BondInfo(peer, ltk, irk))
    {
      var info := BondInfo(peer, ltk, irk);
      for i := 0 to bonds.Length
        invariant bonds[..] == old(bonds[..])
        invariant forall j :: 0 <= j < i ==> !HoldsPeer(bonds[j], peer)
      {
        if HoldsPeer(bonds[i], peer) {
          SlotOfIs(bonds[..], peer, i);
          bonds[i] := Some(info);
          return;
        }
      }
      for i := 0 to bonds.Length
        invariant bonds[..] == old(bonds[..])
        invariant forall j :: 0 <= j < i ==> bonds[j].Some?
      {
        if bonds[i].None? {
          FreeSlotIs(bonds[..], i);
          bonds[i] := Some(info);
          return;
        }
      }
    }

    method Find(peer: Addr) returns (r: Option<BondInfo>)
      requires Valid()
      ensures r == Found(bonds[..], peer)
    {
      for i := 0 to bonds.Length
        invariant forall j :: 0 <= j < i ==> !HoldsPeer(bonds[j], peer)
      {
        if HoldsPeer(bonds[i], peer) {
          SlotOfIs(bonds[..], peer, i);
          return bonds[i];
        }
      }
      return None;
    }
  }

  // ---------- Records ----------

  function EncodeRecord(b: BondInfo): (r: seq<u8>)
    ensures |r| == BOND_RECORD_LEN
  {
    b.addr + [0] + b.ltk + [BoolBit(b.irk.Some?)] + (if b.irk.Some? then b.irk.value else seq(16, _ => 0)) + TRAILER
  }

  function DecodeRecord(rec: seq<u8>): Option<BondInfo>
    requires |rec| == BOND_RECORD_LEN
  {
    if rec[40..44] != TRAILER then None
    else Some(BondInfo(rec[..6], rec[7..23], if rec[23] != 0 then Some(rec[24..40]) else None))
  }

  lemma RecordRoundTrip(b: BondInfo)
    ensures DecodeRecord(EncodeRecord(b)) == Some(b)
  {
    var r := EncodeRecord(b);
    assert r[40..44] == TRAILER && r[..6] == b.addr && r[7..23] == b.ltk && r[23] == BoolBit(b.irk.Some?);
    if b.irk.Some? {
      assert r[24..40] == b.irk.value;
    }
  }

  /** The 44 bytes of a record: address, a zero, LTK, a flag, the IRK or zeros, and the trailer. */
  lemma RecordLayout(b: BondInfo)
    ensures var r := EncodeRecord(b);
            && r[0..6] == b.addr && r[6] == 0 && r[7..23] == b.ltk && r[23] == (if b.irk.Some? then 1 else 0)
            && r[24..40] == (if b.irk.Some? then b.irk.value else seq(16, _ => 0))
            && r[40..44] == [0x5A, 0x5A, 0xA5, 0xA5]
  {
    if b.irk.Some? {
    }
  }

  /** Any 44 bytes: a bond exactly with the trailer, with an IRK exactly with a nonzero flag. */
  lemma RecordDecoded(rec: seq<u8>)
    requires |rec| == 44
    ensures DecodeRecord(rec).Some? <==> rec[40] == 0x5A && rec[41] == 0x5A && rec[42] == 0xA5 && rec[43] == 0xA5
    ensures DecodeRecord(rec).Some? ==>
              var b := DecodeRecord(rec).value;
              b.addr == rec[0..6] && b.ltk == rec[7..23] && (b.irk.Some? <==> rec[23] != 0) && (b.irk.Some? ==> b.irk.value == rec[24..40])
  {
    assert rec[40..44] == [rec[40], rec[41], rec[42], rec[43]];
  }

  /** On any slots, also ones with gaps: a save changes what is found for its peer and for no other, and is
      lost exactly when all eight slots hold other peers. */
  lemma SavedThenFound(slots: Slots, info: BondInfo, peer: Addr)
    requires UniquePeers(slots)
    ensures Found(Saved(slots, info), peer)
            == if peer == info.addr && exists i :: 0 <= i < BOND_MAX && (slots[i].None? || slots[i].value.addr == info.addr)
               then Some(info) else Found(slots, peer)
  {
    hide SlotOf, FreeSlot;
    FoundUnique(slots, peer);
    SavedUnique(slots, info);
    var after := Saved(slots, info);
    FoundUnique(after, peer);
    SavedSlots(slots, info);
    if after != slots || exists i :: 0 <= i < BOND_MAX && (slots[i].None? || slots[i].value.addr == info.addr) {
      var k :| 0 <= k < BOND_MAX && (slots[k].None? || slots[k].value.addr == info.addr) && after == slots[k := Some(info)];
      if peer == info.addr {
        assert HoldsPeer(after[k], peer);
      } else if j :| 0 <= j < BOND_MAX && HoldsPeer(slots[j], peer) {
        assert HoldsPeer(after[j], peer) && after[j] == slots[j];
      }
    }
  }

  /** Which slot a save changes, if any. */
  lemma SavedSlots(slots: Slots, info: BondInfo)
    ensures var after := Saved(slots, info);
            if exists i :: 0 <= i < BOND_MAX && (slots[i].None? || slots[i].value.addr == info.addr) then
              exists k :: 0 <= k < BOND_MAX && (slots[k].None? || slots[k].value.addr == info.addr) && after == slots[k := Some(info)]
            else after == slots
  {
    hide SlotOf, FreeSlot;
    var at, free := SlotOf(slots, info.addr), FreeSlot(slots);
    if at < BOND_MAX {
      assert Saved(slots, info) == slots[at := Some(info)];
    } else if free < BOND_MAX {
      assert Saved(slots, info) == slots[free := Some(info)];
    }
  }

  predicate UniquePeers(slots: Slots) {
    forall i, j :: 0 <= i < j < BOND_MAX && slots[i].Some? && slots[j].Some? ==> slots[i].value.addr != slots[j].value.addr
  }

  lemma SavedUnique(slots: Slots, info: BondInfo)
    requires UniquePeers(slots)
    ensures UniquePeers(Saved(slots, info))
  {
    hide SlotOf, FreeSlot;
    var at, free := SlotOf(slots, info.addr), FreeSlot(slots);
  }

  lemma FoundUnique(slots: Slots, peer: Addr)
    requires UniquePeers(slots)
    ensures forall k :: 0 <= k < BOND_MAX && HoldsPeer(slots[k], peer) ==> Found(slots, peer) == slots[k]
    ensures (forall k :: 0 <= k < BOND_MAX ==> !HoldsPeer(slots[k], peer)) ==> Found(slots, peer) == None
  {
    hide SlotOf;
    var at := SlotOf(slots, peer);
  }

  // ---------- The page ----------

  function RecordAt(i: nat): nat { 4 + BOND_RECORD_LEN * i }

  /** The record of slot `i`, or erased bytes for an empty slot. */
  function SlotBytes(slot: Option<BondInfo>): (r: seq<u8>)
    ensures |r| == BOND_RECORD_LEN
  {
    if slot.Some? then EncodeRecord(slot.value) else Erased(BOND_RECORD_LEN)
  }

  function Erased(n: nat): (r: seq<u8>)
    ensures |r| == n
  {
    seq(n, _ => 0xFF)
  }

  /** The page that holds `slots`. */
  predicate IsImage(page: seq<u8>, slots: Slots) {
    && |page| == BOND_PAGE_SIZE && page[..4] == MAGIC
    && forall i :: 0 <= i < BOND_MAX ==> page[RecordAt(i)..RecordAt(i) + BOND_RECORD_LEN] == SlotBytes(slots[i])
  }

  /** The cache a store opened on `page` starts with. */
  function Loaded(page: seq<u8>): Slots
    requires |page| == BOND_PAGE_SIZE
  {
    if page[..4] != MAGIC then seq(BOND_MAX, _ => None)
    else seq(BOND_MAX, i requires 0 <= i < BOND_MAX => DecodeRecord(page[RecordAt(i)..RecordAt(i) + BOND_RECORD_LEN]))
  }

  lemma ErasedDecodesToNone()
    ensures DecodeRecord(Erased(BOND_RECORD_LEN)) == None
  {
    assert Erased(BOND_RECORD_LEN)[40..44][0] == 0xFF;
  }

  /** Opening the page that a flush wrote gives back the cache. */
  lemma LoadedImage(page: seq<u8>, slots: Slots)
    requires IsImage(page, slots)
    ensures Loaded(page) == slots
  {
    hide DecodeRecord, EncodeRecord, Erased;
    forall i | 0 <= i < BOND_MAX
      ensures Loaded(page)[i] == slots[i]
    {
      ErasedDecodesToNone();
      if slots[i].Some? {
        RecordRoundTrip(slots[i].value);
      }
    }
  }

  /** The first bytes of the page that holds `slots`: the magic word and `n` slots. */
  function Written(slots: Slots, n: nat): (r: seq<u8>)
    requires n <= BOND_MAX
    ensures |r| == RecordAt(n)
  {
    if n == 0 then MAGIC else Written(slots, n - 1) + SlotBytes(slots[n - 1])
  }

  /** A page that starts with `written` and is erased behind it. */
  function FillErased(written: seq<u8>): (r: seq<u8>)
    requires |written| <= BOND_PAGE_SIZE
    ensures |r| == BOND_PAGE_SIZE
  {
    written + Erased(BOND_PAGE_SIZE - |written|)
  }

  lemma FillErasedParts(written: seq<u8>, n: nat)
    requires |written| + n <= BOND_PAGE_SIZE
    ensures var p, at := FillErased(written), |written|;
            p[..at] == written && p[at..at + n] == Erased(n) && p[at + n..] == Erased(BOND_PAGE_SIZE - at - n)
  {}

  lemma JoinParts(page: seq<u8>, a: seq<u8>, b: seq<u8>)
    requires |page| == BOND_PAGE_SIZE && |a| + |b| <= BOND_PAGE_SIZE
    requires page[..|a|] == a && page[|a|..|a| + |b|] == b
    requires page[|a| + |b|..] == Erased(BOND_PAGE_SIZE - |a| - |b|)
    ensures page == FillErased(a + b)
  {
    assert page == page[..|a|] + page[|a|..|a| + |b|] + page[|a| + |b|..];
  }

  lemma FillErasedSkips(written: seq<u8>)
    requires |written| + BOND_RECORD_LEN <= BOND_PAGE_SIZE
    ensures FillErased(written + Erased(BOND_RECORD_LEN)) == FillErased(written)
  {}

  lemma {:induction false} WrittenSlot(slots: Slots, i: nat, n: nat)
    requires i < n <= BOND_MAX
    ensures Written(slots, n)[..4] == MAGIC
    ensures Written(slots, n)[RecordAt(i)..RecordAt(i) + BOND_RECORD_LEN] == SlotBytes(slots[i])
  {
    hide EncodeRecord, Erased, SlotBytes;
    if i < n - 1 {
      WrittenSlot(slots, i, n - 1);
    } else if n > 1 {
      WrittenSlot(slots, i - 1, n - 1);
    }
  }

  lemma WrittenIsImage(slots: Slots)
    ensures IsImage(FillErased(Written(slots, BOND_MAX)), slots)
  {
    hide EncodeRecord, Erased, SlotBytes, Written;
    var w := Written(slots, BOND_MAX);
    forall i | 0 <= i < BOND_MAX
      ensures FillErased(w)[RecordAt(i)..RecordAt(i) + BOND_RECORD_LEN] == SlotBytes(slots[i])
      ensures FillErased(w)[..4] == MAGIC
    {
      WrittenSlot(slots, i, BOND_MAX);
      FillErasedPrefix(w, RecordAt(i), RecordAt(i) + BOND_RECORD_LEN);
      FillErasedPrefix(w, 0, 4);
    }
    assert FillErased(w)[RecordAt(0)..RecordAt(0) + BOND_RECORD_LEN] == SlotBytes(slots[0]);
  }

  lemma FillErasedPrefix(written: seq<u8>, from: nat, to: nat)
    requires from <= to <= |written| <= BOND_PAGE_SIZE
    ensures FillErased(written)[from..to] == written[from..to]
  {}

  /** The image by position: the magic word, and 44 bytes for each slot from byte 4 on. */
  lemma ImageLayout(page: seq<u8>, slots: Slots, i: nat)
    requires IsImage(page, slots) && i < 8
    ensures |page| == 4096 && page[0..4] == [0x44, 0x31, 0x42, 0x4E]
    ensures page[4 + 44 * i..48 + 44 * i] == if slots[i].Some? then EncodeRecord(slots[i].value) else seq(44, _ => 0xFF)
  {
    hide EncodeRecord;
    assert RecordAt(i) == 4 + 44 * i;
  }

  // ---------- Programming ----------

  /** Flash cells after programming `b` over `a`: the low `n` bits of their conjunction. */
  function And(a: nat, b: nat, n: nat): nat
    decreases n
  {
    if n == 0 then 0 else BoolBit(Odd(a) && Odd(b)) + 2 * And(Half(a), Half(b), n - 1)
  }

  function Ones(n: nat): nat
    decreases n
  {
    if n == 0 then 0 else 1 + 2 * Ones(n - 1)
  }

  lemma {:induction false} AndOnes(b: nat, n: nat)
    requires b <= Ones(n)
    ensures And(Ones(n), b, n) == b
    decreases n
  {
    if n > 0 {
      HalfSplit(b);
      assert Half(Ones(n)) == Ones(n - 1) && Odd(Ones(n));
      AndOnes(Half(b), n - 1);
    }
  }

  lemma AndErased(b: u8)
    ensures And(0xFF, b, 8) == b
  {
    assert Ones(8) == 0xFF;
    AndOnes(b, 8);
  }

  /** Programming clears bits and never sets one. */
  lemma {:induction false} AndDigit(a: nat, b: nat, n: nat, i: nat)
    requires i < n
    ensures Digit(And(a, b, n), i) <==> Digit(a, i) && Digit(b, i)
    decreases n
  {
    var c := And(Half(a), Half(b), n - 1);
    AndParts(BoolBit(Odd(a) && Odd(b)), c);
    if i > 0 {
      AndDigit(Half(a), Half(b), n - 1, i - 1);
    }
  }

  lemma AndParts(low: nat, rest: nat)
    requires low <= 1
    ensures Half(low + 2 * rest) == rest && (Odd(low + 2 * rest) <==> low == 1)
  {}

  lemma {:induction false} AndBound(a: nat, b: nat, n: nat)
    ensures And(a, b, n) <= Ones(n)
    decreases n
  {
    if n > 0 {
      AndBound(Half(a), Half(b), n - 1);
    }
  }

  class FlashBondStore {
    var cache: array<Option<BondInfo>>
    const page: array<u8>

    ghost predicate Valid()
      reads this
    {
      cache.Length == BOND_MAX && page.Length == BOND_PAGE_SIZE
    }

    /** Opens the store on a page. */
    constructor (page: array<u8>)
      requires page.Length == BOND_PAGE_SIZE
      ensures Valid() && this.page == page && fresh(cache) && cache[..] == Loaded(page[..])
    {
      this.page := page;
      cache := new Option<BondInfo>[BOND_MAX](_ => None);
      new;
      LoadPage();
    }

    method LoadPage()
      requires Valid() && cache[..] == seq(BOND_MAX, _ => None)
      modifies cache
      ensures cache[..] == Loaded(page[..])
    {
      hide DecodeRecord;
      if page[..4] != MAGIC {
        assert page[..][..4] == page[..4];
        return;
      }
      assert page[..][..4] == page[..4];
      for i := 0 to BOND_MAX
        invariant forall j :: 0 <= j < i ==> cache[j] == DecodeRecord(page[..][RecordAt(j)..RecordAt(j) + BOND_RECORD_LEN])
      {
        var rec := page[RecordAt(i)..RecordAt(i) + BOND_RECORD_LEN];
        assert rec == page[..][RecordAt(i)..RecordAt(i) + BOND_RECORD_LEN];
        cache[i] := DecodeRecord(rec);
      }
    }

    /** Programs bytes into the page: each cell keeps the bits that are also in the byte written, so erased
        cells take exactly the bytes. */
    method Program(at: nat, bytes: seq<u8>)
      requires Valid() && at + |bytes| <= BOND_PAGE_SIZE
      modifies page
      ensures page[..at] == old(page[..at]) && page[at + |bytes|..] == old(page[at + |bytes|..])
      ensures old(page[at..at + |bytes|]) == Erased(|bytes|) ==> page[at..at + |bytes|] == bytes
      ensures forall j :: 0 <= j < |bytes| ==> page[at + j] == And(old(page[at + j]), bytes[j], 8)
    {
      hide And;
      ghost var was := page[..];
      for j := 0 to |bytes|
        invariant page[..at] == was[..at]
        invariant page[at + j..] == was[at + j..]
        invariant was[at..at + |bytes|] == Erased(|bytes|) ==> page[at..at + j] == bytes[..j]
        invariant forall i :: 0 <= i < j ==> page[at + i] == And(was[at + i], bytes[i], 8)
      {
        AndBound(page[at + j], bytes[j], 8);
        OnesEight();
        AndErased(bytes[j]);
        assert page[at + j] == was[at + j];
        assert was[at..at + |bytes|] == Erased(|bytes|) ==> was[at..at + |bytes|][j] == 0xFF;
        page[at + j] := And(page[at + j], bytes[j], 8);
      }
    }

    /** Programs `bytes` right after the written part of a page whose rest is erased. */
    method ProgramNext(ghost written: seq<u8>, at: nat, bytes: seq<u8>)
      requires Valid() && at == |written| && at + |bytes| <= BOND_PAGE_SIZE
      requires page[..] == FillErased(written)
      modifies page
      ensures page[..] == FillErased(written + bytes)
    {
      hide Erased;
      FillErasedParts(written, |bytes|);
      Program(at, bytes);
      JoinParts(page[..], written, bytes);
    }

    method Erase()
      requires Valid()
      modifies page
      ensures page[..] == FillErased([])
    {
      forall i | 0 <= i < BOND_PAGE_SIZE {
        page[i] := 0xFF;
      }
    }

    /** Erases the page and programs the magic word and every occupied slot. */
    method Flush()
      requires Valid()
      modifies page
      ensures IsImage(page[..], cache[..])
    {
      hide EncodeRecord, FillErased, Erased, IsImage;
      Erase();
      ProgramNext([], 0, MAGIC);
      assert [] + MAGIC == Written(cache[..], 0);
      for i := 0 to BOND_MAX
        invariant page[..] == FillErased(Written(cache[..], i))
      {
        if cache[i].Some? {
          ProgramNext(Written(cache[..], i), RecordAt(i), EncodeRecord(cache[i].value));
        } else {
          FillErasedSkips(Written(cache[..], i));
        }
      }
      WrittenIsImage(cache[..]);
    }

    /** Saves a bond; the page is rewritten unless the store is full. */
    method Save(peer: Addr, ltk: Key, irk: Option<Key>)
      requires Valid()
      modifies cache, page
      ensures cache[..] == Saved(old(cache[..]), BondInfo(peer, ltk, irk))
      ensures if HasRoom(old(cache[..]), peer) then IsImage(page[..], cache[..]) else page[..] == old(page[..])
    {
      hide IsImage;
      var info := BondInfo(peer, ltk, irk);
      for i := 0 to cache.Length
        invariant cache[..] == old(cache[..]) && page[..] == old(page[..])
        invariant forall j :: 0 <= j < i ==> !HoldsPeer(cache[j], peer)
      {
        if HoldsPeer(cache[i], peer) {
          SlotOfIs(cache[..], peer, i);
          cache[i] := Some(info);
          Flush();
          return;
        }
      }
      for i := 0 to cache.Length
        invariant cache[..] == old(cache[..]) && page[..] == old(page[..])
        invariant forall j :: 0 <= j < i ==> cache[j].Some?
      {
        if cache[i].None? {
          FreeSlotIs(cache[..], i);
          cache[i] := Some(info);
          Flush();
          return;
        }
      }
    }

    method Find(peer: Addr) returns (r: Option<BondInfo>)
      requires Valid()
      ensures r == Found(cache[..], peer)
    {
      for i := 0 to cache.Length
        invariant forall j :: 0 <= j < i ==> !HoldsPeer(cache[j], peer)
      {
        if HoldsPeer(cache[i], peer) {
          SlotOfIs(cache[..], peer, i);
          return cache[i];
        }
      }
      return None;
    }
  }

  lemma OnesEight()
    ensures Ones(8) == 0xFF
  {}

  /** A save rewrites the page exactly when some slot is free or holds the peer. */
  lemma RoomIff(slots: Slots, peer: Addr)
    ensures HasRoom(slots, peer) <==> exists i :: 0 <= i < 8 && (slots[i].None? || slots[i].value.addr == peer)
  {
    hide SlotOf, FreeSlot;
    var at, free := SlotOf(slots, peer), FreeSlot(slots);
    if at < BOND_MAX {
      assert slots[at].value.addr == peer;
    } else if free < BOND_MAX {
      assert slots[free].None?;
    }
  }

  predicate HasRoom(slots: Slots, peer: Addr) { SlotOf(slots, peer) < BOND_MAX || FreeSlot(slots) < BOND_MAX }

  // ---------- Runs ----------

  /** The saves of a store's life. */
  type History = seq<BondInfo>

  /** The peers a store keeps: the first eight distinct ones. */
  function Kept(h: History): (r: seq<Addr>)
    ensures |r| <= BOND_MAX
    decreases |h|
  {
    if h == [] then []
    else
      var before, p := Kept(h[..|h| - 1]), h[|h| - 1].addr;
      if p in before || |before| == BOND_MAX then before else before + [p]
  }

  /** The last bond saved for a peer. */
  function LastSaved(h: History, peer: Addr): Option<BondInfo>
    decreases |h|
  {
    if h == [] then None
    else if h[|h| - 1].addr == peer then Some(h[|h| - 1])
    else LastSaved(h[..|h| - 1], peer)
  }

  function SlotsAfter(h: History): Slots
    decreases |h|
  {
    if h == [] then seq(BOND_MAX, _ => None) else Saved(SlotsAfter(h[..|h| - 1]), h[|h| - 1])
  }

  /** The kept peers fill the first slots in order of arrival, each with its last bond. */
  ghost predicate Arranged(slots: Slots, h: History) {
    var kept := Kept(h);
    && (forall i :: 0 <= i < |kept| ==> slots[i].Some? && slots[i].value.addr == kept[i] && slots[i] == LastSaved(h, kept[i]))
    && (forall i :: |kept| <= i < BOND_MAX ==> slots[i].None?)
    && (forall i, j :: 0 <= i < j < |kept| ==> kept[i] != kept[j])
  }

  lemma SaveArranged(slots: Slots, h: History, info: BondInfo)
    requires Arranged(slots, h)
    ensures Arranged(Saved(slots, info), h + [info])
  {
    var kept, next := Kept(h), h + [info];
    assert next[..|h|] == h && next[|h|] == info;
    if info.addr in kept {
      var k :| 0 <= k < |kept| && kept[k] == info.addr;
      SlotOfIs(slots, info.addr, k);
    } else {
      assert SlotOf(slots, info.addr) == BOND_MAX;
      if |kept| < BOND_MAX {
        FreeSlotIs(slots, |kept|);
      }
    }
  }

  lemma {:induction false} AlwaysArranged(h: History)
    ensures Arranged(SlotsAfter(h), h)
    decreases |h|
  {
    hide Saved, Arranged;
    if h == [] {
      EmptyArranged();
    } else {
      AlwaysArranged(h[..|h| - 1]);
      SaveArranged(SlotsAfter(h[..|h| - 1]), h[..|h| - 1], h[|h| - 1]);
      assert h[..|h| - 1] + [h[|h| - 1]] == h;
    }
  }

  lemma EmptyArranged()
    ensures Arranged(SlotsAfter([]), [])
  {}

  /** After any saves a store answers for the first eight distinct peers with the last bond saved for each,
      and for no other peer; its addresses are unique. */
  lemma StoreIsMap(h: History, peer: Addr)
    ensures Found(SlotsAfter(h), peer) == if peer in Kept(h) then LastSaved(h, peer) else None
    ensures forall i, j :: 0 <= i < j < BOND_MAX && SlotsAfter(h)[i].Some? && SlotsAfter(h)[j].Some?
                           ==> SlotsAfter(h)[i].value.addr != SlotsAfter(h)[j].value.addr
  {
    hide SlotsAfter, Kept, LastSaved;
    AlwaysArranged(h);
    var slots, kept := SlotsAfter(h), Kept(h);
    if peer in kept {
      var k :| 0 <= k < |kept| && kept[k] == peer;
      SlotOfIs(slots, peer, k);
    }
  }

  // ---------- The flash store over its life ----------

  datatype Op = SaveOp(info: BondInfo) | Reopen

  /** Cache and page. */
  datatype Flash = Flash(cache: Slots, page: seq<u8>)

  /** What the methods do to cache and page. */
  ghost predicate FlashStep(f: Flash, op: Op, g: Flash) {
    |f.page| == BOND_PAGE_SIZE && |g.page| == BOND_PAGE_SIZE &&
    match op
    case SaveOp(info) =>
      g.cache == Saved(f.cache, info) && (if HasRoom(f.cache, info.addr) then IsImage(g.page, g.cache) else g.page == f.page)
    case Reopen => g.cache == Loaded(f.page) && g.page == f.page
  }

  function SavesOf(ops: seq<Op>): History
    decreases |ops|
  {
    if ops == [] then []
    else SavesOf(ops[..|ops| - 1]) + (if ops[|ops| - 1].SaveOp? then [ops[|ops| - 1].info] else [])
  }

  ghost predicate FlashRun(fs: seq<Flash>, ops: seq<Op>) {
    && |fs| == |ops| + 1
    && fs[0] == Flash(seq(BOND_MAX, _ => None), Erased(BOND_PAGE_SIZE))
    && forall i :: 0 <= i < |ops| ==> FlashStep(fs[i], ops[i], fs[i + 1])
  }

  /** The page would load as the cache. */
  ghost predicate Agrees(f: Flash) { |f.page| == BOND_PAGE_SIZE && Loaded(f.page) == f.cache }

  lemma StepAgrees(f: Flash, op: Op, g: Flash)
    requires Agrees(f) && FlashStep(f, op, g)
    ensures Agrees(g) && g.cache == if op.SaveOp? then Saved(f.cache, op.info) else f.cache
  {
    hide Loaded, IsImage, SlotOf, FreeSlot;
    if op.SaveOp? && HasRoom(f.cache, op.info.addr) {
      LoadedImage(g.page, g.cache);
    }
  }

  lemma FreshAgrees()
    ensures Agrees(Flash(seq(BOND_MAX, _ => None), Erased(BOND_PAGE_SIZE)))
  {
    assert Erased(BOND_PAGE_SIZE)[..4][0] == 0xFF;
  }

  /** For every sequence of saves and reopenings from an erased page: the cache is the RAM store's slots
      after the same saves and the page would load as exactly that cache, so a reopening loses nothing. */
  lemma {:induction false} FlashRefinesRam(fs: seq<Flash>, ops: seq<Op>)
    requires FlashRun(fs, ops)
    ensures Agrees(fs[|ops|]) && fs[|ops|].cache == SlotsAfter(SavesOf(ops))
    decreases |ops|
  {
    hide Loaded, IsImage, Saved, Agrees, FlashStep;
    if ops == [] {
      FreshAgrees();
    } else {
      var n := |ops| - 1;
      FlashRefinesRam(fs[..|ops|], ops[..n]);
      StepAgrees(fs[n], ops[n], fs[n + 1]);
      var h := SavesOf(ops[..n]);
      if ops[n].SaveOp? {
        assert (h + [ops[n].info])[..|h|] == h;
      } else {
        assert h + [] == h;
      }
    }
  }

  /** What a store that was reopened any number of times finds. */
  lemma FlashFinds(fs: seq<Flash>, ops: seq<Op>, peer: Addr)
    requires FlashRun(fs, ops)
    ensures var h := SavesOf(ops);
            Found(fs[|ops|].cache, peer) == (if peer in Kept(h) then LastSaved(h, peer) else None)
            && Found(Loaded(fs[|ops|].page), peer) == Found(fs[|ops|].cache, peer)
  {
    hide FlashRun, Found, Loaded, Kept, LastSaved, SlotsAfter;
    FlashRefinesRam(fs, ops);
    StoreIsMap(SavesOf(ops), peer);
  }
}
