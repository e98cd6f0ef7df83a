/** Advertising data structures (src/gap/ad.rs): packing with `build` and the `AdIter` parser. */
module AdvData {
  import opened Wrappers
  import opened Octets

  datatype AdEntry = AdEntry(adType: u8, data: seq<u8>)

  const ENTRY_MAX: nat := 254

  function EntryBytes(e: AdEntry): seq<u8> { [AsU8(|e.data| + 1), e.adType] + e.data }

  function BuildBytes(entries: seq<AdEntry>): seq<u8>
    decreases |entries|
  {
    if entries == [] then [] else BuildBytes(entries[..|entries| - 1]) + EntryBytes(entries[|entries| - 1])
  }

  /** Whether an entry can be packed behind `used` bytes, or the error that stops `build`. */
  function EntryError(e: AdEntry, used: nat, capacity: nat): Option<Error> {
    if |e.data| > ENTRY_MAX then Some(InvalidLength)
    else if used + 2 + |e.data| > capacity then Some(BufferTooSmall)
    else None
  }

  /** How many entries are packed before the first that cannot be. */
  function Packed(entries: seq<AdEntry>, capacity: nat): (r: nat)
    ensures r <= |entries|
    decreases |entries|
  {
    if entries == [] then 0
    else
      var n := |entries| - 1;
      var before := Packed(entries[..n], capacity);
      if before < n || EntryError(entries[n], |BuildBytes(entries[..n])|, capacity).Some? then before else n + 1
  }

  /** The error of the first entry that cannot be packed. */
  function BuildError(entries: seq<AdEntry>, capacity: nat): Option<Error> {
    var n := Packed(entries, capacity);
    if n == |entries| then None else EntryError(entries[n], |BuildBytes(entries[..n])|, capacity)
  }

  /** Packs entries until one does not fit; the entries before it stay written. */
  method Build(entries: seq<AdEntry>, out: array<u8>) returns (r: Result<nat>)
    modifies out
    ensures match BuildError(entries, out.Length)
            case Some(e) => r == Err(e)
            case None => r == Ok(|BuildBytes(entries)|)
    ensures var built := BuildBytes(entries[..Packed(entries, out.Length)]);
            |built| <= out.Length && out[..] == built + old(out[|built|..])
  {
    hide EntryBytes;
    var pos := 0;
    var i := 0;
    while i < |entries|
      invariant i <= |entries| && pos <= out.Length
      invariant Packed(entries[..i], out.Length) == i
      invariant pos == |BuildBytes(entries[..i])|
      invariant out[..pos] == BuildBytes(entries[..i])
      invariant out[pos..] == old(out[pos..])
    {
      var entry := entries[i];
      assert entries[..i + 1][..i] == entries[..i];
      var len := |entry.data| + 1;
      if |entry.data| > ENTRY_MAX {
        PackedStops(entries, i, out.Length);
        return Err(InvalidLength);
      }
      if pos + 1 + len > out.Length {
        PackedStops(entries, i, out.Length);
        return Err(BufferTooSmall);
      }
      EntryLength(entry);
      ghost var rest := out[pos + 1 + len..];
      CopyFromSlice(out, pos, EntryBytes(entry));
      pos := pos + 1 + len;
      i := i + 1;
      assert out[pos..] == rest;
    }
    assert entries[..i] == entries;
    return Ok(pos);
  }

  lemma EntryLength(e: AdEntry)
    ensures |EntryBytes(e)| == 2 + |e.data|
  {}

  lemma {:induction false} PackedStops(entries: seq<AdEntry>, n: nat, capacity: nat)
    requires n < |entries| && Packed(entries[..n], capacity) == n
    requires EntryError(entries[n], |BuildBytes(entries[..n])|, capacity).Some?
    ensures Packed(entries, capacity) == n
    decreases |entries|
  {
    hide EntryError, EntryBytes;
    var m := |entries| - 1;
    if n < m {
      assert entries[..m][..n] == entries[..n];
      PackedStops(entries[..m], n, capacity);
    }
  }

  // ---------- Iteration ----------

  /** The iterator ends exactly at the end of the buffer and fails exactly at a zero length or one that runs
      past the end. */
  lemma NextOutcome(buf: seq<u8>, pos: nat)
    ensures NextAt(buf, pos).0 == None <==> pos >= |buf|
    ensures NextAt(buf, pos).0 == Some(Err(InvalidAd)) <==> pos < |buf| && (buf[pos] == 0 || pos + 1 + buf[pos] as nat > |buf|)
    ensures NextAt(buf, pos).0.Some? && NextAt(buf, pos).0.value.Ok? <==> pos < |buf| && buf[pos] != 0 && pos + 1 + buf[pos] as nat <= |buf|
  {}

  /** The next structure at `pos`, and where the iterator stands afterwards: an error does not advance. */
  function NextAt(buf: seq<u8>, pos: nat): (Option<Result<AdEntry>>, nat) {
    if pos >= |buf| then (None, pos)
    else
      var len := buf[pos];
      if len == 0 || pos + 1 + len > |buf| then (Some(Err(InvalidAd)), pos)
      else (Some(Ok(AdEntry(buf[pos + 1], buf[pos + 2..pos + 1 + len]))), pos + 1 + len)
  }

  class AdIter {
    const buf: seq<u8>
    var pos: nat

    constructor (buf: seq<u8>)
      ensures this.buf == buf && pos == 0
    {
      this.buf := buf;
      pos := 0;
    }

    method Next() returns (r: Option<Result<AdEntry>>)
      modifies this
      ensures (r, pos) == NextAt(buf, old(pos))
    {
      if pos >= |buf| {
        return None;
      }
      var len := buf[pos];
      if len == 0 {
        return Some(Err(InvalidAd));
      }
      if pos + 1 + len > |buf| {
        return Some(Err(InvalidAd));
      }
      var entry := AdEntry(buf[pos + 1], buf[pos + 2..pos + 1 + len]);
      pos := pos + 1 + len;
      return Some(Ok(entry));
    }
  }

  /** All structures from `pos` on, or the first error. */
  function Entries(buf: seq<u8>, pos: nat): Result<seq<AdEntry>>
    decreases |buf| - pos
  {
    match NextAt(buf, pos)
    case (None, _) => Ok([])
    case (Some(Err(e)), _) => Err(e)
    case (Some(Ok(entry)), next) =>
      match Entries(buf, next)
      case Err(e) => Err(e)
      case Ok(rest) => Ok([entry] + rest)
  }

  predicate Packable(entries: seq<AdEntry>) { forall i :: 0 <= i < |entries| ==> |entries[i].data| <= ENTRY_MAX }

  lemma {:induction false} BuildFront(entries: seq<AdEntry>)
    requires entries != []
    ensures BuildBytes(entries) == EntryBytes(entries[0]) + BuildBytes(entries[1..])
    decreases |entries|
  {
    hide EntryBytes;
    var n := |entries| - 1;
    if n == 0 {
      assert entries[..0] == [] && entries[1..] == [];
      assert BuildBytes(entries) == [] + EntryBytes(entries[0]);
    } else {
      BuildFront(entries[..n]);
      var rest := entries[1..];
      assert entries[..n][1..] == rest[..n - 1] && rest[n - 1] == entries[n] && entries[..n][0] == entries[0];
      Assoc(EntryBytes(entries[0]), BuildBytes(rest[..n - 1]), EntryBytes(entries[n]));
    }
  }

  lemma Assoc(a: seq<u8>, b: seq<u8>, c: seq<u8>)
    ensures (a + b) + c == a + (b + c)
  {}

  lemma EntryParsed(pre: seq<u8>, e: AdEntry, tail: seq<u8>)
    requires |e.data| <= ENTRY_MAX
    ensures NextAt(pre + (EntryBytes(e) + tail), |pre|) == (Some(Ok(e)), |pre + EntryBytes(e)|)
  {
    var buf := pre + (EntryBytes(e) + tail);
    assert buf[|pre|] == |e.data| + 1 && buf[|pre| + 1] == e.adType;
    assert buf[|pre| + 2..|pre| + 2 + |e.data|] == e.data;
  }

  /** Parsing what `build` wrote yields the entries. */
  lemma {:induction false} ParseBuilt(pre: seq<u8>, entries: seq<AdEntry>)
    requires Packable(entries)
    ensures Entries(pre + BuildBytes(entries), |pre|) == Ok(entries)
    decreases |entries|
  {
    hide BuildBytes, EntryBytes, NextAt;
    var buf := pre + BuildBytes(entries);
    if entries == [] {
      BuildEmpty();
      assert buf == pre;
      EndOfBuffer(buf);
    } else {
      var e := entries[0];
      BuildFront(entries);
      EntryParsed(pre, e, BuildBytes(entries[1..]));
      Assoc(pre, EntryBytes(e), BuildBytes(entries[1..]));
      ParseBuilt(pre + EntryBytes(e), entries[1..]);
      assert entries == [e] + entries[1..];
    }
  }

  lemma EndOfBuffer(buf: seq<u8>)
    ensures NextAt(buf, |buf|) == (None, |buf|)
  {}

  lemma BuildEmpty()
    ensures BuildBytes([]) == []
  {}

  /** A buffer that parses without error is what `build` writes for its entries, so `build` and iteration
      are inverse on every valid buffer. */
  lemma {:induction false} BuildParsed(buf: seq<u8>, pos: nat)
    requires pos <= |buf| && Entries(buf, pos).Ok?
    ensures Packable(Entries(buf, pos).value) && BuildBytes(Entries(buf, pos).value) == buf[pos..]
    decreases |buf| - pos
  {
    hide BuildBytes;
    if pos == |buf| {
      BuildEmpty();
    } else {
      var entries := Entries(buf, pos).value;
      var next := pos + 1 + buf[pos];
      BuildParsed(buf, next);
      BuildFront(entries);
      assert entries[1..] == Entries(buf, next).value;
      assert buf[pos..] == EntryBytes(entries[0]) + buf[next..];
    }
  }

  /** Where the iterator stands after `n` more calls. */
  function PosAfter(buf: seq<u8>, pos: nat, n: nat): nat
    decreases n
  {
    if n == 0 then pos else NextAt(buf, PosAfter(buf, pos, n - 1)).1
  }

  /** Once an iterator reports the end or an error, every later call reports the same. */
  lemma {:induction false} ErrorRepeats(buf: seq<u8>, pos: nat, n: nat)
    requires NextAt(buf, pos).0.None? || NextAt(buf, pos).0.value.Err?
    ensures PosAfter(buf, pos, n) == pos
    ensures NextAt(buf, PosAfter(buf, pos, n)) == NextAt(buf, pos)
    decreases n
  {
    if n > 0 {
      ErrorRepeats(buf, pos, n - 1);
    }
  }

  lemma {:induction false} NoErrorMeansPackable(entries: seq<AdEntry>, capacity: nat)
    requires Packed(entries, capacity) == |entries|
    ensures BuildError(entries, capacity) == None && Packable(entries)
    ensures entries != [] ==> |BuildBytes(entries)| <= capacity
    decreases |entries|
  {
    if entries != [] {
      NoErrorMeansPackable(entries[..|entries| - 1], capacity);
    }
  }

  /** `build` succeeds exactly when no entry is longer than 254 bytes and all of them fit the buffer. */
  lemma {:induction false} BuildsIffItFits(entries: seq<AdEntry>, capacity: nat)
    ensures BuildError(entries, capacity) == None <==> Packable(entries) && |BuildBytes(entries)| <= capacity
    decreases |entries|
  {
    var k := Packed(entries, capacity);
    PackedError(entries, capacity);
    if k == |entries| {
      NoErrorMeansPackable(entries, capacity);
    } else {
      var e := entries[k];
      assert entries[..k + 1][..k] == entries[..k];
      EntryLength(e);
      PrefixShorter(entries, k + 1);
    }
  }

  lemma {:induction false} PackedError(entries: seq<AdEntry>, capacity: nat)
    ensures var k := Packed(entries, capacity);
            k < |entries| ==> EntryError(entries[k], |BuildBytes(entries[..k])|, capacity).Some?
    decreases |entries|
  {
    hide EntryError, EntryBytes;
    if entries != [] {
      var n, k := |entries| - 1, Packed(entries, capacity);
      PackedError(entries[..n], capacity);
      if k < n {
        assert entries[..n][..k] == entries[..k];
      }
    }
  }

  lemma {:induction false} PrefixShorter(entries: seq<AdEntry>, n: nat)
    requires n <= |entries|
    ensures |BuildBytes(entries[..n])| <= |BuildBytes(entries)|
    decreases |entries|
  {
    hide EntryBytes;
    var m := |entries| - 1;
    if n == |entries| {
      assert entries[..n] == entries;
    } else {
      assert entries[..m][..n] == entries[..n];
      PrefixShorter(entries[..m], n);
    }
  }

  /** Which error stops `build`: of the first entry that cannot be packed, its own length before the room. */
  lemma {:induction false} FirstFailure(entries: seq<AdEntry>, capacity: nat, k: nat)
    requires k < |entries| && (forall i :: 0 <= i < k ==> |entries[i].data| <= 254) && |BuildBytes(entries[..k])| <= capacity
    requires |entries[k].data| > 254 || |BuildBytes(entries[..k])| + 2 + |entries[k].data| > capacity
    ensures BuildError(entries, capacity) == Some(if |entries[k].data| > 254 then InvalidLength else BufferTooSmall)
  {
    assert Packable(entries[..k]);
    BuildsIffItFits(entries[..k], capacity);
    AllPackedLength(entries[..k], capacity);
    PackedStops(entries, k, capacity);
  }

  lemma AllPackedLength(entries: seq<AdEntry>, capacity: nat)
    requires BuildError(entries, capacity) == None
    ensures Packed(entries, capacity) == |entries|
  {
    PackedError(entries, capacity);
  }

  /** Where entry `k` stands in what `build` wrote: its length byte counts type and data. */
  lemma {:induction false} EntryLayout(entries: seq<AdEntry>, k: nat)
    requires k < |entries| && Packable(entries)
    ensures var b, at := BuildBytes(entries), |BuildBytes(entries[..k])|; var e := entries[k];
            && at + 2 + |e.data| <= |b| && b[at] == |e.data| + 1 && b[at + 1] == e.adType && b[at + 2..at + 2 + |e.data|] == e.data
    decreases |entries|
  {
    hide EntryBytes;
    var n := |entries| - 1;
    if k < n {
      EntryLayout(entries[..n], k);
      assert entries[..n][..k] == entries[..k];
      AtPrefix(BuildBytes(entries[..n]), EntryBytes(entries[n]), |BuildBytes(entries[..k])|, |entries[k].data|);
    } else {
      AtEnd(BuildBytes(entries[..n]), entries[n]);
    }
  }

  lemma AtPrefix(a: seq<u8>, b: seq<u8>, at: nat, n: nat)
    requires at + 2 + n <= |a|
    ensures var c := a + b; c[at] == a[at] && c[at + 1] == a[at + 1] && c[at + 2..at + 2 + n] == a[at + 2..at + 2 + n]
  {}

  lemma AtEnd(a: seq<u8>, e: AdEntry)
    requires |e.data| <= ENTRY_MAX
    ensures var c, at := a + EntryBytes(e), |a|;
            |c| == at + 2 + |e.data| && c[at] == |e.data| + 1 && c[at + 1] == e.adType && c[at + 2..at + 2 + |e.data|] == e.data
  {}

  lemma AllPacked(entries: seq<AdEntry>, capacity: nat)
    requires BuildError(entries, capacity) == None
    ensures entries[..Packed(entries, capacity)] == entries
  {
    PackedError(entries, capacity);
  }
}
