/** From the firmware's memory map to the pages that the allocator is given at boot. */
module BootMap {
  import opened PageEntry
  import opened Ownership
  import opened Conservation
  import opened Ring
  import opened AllocatorSpec
  import opened PageAllocator

  const LOW_LIMIT: Word := 0x20_0000
  const AVAILABLE := 1

  /** An entry of the memory map: a byte range and its type. */
  datatype MemEntry = MemEntry(addr: Word, len: Word, kind: nat)

  /** The range does not wrap past the end of the address space, nor does its last page. */
  predicate Sane(e: MemEntry) { e.addr + e.len <= WORD_LIMIT - PAGE_SIZE }

  // ----- Trimming one entry -----

  /** An entry after the in-place trimming, and whether it is kept: everything below 2MiB goes, then
      everything below the end of the kernel, which starts at 2MiB. */
  function Trimmed(e: MemEntry, kernelEnd: Word): (MemEntry, bool) {
    if e.addr < LOW_LIMIT && LOW_LIMIT - e.addr >= e.len then (e, false)
    else
      var f := if e.addr < LOW_LIMIT then MemEntry(LOW_LIMIT, e.len - (LOW_LIMIT - e.addr), e.kind) else e;
      if (f.addr + f.len) % WORD_LIMIT < kernelEnd then (f, false)
      else if f.addr < kernelEnd then
        (MemEntry(kernelEnd, (f.len - (kernelEnd - f.addr)) % WORD_LIMIT, f.kind), true)
      else (f, true)
  }

  /** The kept entries, in order. */
  function Kept(es: seq<MemEntry>, kernelEnd: Word): seq<MemEntry> {
    if es == [] then []
    else
      var (f, keep) := Trimmed(es[|es| - 1], kernelEnd);
      Kept(es[..|es| - 1], kernelEnd) + if keep then [f] else []
  }

  /** The sum of the lengths of the available entries, in 64 bits. */
  function AvailableSize(es: seq<MemEntry>): Word {
    if es == [] then 0
    else
      var e := es[|es| - 1];
      (AvailableSize(es[..|es| - 1]) + if e.kind == AVAILABLE then e.len else 0) % WORD_LIMIT
  }

  lemma KeptStep(es: seq<MemEntry>, kernelEnd: Word, j: nat)
    requires j < |es|
    ensures var (f, keep) := Trimmed(es[j], kernelEnd);
      Kept(es[..j + 1], kernelEnd) == Kept(es[..j], kernelEnd) + if keep then [f] else []
    ensures AvailableSize(es[..j + 1])
         == (AvailableSize(es[..j]) + if es[j].kind == AVAILABLE then es[j].len else 0) % WORD_LIMIT
  {
    assert es[..j + 1][..j] == es[..j] && es[..j + 1][j] == es[j];
  }

  /** The memory-map case of set_bootinfo: trims each entry in place and copies those it keeps to `map`.
      The code indexes `map`, which has room for every entry, unchecked. */
  method TrimMap(entries: array<MemEntry>, map_: array<MemEntry>, kernelEnd: Word)
    returns (count: nat, memorySize: Word)
    requires entries != map_ && entries.Length <= map_.Length
    modifies entries, map_
    ensures var es := old(entries[..]);
      && count == |Kept(es, kernelEnd)| <= map_.Length && map_[..count] == Kept(es, kernelEnd)
      && map_[count..] == old(map_[..])[count..]
      && memorySize == AvailableSize(es)
      && forall i :: 0 <= i < |es| ==> entries[i] == Trimmed(es[i], kernelEnd).0
  {
    hide Trimmed, Kept, AvailableSize;
    ghost var es, rest := entries[..], map_[..];
    count, memorySize := 0, 0;
    assert Kept(es[..0], kernelEnd) == [] && AvailableSize(es[..0]) == 0 by { NothingKept(kernelEnd); }
    var j := 0;
    while j < entries.Length
      invariant j <= entries.Length && count <= j
      invariant map_[..count] == Kept(es[..j], kernelEnd) && map_[count..] == rest[count..]
      invariant memorySize == AvailableSize(es[..j])
      invariant forall i :: 0 <= i < j ==> entries[i] == Trimmed(es[i], kernelEnd).0
      invariant forall i :: j <= i < |es| ==> entries[i] == es[i]
    {
      KeptStep(es, kernelEnd, j);
      ghost var kept, tail := map_[..count], map_[count..];
      if entries[j].kind == AVAILABLE {
        memorySize := (memorySize + entries[j].len) % WORD_LIMIT;
      }
      var keep := TrimEntry(entries, j, kernelEnd);
      if keep {
        map_[count] := entries[j];
        count := count + 1;
        assert map_[..count] == kept + [entries[j]];
        assert map_[count..] == tail[1..] == rest[count..];
      }
      j := j + 1;
    }
    assert es[..j] == es;
  }

  lemma NothingKept(kernelEnd: Word)
    ensures Kept([], kernelEnd) == [] && AvailableSize([]) == 0
  {
  }

  /** The body of that loop up to the copy. */
  method TrimEntry(entries: array<MemEntry>, j: nat, kernelEnd: Word) returns (keep: bool)
    requires j < entries.Length
    modifies entries
    ensures entries[..] == old(entries[..])[j := entries[j]]
    ensures (entries[j], keep) == Trimmed(old(entries[j]), kernelEnd)
  {
    if entries[j].addr < LOW_LIMIT {
      var diff := LOW_LIMIT - entries[j].addr;
      if diff >= entries[j].len {
        return false;
      }
      entries[j] := entries[j].(addr := entries[j].addr + diff, len := entries[j].len - diff);
    }
    if entries[j].addr >= LOW_LIMIT {
      var diff := kernelEnd - entries[j].addr;
      if (entries[j].addr + entries[j].len) % WORD_LIMIT < kernelEnd {
        return false;
      }
      if entries[j].addr < kernelEnd {
        entries[j] := entries[j].(addr := entries[j].addr + diff, len := (entries[j].len - diff) % WORD_LIMIT);
      }
    }
    return true;
  }

  // ----- Which pages are given to the allocator -----

  /** The page lies wholly inside the byte range. */
  predicate Whole(e: MemEntry, p: int) { e.addr <= p * PAGE_SIZE && (p + 1) * PAGE_SIZE <= e.addr + e.len }

  /** What pmem_init frees for an entry: it rounds the length down, and then the address up. */
  function Donation(e: MemEntry): Op { Donate(RoundUp(e.addr), e.len - e.len % PAGE_SIZE) }

  predicate Freed(e: MemEntry, p: int) {
    RoundUp(e.addr) / PAGE_SIZE <= p < RoundUp(e.addr) / PAGE_SIZE + e.len / PAGE_SIZE
  }

  lemma DonationIsFreed(e: MemEntry)
    ensures forall p :: p in DonatedBy(Donation(e)) <==> Freed(e, p)
  {
  }

  /** An entry whose rounding is harmless: it starts on a page boundary, or the start offset and the length
      beyond whole pages make up a page, or it has no whole page of length. */
  predicate RoundsWell(e: MemEntry) {
    e.addr % PAGE_SIZE == 0 || e.addr % PAGE_SIZE + e.len % PAGE_SIZE >= PAGE_SIZE || e.len < PAGE_SIZE
  }

  /** The rounding frees exactly the pages wholly inside the entry if and only if it is harmless. */
  lemma FreedIsWholeIffRoundsWell(e: MemEntry)
    requires Sane(e)
    ensures (forall p :: Freed(e, p) <==> Whole(e, p)) <==> RoundsWell(e)
  {
    var a, s, l, r := e.addr / PAGE_SIZE, e.addr % PAGE_SIZE, e.len / PAGE_SIZE, e.len % PAGE_SIZE;
    RoundedAddress(e.addr);
    if RoundsWell(e) {
      forall p ensures Freed(e, p) <==> Whole(e, p) {
        WholePages(e, p);
      }
    } else {
      var p := a + l;
      WholePages(e, p);
      assert Freed(e, p) && !Whole(e, p);
    }
  }

  lemma RoundedAddress(x: Word)
    requires x <= WORD_LIMIT - PAGE_SIZE
    ensures RoundUp(x) / PAGE_SIZE == x / PAGE_SIZE + if x % PAGE_SIZE == 0 then 0 else 1
    ensures RoundUp(x) % PAGE_SIZE == 0
  {
    RoundUpMeaning(x);
  }

  /** The pages wholly inside a range, by quotients and remainders. */
  lemma WholePages(e: MemEntry, p: int)
    ensures var a, s, l, r := e.addr / PAGE_SIZE, e.addr % PAGE_SIZE, e.len / PAGE_SIZE, e.len % PAGE_SIZE;
      Whole(e, p) <==> a + (if s == 0 then 0 else 1) <= p < a + l + (if s + r >= PAGE_SIZE then 1 else 0)
  {
  }

  /** Trimming keeps exactly the pages at or above the end of the kernel. */
  lemma TrimKeepsPages(e: MemEntry, kernelEnd: Word, p: int)
    requires Sane(e) && 0x20_0000 <= kernelEnd
    ensures var (f, keep) := Trimmed(e, kernelEnd);
      && (keep ==> Sane(f) && e.addr <= f.addr && f.addr + f.len == e.addr + e.len)
      && (Whole(e, p) && p * PAGE_SIZE >= kernelEnd <==> keep && Whole(f, p))
  {
  }

  /** In bytes: of an entry exactly what lies at or above the end of the kernel is kept, with its type. */
  lemma TrimKeepsBytes(e: MemEntry, kernelEnd: Word, b: int)
    requires Sane(e) && 0x20_0000 <= kernelEnd
    ensures var (f, keep) := Trimmed(e, kernelEnd);
      && f.kind == e.kind
      && (e.addr <= b < e.addr + e.len && b >= kernelEnd <==> keep && f.addr <= b < f.addr + f.len)
  {
  }

  /** A property of some kept entry is a property of some trimmed one. */
  lemma {:induction false} KeptFrom(es: seq<MemEntry>, kernelEnd: Word, k: nat) returns (i: nat)
    requires k < |Kept(es, kernelEnd)|
    ensures i < |es| && Trimmed(es[i], kernelEnd) == (Kept(es, kernelEnd)[k], true)
  {
    var init := Kept(es[..|es| - 1], kernelEnd);
    if k < |init| {
      i := KeptFrom(es[..|es| - 1], kernelEnd, k);
    } else {
      i := |es| - 1;
    }
  }

  lemma {:induction false} KeptAt(es: seq<MemEntry>, kernelEnd: Word, i: nat) returns (k: nat)
    requires i < |es| && Trimmed(es[i], kernelEnd).1
    ensures k < |Kept(es, kernelEnd)| && Kept(es, kernelEnd)[k] == Trimmed(es[i], kernelEnd).0
  {
    if i < |es| - 1 {
      k := KeptAt(es[..|es| - 1], kernelEnd, i);
    } else {
      k := |Kept(es[..|es| - 1], kernelEnd)|;
    }
  }

  /** The page is freed at boot. */
  ghost predicate FreedAtBoot(es: seq<MemEntry>, kernelEnd: Word, p: int) {
    exists k :: 0 <= k < |Kept(es, kernelEnd)| && Freed(Kept(es, kernelEnd)[k], p)
  }

  /** The page lies wholly inside some entry of the firmware's map, of any type, at or above the end of the
      kernel. */
  ghost predicate WholeAbove(es: seq<MemEntry>, kernelEnd: Word, p: int) {
    exists i :: 0 <= i < |es| && Whole(es[i], p) && p * PAGE_SIZE >= kernelEnd
  }

  ghost predicate AllRoundWell(es: seq<MemEntry>) {
    forall k :: 0 <= k < |es| ==> RoundsWell(es[k])
  }

  /** If every kept entry rounds well, the pages freed at boot are exactly those wholly inside some entry at or
      above the end of the kernel. */
  lemma BootFreesWholePagesAboveKernel(es: seq<MemEntry>, kernelEnd: Word, p: int)
    requires LOW_LIMIT <= kernelEnd && forall i :: 0 <= i < |es| ==> Sane(es[i])
    requires AllRoundWell(Kept(es, kernelEnd))
    ensures FreedAtBoot(es, kernelEnd, p) <==> WholeAbove(es, kernelEnd, p)
  {
    hide Kept, Trimmed, Freed, Whole, RoundsWell;
    var kept := Kept(es, kernelEnd);
    if k :| 0 <= k < |kept| && Freed(kept[k], p) {
      var i := KeptFrom(es, kernelEnd, k);
      TrimKeepsPages(es[i], kernelEnd, p);
      FreedIsWholeIffRoundsWell(kept[k]);
      assert Whole(es[i], p) && p * PAGE_SIZE >= kernelEnd;
    }
    if i :| 0 <= i < |es| && Whole(es[i], p) && p * PAGE_SIZE >= kernelEnd {
      TrimKeepsPages(es[i], kernelEnd, p);
      var k := KeptAt(es, kernelEnd, i);
      FreedIsWholeIffRoundsWell(kept[k]);
      assert Freed(kept[k], p);
    }
  }

  // ----- Feeding the allocator -----

  predicate Apart(a: MemEntry, b: MemEntry) { a.addr + a.len <= b.addr || b.addr + b.len <= a.addr }

  ghost predicate PairwiseApart(es: seq<MemEntry>) {
    forall i, j :: 0 <= i < j < |es| ==> Apart(es[i], es[j])
  }

  /** The page that the rounding of an entry frees too many begins inside the entry and ends behind it. */
  function ExtraPage(e: MemEntry): nat { e.addr / PAGE_SIZE + e.len / PAGE_SIZE }

  lemma ExtraPageIsFreed(e: MemEntry)
    requires Sane(e) && !RoundsWell(e)
    ensures Freed(e, ExtraPage(e)) && !Whole(e, ExtraPage(e))
    ensures e.addr <= ExtraPage(e) * PAGE_SIZE < e.addr + e.len
  {
    RoundedAddress(e.addr);
    WholePages(e, ExtraPage(e));
  }

  /** No entry apart from it holds the whole page either. */
  lemma ApartMissesPage(a: MemEntry, b: MemEntry, p: int)
    requires Apart(a, b) && a.addr <= p * PAGE_SIZE < a.addr + a.len
    ensures !Whole(b, p)
  {
  }

  lemma ExtraPageInNoEntry(es: seq<MemEntry>, kernelEnd: Word, k: nat)
    requires LOW_LIMIT <= kernelEnd && PairwiseApart(es) && forall i :: 0 <= i < |es| ==> Sane(es[i])
    requires k < |Kept(es, kernelEnd)| && !RoundsWell(Kept(es, kernelEnd)[k])
    ensures var p := ExtraPage(Kept(es, kernelEnd)[k]);
      FreedAtBoot(es, kernelEnd, p) && !WholeAbove(es, kernelEnd, p)
  {
    hide Kept, Trimmed, Freed, Whole, RoundsWell, Apart, ExtraPage;
    var e := Kept(es, kernelEnd)[k];
    var p := ExtraPage(e);
    var i := KeptFrom(es, kernelEnd, k);
    TrimKeepsPages(es[i], kernelEnd, p);
    ExtraPageIsFreed(e);
    forall j | 0 <= j < |es| && Whole(es[j], p) && p * PAGE_SIZE >= kernelEnd ensures false {
      if j != i {
        ApartIsSymmetric(es, i, j);
        ApartMissesPage(es[i], es[j], p);
      }
    }
  }

  lemma ApartIsSymmetric(es: seq<MemEntry>, i: nat, j: nat)
    requires PairwiseApart(es) && i < |es| && j < |es| && i != j
    ensures Apart(es[i], es[j])
  {
    assert Apart(es[if i < j then i else j], es[if i < j then j else i]);
  }

  /** For a map of disjoint entries the pages freed at boot are exactly those wholly inside some entry, at or above
      the end of the kernel, if and only if every kept entry rounds well. */
  lemma BootFreesWholePagesIff(es: seq<MemEntry>, kernelEnd: Word)
    requires LOW_LIMIT <= kernelEnd && PairwiseApart(es) && forall i :: 0 <= i < |es| ==> Sane(es[i])
    ensures (forall p :: FreedAtBoot(es, kernelEnd, p) <==> WholeAbove(es, kernelEnd, p))
       <==> AllRoundWell(Kept(es, kernelEnd))
  {
    hide Kept, FreedAtBoot, WholeAbove, RoundsWell, Apart;
    if AllRoundWell(Kept(es, kernelEnd)) {
      forall p ensures FreedAtBoot(es, kernelEnd, p) <==> WholeAbove(es, kernelEnd, p) {
        BootFreesWholePagesAboveKernel(es, kernelEnd, p);
      }
    } else {
      var k :| 0 <= k < |Kept(es, kernelEnd)| && !RoundsWell(Kept(es, kernelEnd)[k]);
      ExtraPageInNoEntry(es, kernelEnd, k);
    }
  }

  /** An input that fails: 0x1000 bytes from 0x200001 on hold no whole page, and page 0x201 is freed. */
  lemma MisroundedEntry(kind: nat)
    ensures var es := [MemEntry(0x20_0001, 0x1000, kind)];
      FreedAtBoot(es, LOW_LIMIT, 0x201) && forall p :: !WholeAbove(es, LOW_LIMIT, p)
  {
    var e := MemEntry(0x20_0001, 0x1000, kind);
    assert [e][..0] == [] && Trimmed(e, LOW_LIMIT) == (e, true);
    assert Kept([e], LOW_LIMIT) == [e];
    RoundedAddress(e.addr);
    assert Freed(Kept([e], LOW_LIMIT)[0], 0x201);
    forall p ensures !Whole(e, p) {
      WholePages(e, p);
    }
  }

  /** Even where the rounding frees a page too many, it is no page of an entry apart from this one. */
  lemma ApartFreesApart(a: MemEntry, b: MemEntry, p: int)
    requires Sane(a) && Sane(b) && Apart(a, b) && Freed(a, p)
    ensures !Freed(b, p)
  {
    RoundedAddress(a.addr);
    RoundedAddress(b.addr);
  }

  function Donations(es: seq<MemEntry>): seq<Op> {
    if es == [] then [] else Donations(es[..|es| - 1]) + [Donation(es[|es| - 1])]
  }

  lemma {:induction false} DonationsAt(es: seq<MemEntry>)
    ensures |Donations(es)| == |es| && forall k :: 0 <= k < |es| ==> Donations(es)[k] == Donation(es[k])
  {
    if es != [] {
      DonationsAt(es[..|es| - 1]);
    }
  }

  lemma {:induction false} DonatedBefore(es: seq<MemEntry>, n: nat, p: int) returns (k: nat)
    requires n <= |es| && p in Donated(Donations(es)[..if n <= |Donations(es)| then n else |Donations(es)|])
    ensures k < n && Freed(es[k], p)
    decreases n
  {
    DonationsAt(es);
    var ops := Donations(es)[..n];
    assert n > 0;
    assert ops[..n - 1] == Donations(es)[..n - 1];
    if p in Donated(ops[..n - 1]) {
      k := DonatedBefore(es, n - 1, p);
    } else {
      k := n - 1;
      DonationIsFreed(es[k]);
    }
  }

  /** Entries that are apart are donated apart, which is what conservation asks of the boot calls. */
  lemma BootDonationsAreDisjoint(es: seq<MemEntry>)
    requires PairwiseApart(es) && forall i :: 0 <= i < |es| ==> Sane(es[i])
    ensures DisjointDonations(Donations(es))
  {
    hide Freed;
    var ops := Donations(es);
    DonationsAt(es);
    forall i | 0 <= i < |ops| ensures DonatedBy(ops[i]) !! Donated(ops[..i]) {
      forall p | p in Donated(ops[..i]) ensures p !in DonatedBy(ops[i]) {
        var k := DonatedBefore(es, i, p);
        DonationIsFreed(es[i]);
        ApartFreesApart(es[k], es[i], p);
      }
    }
  }

  /** The states of the allocator while it is given the entries one after the other. */
  ghost predicate Donates(states: seq<Pmem>, es: seq<MemEntry>, exact: bool) {
    && |states| == |es| + 1
    && forall k :: 0 <= k < |es| ==>
         Frees(states[k], Donation(es[k]).addr, Donation(es[k]).size, states[k + 1], exact)
  }

  lemma DonatesOneMore(states: seq<Pmem>, es: seq<MemEntry>, e: MemEntry, s: Pmem)
    requires Donates(states, es, false)
    requires Frees(states[|es|], Donation(e).addr, Donation(e).size, s, false)
    ensures Donates(states + [s], es + [e], false)
  {
    hide Frees;
    var more, all := states + [s], es + [e];
    forall k | 0 <= k < |all| ensures Frees(more[k], Donation(all[k]).addr, Donation(all[k]).size, more[k + 1], false) {
      if k < |es| {
        assert all[k] == es[k] && more[k] == states[k] && more[k + 1] == states[k + 1];
      }
    }
  }

  /** The entries that the donations of a map make. */
  function EntriesMade(es: seq<MemEntry>): nat {
    if es == [] then 0
    else
      var d := Donation(es[|es| - 1]);
      EntriesMade(es[..|es| - 1]) + |Chunks(d.addr, d.size / PAGE_SIZE)|
  }

  lemma EntriesStep(es: seq<MemEntry>, i: nat)
    requires i < |es|
    ensures EntriesMade(es[..i + 1])
         == EntriesMade(es[..i]) + |Chunks(RoundUp(es[i].addr), (es[i].len - es[i].len % PAGE_SIZE) / PAGE_SIZE)|
    ensures EntriesMade(es[..i + 1]) <= EntriesMade(es)
    decreases |es| - i
  {
    hide Chunks, RoundUp;
    assert es[..i + 1][..i] == es[..i] && es[..i + 1][i] == es[i];
    if i + 1 < |es| {
      EntriesStep(es, i + 1);
    } else {
      assert es[..i + 1] == es;
    }
  }

  /** A boot call on a ring with room for all entries to come goes through, and leaves room for the rest. */
  lemma BootCallFits(es: seq<MemEntry>, i: nat, room: nat, s: Pmem, jammed: Ring)
    requires i < |es| && room > EntriesMade(es) && |s.ring.dead| == room - EntriesMade(es[..i])
    ensures var d := Donation(es[i]);
      && !Jams(s.ring, Chunks(d.addr, d.size / PAGE_SIZE), jammed)
      && forall s' :: Frees(s, d.addr, d.size, s', false) ==> |s'.ring.dead| == room - EntriesMade(es[..i + 1])
  {
    hide Chunks, InsertsAll, Jams, EntriesMade;
    var d := Donation(es[i]);
    EntriesStep(es, i);
    RoomNeverJams(s.ring, Chunks(d.addr, d.size / PAGE_SIZE), jammed);
    forall s' | Frees(s, d.addr, d.size, s', false) ensures |s'.ring.dead| == room - EntriesMade(es[..i + 1]) {
      RoomIsExact(s.ring, Chunks(d.addr, d.size / PAGE_SIZE), s'.ring);
    }
  }

  /** pmem_init's loop over the trimmed map: each entry, rounded, is freed into the allocator. `ok` is false
      when a call panics, which cannot happen with a slot to spare for every entry made. */
  method PmemInit(a: Allocator, map_: array<MemEntry>) returns (ok: bool, ghost states: seq<Pmem>)
    requires a.Valid() && map_ as object != a.btmLevel.queue
    modifies a, a.btmLevel, a.btmLevel.queue
    ensures a.Valid()
    ensures ok ==> Donates(states, map_[..], false) && states[0] == old(a.Value()) && states[map_.Length] == a.Value()
    ensures |old(a.Value()).ring.dead| > EntriesMade(map_[..]) ==> ok
  {
    hide Frees, Donates, EntriesMade, Jams;
    ghost var es := map_[..];
    ghost var room := |a.Value().ring.dead|;
    assert EntriesMade(es[..0]) == 0 by { NoEntriesMade(); }
    states := [a.Value()];
    assert Donates(states, es[..0], false) by { DonatesNothing(states); }
    var i := 0;
    while i < map_.Length
      invariant i <= map_.Length && map_[..] == es
      invariant a.Valid() && a.btmLevel.queue == old(a.btmLevel.queue)
      invariant |states| == i + 1 && Donates(states, es[..i], false)
      invariant states[0] == old(a.Value()) && states[i] == a.Value()
      invariant room > EntriesMade(es) ==> |a.Value().ring.dead| == room - EntriesMade(es[..i])
    {
      ghost var before := a.Value();
      var addr, len := map_[i].addr, map_[i].len;
      if len % PAGE_SIZE != 0 {
        len := len - len % PAGE_SIZE;
      }
      addr := RoundUp(addr);
      ok := a.Free(addr, len);
      if room > EntriesMade(es) {
        BootCallFits(es, i, room, before, a.btmLevel.Value());
        RoundUpMeaning(es[i].addr);
      }
      if !ok {
        return;
      }
      DonatesOneMore(states, es[..i], es[i], a.Value());
      assert es[..i] + [es[i]] == es[..i + 1];
      states := states + [a.Value()];
      i := i + 1;
    }
    assert es[..i] == es;
    ok := true;
  }

  lemma NoEntriesMade()
    ensures EntriesMade([]) == 0
  {
  }

  lemma DonatesNothing(states: seq<Pmem>)
    requires |states| == 1
    ensures Donates(states, [], false)
  {
  }
}
