/** From the firmware's memory map to the free list: what the allocator holds when booting is over. */
module BootFreeList {
  import opened PageEntry
  import opened Runs
  import opened RingQueue
  import opened AllocatorSpec
  import opened Ownership
  import opened Conservation
  import opened BootMap
  import opened PageAllocator

  /** The range lies below 2^56, where the free list can name every page. */
  predicate InMemory(e: MemEntry) { e.addr + e.len <= PAGE_LIMIT * PAGE_SIZE }

  // ----- Trimming keeps entries apart -----

  lemma TrimKeepsApart(a: MemEntry, b: MemEntry, kernelEnd: Word)
    requires InMemory(a) && InMemory(b) && Apart(a, b) && LOW_LIMIT <= kernelEnd
    requires Trimmed(a, kernelEnd).1 && Trimmed(b, kernelEnd).1
    ensures Apart(Trimmed(a, kernelEnd).0, Trimmed(b, kernelEnd).0)
  {
    TrimKeepsPages(a, kernelEnd, 0);
    TrimKeepsPages(b, kernelEnd, 0);
  }

  lemma {:induction false} KeptApart(es: seq<MemEntry>, kernelEnd: Word)
    requires PairwiseApart(es) && LOW_LIMIT <= kernelEnd && forall i :: 0 <= i < |es| ==> InMemory(es[i])
    ensures PairwiseApart(Kept(es, kernelEnd))
    ensures forall k :: 0 <= k < |Kept(es, kernelEnd)| ==> InMemory(Kept(es, kernelEnd)[k])
    decreases |es|
  {
    hide Trimmed, Apart;
    if es != [] {
      var init, last := es[..|es| - 1], es[|es| - 1];
      KeptApart(init, kernelEnd);
      var kept := Kept(init, kernelEnd);
      var f := Trimmed(last, kernelEnd);
      if f.1 {
        forall k | 0 <= k < |kept| ensures Apart(kept[k], f.0) {
          var i := KeptFrom(init, kernelEnd, k);
          assert Apart(es[i], es[|es| - 1]);
          TrimKeepsApart(es[i], last, kernelEnd);
        }
        TrimKeepsPages(last, kernelEnd, 0);
      }
    }
  }

  // ----- Donations -----

  lemma {:induction false} DonatedIsFreed(es: seq<MemEntry>, p: int)
    ensures p in Donated(Donations(es)) <==> exists k :: 0 <= k < |es| && Freed(es[k], p)
    decreases |es|
  {
    hide Freed;
    if es != [] {
      var init := es[..|es| - 1];
      var ops := Donations(es);
      assert ops[..|ops| - 1] == Donations(init);
      DonatedIsFreed(init, p);
      DonationIsFreed(es[|es| - 1]);
      if k :| 0 <= k < |es| && Freed(es[k], p) {
        assert k < |init| ==> Freed(init[k], p);
      }
    }
  }

  /** An entry is freed within what the free list can name, even where the rounding frees a page too many. */
  lemma DonationInReach(e: MemEntry)
    requires InMemory(e)
    ensures Donation(e).addr / PAGE_SIZE + Donation(e).size / PAGE_SIZE <= PAGE_LIMIT
  {
    RoundedAddress(e.addr);
  }

  /** The allocator before anything is donated. */
  ghost predicate Blank(s: Pmem) {
    s.ring.live == [] && s.ring.dead != [] && AllZero(s.ring.dead) && s.ring.cnt == 0 && s.freeMem == 0
  }

  /** A page that nobody holds and that was not donated is in no slot of the ring. */
  lemma NotListed(w: World, donated: set<int>, p: int)
    requires Conserved(w, donated) && p !in donated && p != 0
    ensures Cover(w.mem.ring.Slots(), p) == 0
  {
    hide Sum, RingOk;
    var r := w.mem.ring;
    assert Accounted(w, donated, p);
    SumConcat(r.live, r.dead, CoverOf(p));
    CoverOfZeros(r.dead, p);
  }

  /** One boot call, as a step of a run in which nobody holds a page. */
  lemma BootStep(s: Pmem, e: MemEntry, s': Pmem, donated: set<int>)
    requires Conserved(World(s, map[]), donated) && InMemory(e)
    requires Frees(s, Donation(e).addr, Donation(e).size, s', true) && DonatedBy(Donation(e)) !! donated
    ensures Conserved(World(s', map[]), donated + DonatedBy(Donation(e)))
  {
    hide Conserved, Frees, Sum, PageRange;
    var w, d := World(s, map[]), Donation(e);
    DonationInReach(e);
    forall p | p in PageRange(d.addr, d.size / PAGE_SIZE) && p != 0 ensures Cover(w.mem.ring.Slots(), p) == 0 {
      NotListed(w, donated, p);
    }
    StepConserves(w, d, World(s', map[]), donated);
  }

  lemma DonatedStep(es: seq<MemEntry>, n: nat)
    requires 0 < n <= |es|
    ensures |Donations(es)| == |es|
    ensures Donated(Donations(es)[..n]) == Donated(Donations(es)[..n - 1]) + DonatedBy(Donation(es[n - 1]))
  {
    DonationsAt(es);
    var ops := Donations(es);
    assert ops[..n][..n - 1] == ops[..n - 1];
  }

  /** Every state of the boot loop conserves the pages donated so far. */
  lemma {:induction false} BootConserves(states: seq<Pmem>, es: seq<MemEntry>, n: nat)
    requires Donates(states, es, true) && Blank(states[0]) && n <= |es|
    requires PairwiseApart(es) && forall i :: 0 <= i < |es| ==> InMemory(es[i])
    ensures |Donations(es)| == |es|
    ensures Conserved(World(states[n], map[]), Donated(Donations(es)[..n]))
    decreases n
  {
    hide Conserved, Frees, Apart, Donated, Donations, DonatedBy, Donation;
    DonationsAt(es);
    if n == 0 {
      NothingDonated();
      StartConserved(World(states[0], map[]));
    } else {
      BootConserves(states, es, n - 1);
      BootDonationsAreDisjoint(es);
      DonatedStep(es, n);
      BootStep(states[n - 1], es[n - 1], states[n], Donated(Donations(es)[..n - 1]));
    }
  }

  lemma NothingDonated()
    ensures Donated([]) == {}
  {
  }

  // ----- A ring with room is never compacted -----

  /** With more slots than entries made, no boot call compacts. */
  lemma {:induction false} RoomyBootIsExact(states: seq<Pmem>, es: seq<MemEntry>)
    requires Donates(states, es, false) && |states[0].ring.dead| > EntriesMade(es)
    ensures Donates(states, es, true) && |states[|es|].ring.dead| == |states[0].ring.dead| - EntriesMade(es)
    decreases |es|
  {
    hide Chunks, InsertsAll;
    if es != [] {
      var n := |es| - 1;
      var init, d := es[..n], Donation(es[n]);
      assert Donates(states[..n + 1], init, false);
      RoomyBootIsExact(states[..n + 1], init);
      RoomIsExact(states[n].ring, Chunks(d.addr, d.size / PAGE_SIZE), states[n + 1].ring);
      forall k | 0 <= k < |es|
        ensures Frees(states[k], Donation(es[k]).addr, Donation(es[k]).size, states[k + 1], true)
      {
        if k < n {
          assert Frees(states[..n + 1][k], Donation(init[k]).addr, Donation(init[k]).size, states[..n + 1][k + 1],
            true);
        }
      }
    }
  }

  // ----- The whole way -----

  /** The map as pmem_init reads it: the kept entries, and then zeroed ones, since the count it is told is
      that of the firmware's map. */
  ghost predicate IsBootMap(map_: seq<MemEntry>, kept: seq<MemEntry>) {
    |kept| <= |map_| && map_[..|kept|] == kept
    && forall k :: |kept| <= k < |map_| ==> map_[k].addr == 0 && map_[k].len == 0
  }

  lemma ZeroEntry(e: MemEntry, p: int)
    requires e.addr == 0 && e.len == 0
    ensures InMemory(e) && !Freed(e, p)
    ensures forall f :: Apart(f, e)
  {
  }

  /** The zeroed entries free nothing and are in nobody's way. */
  lemma ZeroEntriesAreHarmless(map_: seq<MemEntry>, kept: seq<MemEntry>, p: int)
    requires IsBootMap(map_, kept) && PairwiseApart(kept)
    requires forall k :: 0 <= k < |kept| ==> InMemory(kept[k])
    ensures PairwiseApart(map_) && forall k :: 0 <= k < |map_| ==> InMemory(map_[k])
    ensures (exists k :: 0 <= k < |map_| && Freed(map_[k], p)) <==> exists k :: 0 <= k < |kept| && Freed(kept[k], p)
  {
    hide InMemory, Freed, Apart;
    forall k | 0 <= k < |map_|
      ensures InMemory(map_[k])
      ensures k < |kept| ==> map_[k] == kept[k]
      ensures k >= |kept| ==> !Freed(map_[k], p) && forall f :: Apart(f, map_[k])
    {
      if k < |kept| {
        assert map_[k] == map_[..|kept|][k];
      } else {
        ZeroEntry(map_[k], p);
      }
    }
    if k :| 0 <= k < |kept| && Freed(kept[k], p) {
      assert Freed(map_[k], p);
    }
  }

  /** For a firmware map of disjoint entries, and a ring with a slot to spare for every entry made: when pmem_init
      is done the free list covers each page exactly once if boot freed it, and no other page at all; and `free_mem`
      is the size of those pages. */
  lemma BootFreeListIsExact(es: seq<MemEntry>, kernelEnd: Word, map_: seq<MemEntry>, states: seq<Pmem>, p: int)
    requires LOW_LIMIT <= kernelEnd && PairwiseApart(es) && forall i :: 0 <= i < |es| ==> InMemory(es[i])
    requires IsBootMap(map_, Kept(es, kernelEnd))
    requires Donates(states, map_, false) && Blank(states[0]) && |states[0].ring.dead| > EntriesMade(map_)
    ensures var s := states[|map_|];
      && Cover(s.ring.live, p) == (if FreedAtBoot(es, kernelEnd, p) then 1 else 0)
      && s.freeMem == PAGE_SIZE * Total(s.ring.live)
  {
    hide Kept, Apart, Freed, Tidy, Donated, IsBootMap;
    KeptApart(es, kernelEnd);
    ZeroEntriesAreHarmless(map_, Kept(es, kernelEnd), p);
    RoomyBootIsExact(states, map_);
    BootConserves(states, map_, |map_|);
    var ops := Donations(map_);
    assert ops[..|map_|] == ops;
    DonatedIsFreed(map_, p);
    assert Accounted(World(states[|map_|], map[]), Donated(ops), p);
  }

  // ----- The size of the ring -----

  /** A page count as int32_t. */
  function Int32(x: int): int { (x + 0x8000_0000) % 0x1_0000_0000 - 0x8000_0000 }

  /** Half the pages of available memory, by C's division, plus one. */
  function RingSize(memorySize: Word): int {
    var pages := Int32(RoundUp(memorySize) / PAGE_SIZE);
    (if pages < 0 then -(-pages / 2) else pages / 2) + 1
  }

  /** The bytes of all entries, of any type. */
  function TotalLength(es: seq<MemEntry>): nat {
    if es == [] then 0 else TotalLength(es[..|es| - 1]) + es[|es| - 1].len
  }

  /** The available entries. */
  function Available(es: seq<MemEntry>): seq<MemEntry> {
    if es == [] then []
    else
      var e := es[|es| - 1];
      Available(es[..|es| - 1]) + if e.kind == 1 then [e] else []
  }

  /** The memory size is that of the available entries, as the firmware gives them, in 64 bits. */
  lemma {:induction false} MemorySizeIsAvailable(es: seq<MemEntry>)
    ensures AvailableSize(es) == TotalLength(Available(es)) % 0x1_0000_0000_0000_0000
  {
    if es != [] {
      var init, e := es[..|es| - 1], es[|es| - 1];
      MemorySizeIsAvailable(init);
      var all, before := Available(es), Available(init);
      SumInWords(TotalLength(before), if e.kind == 1 then e.len else 0);
      if e.kind == 1 {
        assert all == before + [e] && all[|all| - 1] == e && all[..|all| - 1] == before;
      } else {
        assert all == before;
      }
    }
  }

  lemma SumInWords(x: nat, y: nat)
    ensures (x % WORD_LIMIT + y) % WORD_LIMIT == (x + y) % WORD_LIMIT
  {
  }

  /** For less than 8TiB of memory the ring has a slot for each two pages begun and one more; from there to 16TiB the
      page count is negative and the ring has no more than one slot, so that nothing can be freed into it. */
  lemma RingSizeMeaning(memorySize: Word)
    ensures memorySize <= 0x7ff_ffff_f000 ==>
      0x2000 * (RingSize(memorySize) - 1) <= memorySize + 0xfff < 0x2000 * RingSize(memorySize)
    ensures 0x7ff_ffff_f000 < memorySize <= 0xfff_ffff_f000 ==> RingSize(memorySize) <= 1
  {
    hide RingSize;
    RoundUpMeaning(memorySize);
    var pages := RoundUp(memorySize) / PAGE_SIZE;
    hide RoundUp;
    RingSizeOf(memorySize, pages);
  }

  lemma RingSizeOf(memorySize: Word, pages: nat)
    requires pages == RoundUp(memorySize) / PAGE_SIZE
    ensures pages < 0x8000_0000 ==> RingSize(memorySize) == pages / 2 + 1
    ensures 0x8000_0000 <= pages < 0x1_0000_0000 ==> RingSize(memorySize) <= 1
  {
    hide RoundUp;
  }

  const ENTRY_BYTES := 0x1_0000_0000

  /** There are at least two pages of available memory for every entry of the map and for every 4GiB of its
      total length, and fewer than 2^31. */
  predicate EnoughMemory(es: seq<MemEntry>) {
    var pages := RoundUp(AvailableSize(es)) / PAGE_SIZE;
    pages < 0x8000_0000 && |es| + TotalLength(es) / ENTRY_BYTES <= pages / 2
  }

  lemma {:induction false} KeptIsShorter(es: seq<MemEntry>, kernelEnd: Word)
    requires LOW_LIMIT <= kernelEnd && forall i :: 0 <= i < |es| ==> InMemory(es[i])
    ensures |Kept(es, kernelEnd)| <= |es| && TotalLength(Kept(es, kernelEnd)) <= TotalLength(es)
    decreases |es|
  {
    hide Trimmed;
    if es != [] {
      var init, last := es[..|es| - 1], es[|es| - 1];
      KeptIsShorter(init, kernelEnd);
      var f := Trimmed(last, kernelEnd);
      if f.1 {
        TrimKeepsPages(last, kernelEnd, 0);
        assert f.0.len <= last.len;
        var kept := Kept(init, kernelEnd);
        assert Kept(es, kernelEnd) == kept + [f.0];
        assert (kept + [f.0])[..|kept + [f.0]| - 1] == kept;
        assert TotalLength(kept + [f.0]) == TotalLength(kept) + f.0.len;
      } else {
        assert Kept(es, kernelEnd) == Kept(init, kernelEnd) + [] == Kept(init, kernelEnd);
      }
    }
  }

  /** An entry of the map makes at most one entry of the ring more than its length has blocks of 4GiB. */
  lemma {:induction false} MadeBound(es: seq<MemEntry>)
    ensures EntriesMade(es) * ENTRY_BYTES <= TotalLength(es) + |es| * ENTRY_BYTES
    decreases |es|
  {
    hide Chunks;
    if es != [] {
      var e := es[|es| - 1];
      MadeBound(es[..|es| - 1]);
      ChunkCount(Donation(e).addr, Donation(e).size / PAGE_SIZE);
    }
  }

  lemma {:induction false} ZerosMakeNothing(map_: seq<MemEntry>, n: nat)
    requires n <= |map_| && forall k :: n <= k < |map_| ==> map_[k].len == 0
    ensures EntriesMade(map_) == EntriesMade(map_[..n])
    decreases |map_|
  {
    if n < |map_| {
      ZerosMakeNothing(map_[..|map_| - 1], n);
      assert map_[..|map_| - 1][..n] == map_[..n];
    } else {
      assert map_[..n] == map_;
    }
  }

  /** With that much memory the ring that pmem_init sets up has a slot to spare for every entry made. */
  lemma EnoughMemoryIsRoom(es: seq<MemEntry>, kernelEnd: Word, map_: seq<MemEntry>)
    requires LOW_LIMIT <= kernelEnd && forall i :: 0 <= i < |es| ==> InMemory(es[i])
    requires IsBootMap(map_, Kept(es, kernelEnd)) && EnoughMemory(es)
    ensures RingSize(AvailableSize(es)) > EntriesMade(map_)
  {
    hide Kept, EntriesMade, TotalLength, RoundUp, AvailableSize;
    var kept := Kept(es, kernelEnd);
    ZerosMakeNothing(map_, |kept|);
    MadeBound(kept);
    KeptIsShorter(es, kernelEnd);
  }

  /** The whole way in the code's steps: trimming the map into zeroed records, setting up the ring by the size
      of available memory, and freeing the records into the allocator. With enough memory and disjoint
      entries it goes through, and then the free list is exactly the whole pages of the map above the kernel if and
      only if every kept entry rounds well. */
  method Boot(entries: array<MemEntry>, map_: array<MemEntry>, kernelEnd: Word, memory: bool)
    returns (ok: bool, a: Allocator?)
    requires entries != map_ && entries.Length == map_.Length
    requires forall i :: 0 <= i < map_.Length ==> map_[i].addr == 0 && map_[i].len == 0
    modifies entries, map_
    ensures ok ==> a != null && a.Valid()
    ensures var es := old(entries[..]);
      memory && LOW_LIMIT <= kernelEnd && PairwiseApart(es) && EnoughMemory(es)
      && (forall i :: 0 <= i < |es| ==> InMemory(es[i])) ==>
        ok && a != null && (IsFreeList(a, es, kernelEnd) <==> AllRoundWell(Kept(es, kernelEnd)))
  {
    hide Kept, AllRoundWell, FreedAtBoot, WholeAbove, PairwiseApart, InMemory, EnoughMemory, EntriesMade, Donates,
      AvailableSize, Whole, RingSize;
    ghost var es, zeros := entries[..], map_[..];
    var count, memorySize := TrimMap(entries, map_, kernelEnd);
    ZeroTail(map_[..], zeros, Kept(es, kernelEnd), count);
    var q := new Queue();
    var ringSize := RingSize(memorySize);
    var status := q.Init(ringSize, memory && ringSize >= 0); // malloc has no memory for a negative size
    if status != 0 || ringSize == 0 { // on a ring of no slots the code would write behind it
      RingSizeUsable(es);
      return false, null;
    }
    a := new Allocator(q);
    ghost var start := a.Value();
    ghost var states;
    ok, states := PmemInit(a, map_);
    if memory && LOW_LIMIT <= kernelEnd && PairwiseApart(es) && EnoughMemory(es)
       && (forall i :: 0 <= i < |es| ==> InMemory(es[i]))
    {
      EnoughMemoryIsRoom(es, kernelEnd, map_[..]);
      BootFreeListIsExact(es, kernelEnd, map_[..], states, 0);
      forall p: int
        ensures Cover(a.Value().ring.live, p) == if FreedAtBoot(es, kernelEnd, p) then 1 else 0
      {
        BootFreeListIsExact(es, kernelEnd, map_[..], states, p);
      }
      MemoryIsSane(es);
      BootFreesWholePagesIff(es, kernelEnd);
      FreeListIff(a, es, kernelEnd);
    }
  }

  lemma MemoryIsSane(es: seq<MemEntry>)
    requires forall i :: 0 <= i < |es| ==> InMemory(es[i])
    ensures forall i :: 0 <= i < |es| ==> Sane(es[i])
  {
  }

  /** A free list of the pages that boot freed is one of the whole pages if and only if these are the same. */
  lemma FreeListIff(a: Allocator, es: seq<MemEntry>, kernelEnd: Word)
    requires a.Valid() && a.freeMem == PAGE_SIZE * Total(a.Value().ring.live)
    requires forall p: int :: Cover(a.Value().ring.live, p) == if FreedAtBoot(es, kernelEnd, p) then 1 else 0
    ensures IsFreeList(a, es, kernelEnd)
       <==> forall p :: FreedAtBoot(es, kernelEnd, p) <==> WholeAbove(es, kernelEnd, p)
  {
    hide FreedAtBoot, WholeAbove, Cover;
    forall p | FreedAtBoot(es, kernelEnd, p) != WholeAbove(es, kernelEnd, p) ensures !IsFreeList(a, es, kernelEnd) {
      assert Cover(a.Value().ring.live, p) != if WholeAbove(es, kernelEnd, p) then 1 else 0;
    }
  }

  /** The allocator lists each page wholly inside an entry, at or above the end of the kernel, exactly once,
      and no other page, and its counter is the size of those pages. */
  ghost predicate IsFreeList(a: Allocator?, es: seq<MemEntry>, kernelEnd: Word)
    reads a, if a != null then {a.btmLevel, a.btmLevel.queue} else {}
  {
    && a != null && a.Valid()
    && (forall p: int :: Cover(a.Value().ring.live, p) == if WholeAbove(es, kernelEnd, p) then 1 else 0)
    && a.freeMem == PAGE_SIZE * Total(a.Value().ring.live)
  }

  lemma ZeroTail(map_: seq<MemEntry>, zeros: seq<MemEntry>, kept: seq<MemEntry>, count: nat)
    requires count == |kept| <= |map_| == |zeros| && map_[..count] == kept && map_[count..] == zeros[count..]
    requires forall i :: 0 <= i < |zeros| ==> zeros[i].addr == 0 && zeros[i].len == 0
    ensures IsBootMap(map_, kept)
  {
    forall k | count <= k < |map_| ensures map_[k].addr == 0 && map_[k].len == 0 {
      assert map_[k] == map_[count..][k - count] == zeros[count..][k - count];
    }
  }

  lemma RingSizeUsable(es: seq<MemEntry>)
    ensures EnoughMemory(es) ==> RingSize(AvailableSize(es)) > 0
  {
    hide RoundUp, RingSize, AvailableSize, TotalLength;
    RingSizeOf(AvailableSize(es), RoundUp(AvailableSize(es)) / PAGE_SIZE);
  }
}
