/** A run of the allocator in which two clients come to hold page 0, which nobody ever freed. */
module PageZero {
  import opened PageEntry
  import opened Runs
  import opened Ring
  import opened RingSort
  import opened Compaction
  import opened AllocatorSpec
  import opened FirstFit
  import opened Ownership

  const A: Client := 0
  const B: Client := 1
  const SLOTS := 7

  /** The entry of a single page. */
  function Single(p: nat): (e: Word)
    requires p < 100
    ensures Page(e) == p && Count(e) == 1
  {
    p * MAX_ENTRIES
  }

  /** Some run takes the one world to the other. */
  ghost predicate Leads(w: World, w': World) {
    exists ws: seq<World>, ops: seq<Op> :: IsRun(ws, ops, false) && ws[0] == w && ws[|ws| - 1] == w'
  }

  lemma LeadsNowhere(w: World)
    ensures Leads(w, w)
  {
    assert IsRun([w], [], false);
  }

  lemma LeadsOn(w0: World, w: World, op: Op, w': World)
    requires Leads(w0, w) && Step(w, op, w', false)
    ensures Leads(w0, w')
  {
    hide Step;
    var ws, ops :| IsRun(ws, ops, false) && ws[0] == w0 && ws[|ws| - 1] == w;
    var ws', ops' := ws + [w'], ops + [op];
    forall i | 0 <= i < |ops'| ensures Step(ws'[i], ops'[i], ws'[i + 1], false) {
      if i < |ops| {
        assert Step(ws[i], ops[i], ws[i + 1], false);
      }
    }
    assert IsRun(ws', ops', false);
  }

  /** What the ring lists, and what the two clients hold. */
  ghost predicate Stands(w: World, live: seq<Word>, a: set<int>, b: set<int>) {
    && w.mem.ring.live == live && w.mem.ring.cnt == |live| < SLOTS && |live| + |w.mem.ring.dead| == SLOTS
    && Held(w, A) == a && Held(w, B) == b
  }

  // ----- The calls of the run -----

  /** A single page, put at the end of the ring. */
  lemma InsertsPage(r: Ring, p: nat)
    requires p < 100 && |r.dead| > 1
    ensures p * PAGE_SIZE < WORD_LIMIT
    ensures InsertsAll(r, Chunks(p * PAGE_SIZE, 1), Enqueue(r, Single(p)), false)
  {
    hide Chunks, Compacts, Single;
    ChunkOfPage(p);
    InsertsOne(r, Single(p), Enqueue(r, Single(p)));
  }

  /** One page makes one entry. */
  lemma ChunkOfPage(p: nat)
    requires p < 100
    ensures p * PAGE_SIZE < WORD_LIMIT && Chunks(p * PAGE_SIZE, 1) == [Single(p)]
  {
    assert BuildEntry(p * PAGE_SIZE, 1) == Single(p);
    assert Chunks(AddWord(p * PAGE_SIZE, PAGE_SIZE), 0) == [];
  }

  lemma InsertsOne(r: Ring, v: Word, r': Ring)
    requires Inserts(r, v, false, r', false)
    ensures InsertsAll(r, [v], r', false)
  {
    hide Inserts;
    assert [v][..0] == [];
    assert InsertsAll(r, [], r, false);
  }

  /** Nobody holds anything, and the slots behind the listed pages are clear. */
  ghost predicate Untouched(w: World) { w.holds == map[] && AllZero(w.mem.ring.dead) }

  lemma Donated(w0: World, w: World, live: seq<Word>, p: nat) returns (w': World)
    requires Leads(w0, w) && Stands(w, live, {}, {}) && Untouched(w) && |live| < SLOTS - 1 && 0 < p < 100
    requires forall i :: 0 <= i < |live| ==> !Covers(live[i], p)
    ensures Leads(w0, w') && Stands(w', live + [Single(p)], {}, {}) && Untouched(w')
  {
    var r := w.mem.ring;
    InsertsPage(r, p);
    w' := w.(mem := Pmem(Enqueue(r, Single(p)), AddWord(w.mem.freeMem, PAGE_SIZE)));
    assert PageRange(p * PAGE_SIZE, 1) == {p};
    CoverWitness(r.Slots(), p);
    assert Cover(r.Slots(), p) == 0;
    assert forall c :: !Holds(w, c, p);
    LeadsOn(w0, w, Donate(p * PAGE_SIZE, PAGE_SIZE), w');
  }

  lemma FreedByA(w0: World, w: World, live: seq<Word>, a: set<int>, b: set<int>, p: nat) returns (w': World)
    requires Leads(w0, w) && Stands(w, live, a, b) && |live| < SLOTS - 1 && p < 100 && p in a
    ensures Leads(w0, w') && Stands(w', live + [Single(p)], a - {p}, b)
  {
    var r := w.mem.ring;
    InsertsPage(r, p);
    assert PageRange(p * PAGE_SIZE, 1) == {p};
    w' := World(Pmem(Enqueue(r, Single(p)), AddWord(w.mem.freeMem, PAGE_SIZE)), w.holds[A := Held(w, A) - {p}]);
    LeadsOn(w0, w, Free(A, p * PAGE_SIZE, PAGE_SIZE), w');
  }

  /** What the clients hold when `c` gets some pages. */
  function With(c: Client, who: Client, held: set<int>, more: set<int>): set<int> {
    if c == who then held + more else held
  }

  /** One page: the first entry listed is long enough. */
  lemma PageGranted(w0: World, w: World, c: Client, live: seq<Word>, a: set<int>, b: set<int>) returns (w': World)
    requires Leads(w0, w) && Stands(w, live, a, b) && live != [] && Count(live[0]) == 1
    ensures Leads(w0, w') && Stands(w', live[1..], With(c, A, a, {Page(live[0])}), With(c, B, b, {Page(live[0])}))
  {
    var r, addr := w.mem.ring, Addr(live[0]);
    assert PagesNeeded(PAGE_SIZE) == 1 && PageRange(addr, 1) == {Page(live[0])};
    var after := Pmem(Dequeue(r), SubWord(w.mem.freeMem, PAGE_SIZE));
    assert Allocs(w.mem, PAGE_SIZE, after, Address(addr), false);
    w' := World(after, w.holds[c := Held(w, c) + PageRange(addr, 1)]);
    LeadsOn(w0, w, Alloc(c, PAGE_SIZE, Address(addr)), w');
  }

  /** The queue is sorted, nothing in it is long enough for two pages, and compaction makes it `mid`, whose `i`-th
      entry is the first that is, and holds just two. */
  ghost predicate CompactsTo(live: seq<Word>, mid: seq<Word>, i: nat) {
    && live != [] && NoneFits(live, 2) && SortOf(live, live) && IsFirstFit(mid, 2, i) && Count(mid[i]) == 2
    && forall dead :: Compacted(Ring(live, dead, |live|), live).live == mid
  }

  lemma PairFound(r: Ring, live: seq<Word>, mid: seq<Word>, i: nat) returns (turned: Ring, m: Ring, after: Ring)
    requires r.live == live && r.cnt == |live| && r.dead != [] && CompactsTo(live, mid, i)
    ensures i < |mid| && ScanPass(r, r.cnt, 2) == NotFound(turned) && Compacts(turned, m, false) && m.dead != []
    ensures ScanPass(m, m.cnt, 2) == Found(Addr(mid[i]), after)
    ensures after.live == mid[i + 1..] + mid[..i] && after.cnt == |after.live| && after.Size() == r.Size()
  {
    hide ScanPass, Take, Turned, Sorted, MergeFrom;
    PassIsFirstFit(r, 2);
    turned := ScanPass(r, r.cnt, 2).after;
    ScanKeepsSlots(r, r.cnt, 2);
    assert turned == Ring(live, turned.dead, |live|);
    m := Compacted(turned, live);
    MergeShape(live, 0);
    assert Compacts(turned, m, false);
    CompactsKeepsCount(turned, m, false);
    FoundAt(m, 2, i);
    ScanKeepsSlots(m, m.cnt, 2);
    after := ScanPass(m, m.cnt, 2).after;
  }

  lemma PairAllocated(mem: Pmem, live: seq<Word>, mid: seq<Word>, i: nat) returns (after: Pmem)
    requires mem.ring.live == live && mem.ring.cnt == |live| && mem.ring.dead != [] && CompactsTo(live, mid, i)
    ensures Requestable(2 * PAGE_SIZE) && Allocs(mem, 2 * PAGE_SIZE, after, Address(Addr(mid[i])), false)
    ensures after.ring.live == mid[i + 1..] + mid[..i] && after.ring.cnt == |after.ring.live|
    ensures after.ring.Size() == mem.ring.Size()
  {
    hide ScanPass, Compacts, CompactsTo;
    var turned, m, ring := PairFound(mem.ring, live, mid, i);
    assert PagesNeeded(2 * PAGE_SIZE) == 2;
    after := Pmem(ring, SubWord(mem.freeMem, RoundUp(2 * PAGE_SIZE)));
    assert AllocsAgain(Pmem(m, mem.freeMem), 2 * PAGE_SIZE, after, Address(Addr(mid[i])), false);
  }

  /** Two pages, after a compaction. */
  lemma PairGranted(w0: World, w: World, c: Client, live: seq<Word>, a: set<int>, b: set<int>, mid: seq<Word>, i: nat)
    returns (w': World)
    requires Leads(w0, w) && Stands(w, live, a, b) && CompactsTo(live, mid, i) && |mid| <= SLOTS
    ensures Leads(w0, w')
    ensures Stands(w', mid[i + 1..] + mid[..i], With(c, A, a, {Page(mid[i]), Page(mid[i]) + 1}),
                   With(c, B, b, {Page(mid[i]), Page(mid[i]) + 1}))
  {
    hide Allocs, Leads;
    var addr, pages := Addr(mid[i]), {Page(mid[i]), Page(mid[i]) + 1};
    var after := PairAllocated(w.mem, live, mid, i);
    assert PagesNeeded(2 * PAGE_SIZE) == 2;
    assert PageRange(addr, 1) == {Page(mid[i])} && PageRange(addr, 2) == pages;
    w' := World(after, w.holds[c := Held(w, c) + PageRange(addr, 2)]);
    LeadsOn(w0, w, Alloc(c, 2 * PAGE_SIZE, Address(addr)), w');
  }

  /** A pass never changes the number of slots. */
  lemma {:induction false} ScanKeepsSlots(r: Ring, n: int, need: nat)
    requires r.dead != [] && need < 0x8000_0000
    ensures var scan := ScanPass(r, n, need); !scan.Starved? ==> scan.after.Size() == r.Size() && scan.after.dead != []
    decreases n
  {
    if n > 0 && r.live != [] && Count(r.live[0]) < need {
      ScanKeepsSlots(Turn(r), n - 1, need);
    }
  }

  // ----- The two compactions -----

  /** Pages 5, 10, 20, 21 and 40. */
  function FivePages(): (w: seq<Word>)
    ensures |w| == 5
  {
    [Single(5), Single(10), Single(20), Single(21), Single(40)]
  }

  lemma FiveMergeAt()
    ensures MergeFrom(FivePages(), 0) == Merge([Single(5), Single(10), 0, 20 * MAX_ENTRIES + 1, Single(40)], [2])
  {
    var w := FivePages();
    var m := MergeAt(w, 2);
    assert m == [Single(5), Single(10), 0, 20 * MAX_ENTRIES + 1, Single(40)];
    assert MergeFrom(m, 3) == Merge(m, []);
    assert MergeFrom(w, 2) == Merge(m, [2]);
    assert MergeFrom(w, 1) == Merge(m, [2]);
  }

  lemma FiveMerge(dead: seq<Word>)
    ensures SortOf(FivePages(), FivePages()) && NoneFits(FivePages(), 2)
    ensures Compacted(Ring(FivePages(), dead, 5), FivePages()).live
         == [Single(10), 0, 20 * MAX_ENTRIES + 1, Single(40)]
  {
    hide MergeFrom;
    FiveMergeAt();
  }

  lemma FourMerge(dead: seq<Word>)
    ensures ScatteredPages() == [Single(10), Single(20), Single(21), Single(40)]
    ensures SortOf(ScatteredPages(), ScatteredPages()) && NoneFits(ScatteredPages(), 2)
    ensures Compacted(Ring(ScatteredPages(), dead, 4), ScatteredPages()).live
         == [0, 20 * MAX_ENTRIES + 1, Single(40)]
  {
    hide MergeFrom;
    ScatteredMerge();
  }

  // ----- The run -----

  /** Five single pages are donated. */
  lemma FivePagesDonated() returns (w0: World, w: World)
    ensures Start(w0) && Leads(w0, w) && Stands(w, FivePages(), {}, {})
  {
    hide Leads;
    w0 := World(Pmem(Ring([], [0, 0, 0, 0, 0, 0, 0], 0), 0), map[]);
    LeadsNowhere(w0);
    w := Donated(w0, w0, [], 5);
    w := Donated(w0, w, [Single(5)], 10);
    w := Donated(w0, w, [Single(5), Single(10)], 20);
    w := Donated(w0, w, [Single(5), Single(10), Single(20)], 21);
    w := Donated(w0, w, [Single(5), Single(10), Single(20), Single(21)], 40);
  }

  /** Client A asks for two pages, and then for one page three times. */
  lemma FirstClient(w0: World, w: World) returns (w': World)
    requires Leads(w0, w) && Stands(w, FivePages(), {}, {})
    ensures Leads(w0, w') && Stands(w', [], {0, 10, 20, 21, 40}, {})
  {
    hide Leads, Compacted, FivePages, Sorted;
    var mid := [Single(10), 0, 20 * MAX_ENTRIES + 1, Single(40)];
    forall dead ensures Compacted(Ring(FivePages(), dead, |FivePages()|), FivePages()).live == mid {
      FiveMerge(dead);
    }
    FiveMerge([]);
    assert CompactsTo(FivePages(), mid, 2);
    w' := PairGranted(w0, w, A, FivePages(), {}, {}, mid, 2);
    assert mid[3..] + mid[..2] == [Single(40), Single(10), 0];
    w' := PageGranted(w0, w', A, [Single(40), Single(10), 0], {20, 21}, {});
    assert [Single(40), Single(10), 0][1..] == [Single(10), 0];
    w' := PageGranted(w0, w', A, [Single(10), 0], {20, 21, 40}, {});
    assert [Single(10), 0][1..] == [0];
    w' := PageGranted(w0, w', A, [0], {10, 20, 21, 40}, {});
    assert {10, 20, 21, 40} + {0} == {0, 10, 20, 21, 40};
  }

  /** It frees four of its pages one by one. */
  lemma FourPagesFreed(w0: World, w: World) returns (w': World)
    requires Leads(w0, w) && Stands(w, [], {0, 10, 20, 21, 40}, {})
    ensures Leads(w0, w') && Stands(w', [Single(10), Single(20), Single(21), Single(40)], {0}, {})
  {
    hide Leads;
    w' := FreedByA(w0, w, [], {0, 10, 20, 21, 40}, {}, 10);
    w' := FreedByA(w0, w', [Single(10)], {0, 20, 21, 40}, {}, 20);
    w' := FreedByA(w0, w', [Single(10), Single(20)], {0, 21, 40}, {}, 21);
    w' := FreedByA(w0, w', [Single(10), Single(20), Single(21)], {0, 40}, {}, 40);
    assert {0, 40} - {40} == {0};
  }

  /** Client B asks for two pages, and then for one page twice. */
  lemma SecondClient(w0: World, w: World) returns (w': World)
    requires Leads(w0, w) && Stands(w, [Single(10), Single(20), Single(21), Single(40)], {0}, {})
    ensures Leads(w0, w') && Stands(w', [], {0}, {0, 20, 21, 40})
  {
    hide Leads, Compacted, Sorted;
    var live := ScatteredPages();
    var mid := [0, 20 * MAX_ENTRIES + 1, Single(40)];
    forall dead ensures Compacted(Ring(live, dead, |live|), live).live == mid {
      FourMerge(dead);
    }
    FourMerge([]);
    assert CompactsTo(live, mid, 1);
    w' := PairGranted(w0, w, B, live, {0}, {}, mid, 1);
    assert mid[2..] + mid[..1] == [Single(40), 0];
    w' := PageGranted(w0, w', B, [Single(40), 0], {0}, {20, 21});
    assert [Single(40), 0][1..] == [0];
    w' := PageGranted(w0, w', B, [0], {0}, {20, 21, 40});
    assert {20, 21, 40} + {0} == {0, 20, 21, 40};
  }

  /** Two compactions that merge no prefix, each followed by allocations, hand page 0 to both clients: the
      exception that Ownership makes for page 0 is needed. */
  lemma PageZeroHeldTwice() returns (w0: World, w: World)
    ensures Start(w0) && Leads(w0, w) && Holds(w, A, 0) && Holds(w, B, 0)
  {
    hide Leads, Start;
    w0, w := FivePagesDonated();
    w := FirstClient(w0, w);
    w := FourPagesFreed(w0, w);
    w := SecondClient(w0, w);
  }
}
