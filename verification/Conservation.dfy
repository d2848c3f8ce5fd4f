/** Runs whose compactions all merge a prefix lose no page: what was donated is either free or held. */
module Conservation {
  import opened PageEntry
  import opened Runs
  import opened Ring
  import opened Compaction
  import opened AllocatorSpec
  import opened Ownership

  // ----- The invariant -----

  /** Dead slots are clear and the counter is the number of live entries. */
  ghost predicate Tidy(r: Ring) {
    RingOk(r) && AllZero(r.dead) && r.cnt == |r.live|
  }

  /** The page is in exactly one place if it was ever donated, and nowhere otherwise. */
  ghost predicate Accounted(w: World, donated: set<int>, p: int) {
    && Cover(w.mem.ring.live, p) <= 1
    && (forall c :: Holds(w, c, p) ==> Cover(w.mem.ring.live, p) == 0)
    && (forall c, d :: Holds(w, c, p) && Holds(w, d, p) ==> c == d)
    && (p in donated <==> Cover(w.mem.ring.live, p) == 1 || exists c :: Holds(w, c, p))
  }

  ghost predicate Conserved(w: World, donated: set<int>) {
    && Tidy(w.mem.ring)
    && (forall p :: Accounted(w, donated, p))
    && (forall p :: p in donated ==> 0 <= p < PAGE_LIMIT)
    && w.mem.freeMem == PAGE_SIZE * Total(w.mem.ring.live)
  }

  /** All pages donated by the calls. */
  function Donated(ops: seq<Op>): set<int> {
    if ops == [] then {} else Donated(ops[..|ops| - 1]) + DonatedBy(ops[|ops| - 1])
  }

  function DonatedBy(op: Op): set<int> {
    if op.Donate? then PageRange(op.addr, op.size / PAGE_SIZE) else {}
  }

  /** No page is donated twice. */
  ghost predicate DisjointDonations(ops: seq<Op>) {
    forall i :: 0 <= i < |ops| ==> DonatedBy(ops[i]) !! Donated(ops[..i])
  }

  // ----- Counting pages -----

  /** The number of pages below `n` that the entries cover, counting overlaps. */
  function CoveredBelow(s: seq<Word>, n: nat): nat {
    if n == 0 then 0 else CoveredBelow(s, n - 1) + Cover(s, n - 1)
  }

  lemma {:induction false} OneEntryBelow(e: Word, s: seq<Word>, n: nat)
    requires s != [] && s[0] == e
    ensures CoveredBelow(s, n) == CoveredBelow(s[1..], n)
         + if n <= Page(e) then 0 else if n <= Page(e) + Count(e) then n - Page(e) else Count(e)
  {
    hide Page, Count;
    if n != 0 {
      OneEntryBelow(e, s, n - 1);
      assert Cover(s, n - 1) == (if Covers(e, n - 1) then 1 else 0) + Cover(s[1..], n - 1);
    }
  }

  lemma {:induction false} NothingBelow(n: nat)
    ensures CoveredBelow([], n) == 0
  {
    if n != 0 {
      NothingBelow(n - 1);
    }
  }

  /** Counting page by page or entry by entry gives the same. */
  lemma {:induction false} TotalCountsPages(s: seq<Word>)
    requires AllInReach(s)
    ensures Total(s) == CoveredBelow(s, PAGE_LIMIT)
  {
    hide CoveredBelow;
    if s == [] {
      NothingBelow(PAGE_LIMIT);
    } else {
      TotalCountsPages(s[1..]);
      OneEntryBelow(s[0], s, PAGE_LIMIT);
      assert InReach(s[0]);
    }
  }

  lemma {:induction false} CoveredAtMost(s: seq<Word>, n: nat)
    requires forall p :: Cover(s, p) <= 1
    ensures CoveredBelow(s, n) <= n
  {
    if n != 0 {
      CoveredAtMost(s, n - 1);
    }
  }

  /** Disjoint entries within reach hold at most 2^44 pages, so the memory counter cannot wrap. */
  lemma TotalFits(s: seq<Word>)
    requires AllInReach(s) && forall p :: Cover(s, p) <= 1
    ensures Total(s) <= PAGE_LIMIT
  {
    hide CoveredBelow;
    TotalCountsPages(s);
    CoveredAtMost(s, PAGE_LIMIT);
  }

  // ----- Each ring operation -----

  lemma PutLive(r: Ring, v: Word, front: bool, p: int)
    requires Tidy(r) && |r.dead| > 1 && InReach(v)
    ensures Tidy(Put(r, v, front))
    ensures Cover(Put(r, v, front).live, p) == Cover(r.live, p) + CoverOf(p)(v)
    ensures Total(Put(r, v, front).live) == Total(r.live) + Count(v)
  {
    PutCover(r, v, front, p);
    var s, t := if front then [v] else r.live, if front then r.live else [v];
    SumConcat(s, t, CoverOf(p));
    SumConcat(s, t, CountOf());
    SumOne(v, CoverOf(p));
    SumOne(v, CountOf());
  }

  lemma DequeueLive(r: Ring, p: int)
    requires Tidy(r) && r.live != []
    ensures Tidy(Dequeue(r)) && |Dequeue(r).dead| > 1 && InReach(r.live[0])
    ensures Cover(Dequeue(r).live, p) == Cover(r.live, p) - CoverOf(p)(r.live[0])
    ensures Total(Dequeue(r).live) == Total(r.live) - Count(r.live[0])
  {
    DequeueOk(r);
  }

  lemma TakeLive(r: Ring, need: nat, p: int)
    requires Tidy(r) && r.live != [] && need < 0x8000_0000 && Count(r.live[0]) >= need
    ensures Tidy(Take(r, need))
    ensures Cover(Take(r, need).live, p) + (if p in PageRange(Addr(r.live[0]), need) then 1 else 0)
         == Cover(r.live, p)
    ensures Total(Take(r, need).live) + need == Total(r.live)
  {
    hide Remainder, Tidy, Sum, InReach, Addr;
    var e := r.live[0];
    DequeueLive(r, p);
    if Count(e) > need {
      SplitCover(e, need, p);
      PutLive(Dequeue(r), Remainder(e, need), true, p);
    } else {
      WholeEntry(e, p);
    }
  }

  lemma TurnLive(r: Ring, p: int)
    requires Tidy(r) && r.live != []
    ensures Tidy(Turn(r)) && Cover(Turn(r).live, p) == Cover(r.live, p) && Total(Turn(r).live) == Total(r.live)
  {
    hide Tidy, Sum;
    DequeueLive(r, p);
    PutLive(Dequeue(r), r.live[0], false, p);
  }

  lemma {:induction false} ScanLive(r: Ring, n: int, need: nat, p: int)
    requires Tidy(r) && n <= |r.live| && need < 0x8000_0000
    ensures match ScanPass(r, n, need)
      case Found(a, r') =>
        && Tidy(r') && Total(r'.live) + need == Total(r.live)
        && Cover(r'.live, p) + (if p in PageRange(a, need) then 1 else 0) == Cover(r.live, p)
      case NotFound(r') => Tidy(r') && Total(r'.live) == Total(r.live) && Cover(r'.live, p) == Cover(r.live, p)
      case Starved => false
    decreases n
  {
    hide Tidy, Sum, Addr, Count, Take;
    TidyCount(r);
    if n > 0 {
      if Count(r.live[0]) >= need {
        TakeLive(r, need, p);
      } else {
        TurnLive(r, p);
        ScanLive(Turn(r), n - 1, need, p);
      }
    }
  }

  lemma TidyCount(r: Ring)
    requires Tidy(r)
    ensures r.cnt == |r.live| && r.dead != [] && RingOk(r)
  {
  }

  lemma CompactsLive(r: Ring, r': Ring, p: int)
    requires Tidy(r) && Compacts(r, r', true)
    ensures Tidy(r') && Total(r'.live) == Total(r.live) && Cover(r'.live, p) == Cover(r.live, p)
  {
    hide Sum, MergeFrom;
    var w :| SortOf(Window(r), w) && r' == Compacted(r, w) && IsPrefix(MergeFrom(w, 0).at);
    CompactsCover(r, r', true, 1);
    MergeShape(w, 0);
    if r.live == [] {
      PermutedZero(r.dead, w);
      ZerosDoNotMerge(w, 0);
    } else {
      PrefixMergeIsExact(r, w, p);
    }
  }

  lemma InsertsLive(r: Ring, v: Word, front: bool, r': Ring, p: int)
    requires Tidy(r) && InReach(v) && Inserts(r, v, front, r', true)
    ensures Tidy(r') && Cover(r'.live, p) == Cover(r.live, p) + CoverOf(p)(v)
    ensures Total(r'.live) == Total(r.live) + Count(v)
  {
    hide Tidy, Sum, Compacts, Put, InReach;
    if |r.dead| > 1 {
      PutLive(r, v, front, p);
    } else {
      var mid :| Compacts(r, mid, true) && |mid.dead| > 1 && r' == Put(mid, v, front);
      CompactsLive(r, mid, p);
      PutLive(mid, v, front, p);
    }
  }

  lemma {:induction false} InsertsAllLive(r: Ring, vs: seq<Word>, r': Ring, p: int)
    requires Tidy(r) && AllInReach(vs) && InsertsAll(r, vs, r', true)
    ensures Tidy(r') && Cover(r'.live, p) == Cover(r.live, p) + Cover(vs, p)
    ensures Total(r'.live) == Total(r.live) + Total(vs)
    decreases |vs|
  {
    hide Tidy, Inserts, InReach, Sum;
    if vs == [] {
      SumEmpty(CoverOf(p));
      SumEmpty(CountOf());
    } else {
      var init, last := vs[..|vs| - 1], vs[|vs| - 1];
      var mid :| InsertsAll(r, init, mid, true) && Inserts(mid, last, false, r', true);
      InsertsAllLive(r, init, mid, p);
      InsertsLive(mid, last, false, r', p);
      assert vs == init + [last];
      SumConcat(init, [last], CoverOf(p));
      SumConcat(init, [last], CountOf());
      SumOne(last, CoverOf(p));
      SumOne(last, CountOf());
    }
  }

  lemma SumEmpty(f: Word -> nat)
    ensures Sum([], f) == 0
  {
  }

  // ----- Each call -----

  /** An allocation removes exactly the pages it returns from the free list, and nothing if it fails. */
  lemma AllocLive(s: Pmem, size: Word, s': Pmem, out: Outcome, p: int)
    requires Tidy(s.ring) && Requestable(size) && Allocs(s, size, s', out, true)
    ensures !out.Panic? && Tidy(s'.ring)
    ensures Cover(s'.ring.live, p)
          + (if out.Address? && p in PageRange(out.addr, PagesNeeded(size)) then 1 else 0)
         == Cover(s.ring.live, p)
    ensures Total(s'.ring.live) + (if out.Address? then PagesNeeded(size) else 0) == Total(s.ring.live)
    ensures s'.freeMem == if out.Address? then SubWord(s.freeMem, RoundUp(size)) else s.freeMem
  {
    hide Tidy, Sum, Compacts, ScanPass;
    TidyCount(s.ring);
    ScanLive(s.ring, s.ring.cnt, PagesNeeded(size), p);
    var scan := ScanPass(s.ring, s.ring.cnt, PagesNeeded(size));
    if scan.NotFound? {
      var mid :| Compacts(scan.after, mid, true) && AllocsAgain(Pmem(mid, s.freeMem), size, s', out, true);
      CompactsLive(scan.after, mid, p);
      TidyCount(mid);
      ScanLive(mid, mid.cnt, PagesNeeded(size), p);
      var again := ScanPass(mid, mid.cnt, PagesNeeded(size));
      if again.NotFound? {
        CompactsLive(again.after, s'.ring, p);
      }
    }
  }

  lemma FreeLive(s: Pmem, addr: Word, size: Word, s': Pmem, p: int)
    requires Tidy(s.ring) && Frees(s, addr, size, s', true)
    requires size / PAGE_SIZE == 0 || addr / PAGE_SIZE + size / PAGE_SIZE <= PAGE_LIMIT
    ensures Tidy(s'.ring) && Total(s'.ring.live) == Total(s.ring.live) + size / PAGE_SIZE
    ensures Cover(s'.ring.live, p) == Cover(s.ring.live, p) + if p in PageRange(addr, size / PAGE_SIZE) then 1 else 0
    ensures s'.freeMem == AddWord(s.freeMem, size) && size == size / PAGE_SIZE * PAGE_SIZE
  {
    if size / PAGE_SIZE != 0 {
      ChunksTile(addr, size / PAGE_SIZE, p);
      InsertsAllLive(s.ring, Chunks(addr, size / PAGE_SIZE), s'.ring, p);
    }
  }

  // ----- Every step, and every run -----

  lemma AllocConserves(w: World, c: Client, size: Word, out: Outcome, w': World, donated: set<int>)
    requires Conserved(w, donated) && Step(w, Alloc(c, size, out), w', true)
    ensures Conserved(w', donated)
  {
    hide Allocs, Tidy, Sum, RoundUp;
    forall p ensures Accounted(w', donated, p) {
      AllocLive(w.mem, size, w'.mem, out, p);
      assert Accounted(w, donated, p);
      var given := out.Address? && p in PageRange(out.addr, PagesNeeded(size));
      HeldAfterAlloc(w, c, out, size, w', p);
      assert given ==> Holds(w', c, p);
      assert forall d :: Holds(w, d, p) ==> Holds(w', d, p);
    }
    AllocLive(w.mem, size, w'.mem, out, 0);
    BoundedTotal(w, donated);
    RoundUpMeaning(size);
  }

  lemma HeldAfterAlloc(w: World, c: Client, out: Outcome, size: Word, w': World, p: int)
    requires Step(w, Alloc(c, size, out), w', true)
    ensures forall d :: Holds(w', d, p) <==>
        Holds(w, d, p) || (d == c && out.Address? && p in PageRange(out.addr, PagesNeeded(size)))
  {
    hide Allocs;
  }

  lemma BoundedTotal(w: World, donated: set<int>)
    requires Tidy(w.mem.ring) && forall p :: Accounted(w, donated, p)
    ensures Total(w.mem.ring.live) <= PAGE_LIMIT
  {
    hide Sum;
    var r := w.mem.ring;
    forall i | 0 <= i < |r.live| ensures InReach(r.live[i]) {
      assert r.live[i] == r.Slots()[i];
    }
    forall p ensures Cover(r.live, p) <= 1 {
      assert Accounted(w, donated, p);
    }
    TotalFits(r.live);
  }

  lemma FreeConserves(w: World, c: Client, addr: Word, size: Word, w': World, donated: set<int>)
    requires Conserved(w, donated) && Step(w, Free(c, addr, size), w', true)
    ensures Conserved(w', donated)
  {
    hide Frees, Tidy, Sum;
    var range := PageRange(addr, size / PAGE_SIZE);
    HeldInReach(w, c, addr, size / PAGE_SIZE, donated);
    forall p ensures Accounted(w', donated, p) {
      FreeLive(w.mem, addr, size, w'.mem, p);
      assert Accounted(w, donated, p);
      assert p in range ==> Holds(w, c, p);
      assert forall d :: Holds(w', d, p) <==> Holds(w, d, p) && !(d == c && p in range);
      if p in donated && Cover(w.mem.ring.live, p) == 0 && p !in range {
        var d :| Holds(w, d, p);
        assert Holds(w', d, p);
      }
    }
    FreeLive(w.mem, addr, size, w'.mem, 0);
    BoundedTotal(w', donated);
  }

  lemma HeldInReach(w: World, c: Client, addr: Word, pages: nat, donated: set<int>)
    requires Conserved(w, donated) && PageRange(addr, pages) <= Held(w, c)
    ensures pages == 0 || addr / PAGE_SIZE + pages <= PAGE_LIMIT
  {
    hide Tidy, Sum;
    if pages > 0 {
      var last := addr / PAGE_SIZE + pages - 1;
      assert last in PageRange(addr, pages);
      assert Holds(w, c, last) && Accounted(w, donated, last);
    }
  }

  lemma DonateConserves(w: World, addr: Word, size: Word, w': World, donated: set<int>)
    requires Conserved(w, donated) && Step(w, Donate(addr, size), w', true)
    requires PageRange(addr, size / PAGE_SIZE) !! donated
    ensures Conserved(w', donated + PageRange(addr, size / PAGE_SIZE))
  {
    hide Frees, Tidy, Sum;
    var range := PageRange(addr, size / PAGE_SIZE);
    forall p ensures Accounted(w', donated + range, p) {
      FreeLive(w.mem, addr, size, w'.mem, p);
      assert Accounted(w, donated, p);
      assert forall d :: Holds(w', d, p) <==> Holds(w, d, p);
      assert p in range ==> p !in donated;
    }
    FreeLive(w.mem, addr, size, w'.mem, 0);
    BoundedTotal(w', donated + range);
  }

  lemma StepConserves(w: World, op: Op, w': World, donated: set<int>)
    requires Conserved(w, donated) && Step(w, op, w', true) && DonatedBy(op) !! donated
    ensures Conserved(w', donated + DonatedBy(op))
  {
    hide Conserved, Step;
    match op
    case Alloc(c, size, out) =>
      AllocConserves(w, c, size, out, w', donated);
      assert donated + DonatedBy(op) == donated;
    case Free(c, addr, size) =>
      FreeConserves(w, c, addr, size, w', donated);
      assert donated + DonatedBy(op) == donated;
    case Donate(addr, size) =>
      DonateConserves(w, addr, size, w', donated);
  }

  lemma StartConserved(w: World)
    requires Start(w)
    ensures Conserved(w, {})
  {
    assert w.mem.ring.Slots() == w.mem.ring.dead;
    forall p ensures Accounted(w, {}, p) {
      assert forall c :: !Holds(w, c, p);
    }
  }

  /** Along every run whose compactions merge prefixes and whose donations are disjoint, free pages and
      held pages partition the pages donated so far, live entries are pairwise disjoint, and `free_mem`
      is the page size times the sum of the entry counts. */
  lemma {:induction false} RunConserves(ws: seq<World>, ops: seq<Op>, i: nat)
    requires IsRun(ws, ops, true) && DisjointDonations(ops) && Start(ws[0]) && i < |ws|
    ensures Conserved(ws[i], Donated(ops[..i]))
  {
    hide Conserved, Step, Start;
    if i == 0 {
      StartConserved(ws[0]);
    } else {
      RunConserves(ws, ops, i - 1);
      assert ops[..i][..i - 1] == ops[..i - 1] && ops[..i][i - 1] == ops[i - 1];
      StepConserves(ws[i - 1], ops[i - 1], ws[i], Donated(ops[..i - 1]));
    }
  }
}
