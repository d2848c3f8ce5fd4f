/** Runs of the allocator with clients: no page but page 0 is ever handed to two holders. */
module Ownership {
  import opened PageEntry
  import opened Runs
  import opened Ring
  import opened Compaction
  import opened AllocatorSpec

  type Client = nat

  /** The allocator, and the pages each client has been given and not returned. */
  datatype World = World(mem: Pmem, holds: map<Client, set<int>>)

  datatype Op =
    | Alloc(c: Client, size: Word, out: Outcome)
    | Free(c: Client, addr: Word, size: Word)
    | Donate(addr: Word, size: Word)

  function PageRange(addr: Word, pages: nat): (s: set<int>)
    ensures forall p :: p in s <==> addr / PAGE_SIZE <= p < addr / PAGE_SIZE + pages
  {
    if pages == 0 then {} else PageRange(addr, pages - 1) + {addr / PAGE_SIZE + pages - 1}
  }

  function Held(w: World, c: Client): set<int> { if c in w.holds then w.holds[c] else {} }

  ghost predicate Holds(w: World, c: Client, p: int) { p in Held(w, c) }

  /** One call. A client frees only pages it holds, in any division; memory that is donated (by
      pmem_init, at boot) is neither listed in the ring nor held by anyone, page 0 aside. A call that panics ends the
      run, so it is not a step. */
  ghost predicate Step(w: World, op: Op, w': World, exact: bool) {
    match op
    case Alloc(c, size, out) =>
      && Requestable(size) && !out.Panic? && Allocs(w.mem, size, w'.mem, out, exact)
      && w'.holds == if out.Address?
                     then w.holds[c := Held(w, c) + PageRange(out.addr, PagesNeeded(size))] else w.holds
    case Free(c, addr, size) =>
      && PageRange(addr, size / PAGE_SIZE) <= Held(w, c) && Frees(w.mem, addr, size, w'.mem, exact)
      && w'.holds == w.holds[c := Held(w, c) - PageRange(addr, size / PAGE_SIZE)]
    case Donate(addr, size) =>
      && addr / PAGE_SIZE + size / PAGE_SIZE <= PAGE_LIMIT
      && (forall p :: p in PageRange(addr, size / PAGE_SIZE) && p != 0 ==>
            Cover(w.mem.ring.Slots(), p) == 0 && forall c :: !Holds(w, c, p))
      && Frees(w.mem, addr, size, w'.mem, exact)
      && w'.holds == w.holds
  }

  ghost predicate IsRun(ws: seq<World>, ops: seq<Op>, exact: bool) {
    |ws| == |ops| + 1 && forall i :: 0 <= i < |ops| ==> Step(ws[i], ops[i], ws[i + 1], exact)
  }

  ghost predicate Start(w: World) {
    && w.mem.ring.live == [] && w.mem.ring.dead != [] && AllZero(w.mem.ring.dead)
    && w.mem.ring.cnt == 0 && w.mem.freeMem == 0 && w.holds == map[]
  }

  // ----- The invariant -----

  /** The ring on its own: entries stay within reach, and the counter never exceeds the live count. */
  ghost predicate RingOk(r: Ring) {
    r.dead != [] && r.cnt <= |r.live| && AllInReach(r.Slots())
  }

  /** Slots covering the page, live or dead, and clients holding it: at most one in all. */
  ghost predicate Exclusive(w: World, p: int) {
    && Cover(w.mem.ring.Slots(), p) <= 1
    && (forall c :: Holds(w, c, p) ==> Cover(w.mem.ring.Slots(), p) == 0)
    && (forall c, d :: Holds(w, c, p) && Holds(w, d, p) ==> c == d)
  }

  ghost predicate Safe(w: World) {
    && RingOk(w.mem.ring)
    && (forall p :: p != 0 ==> Exclusive(w, p))
    && (forall c, p :: Holds(w, c, p) ==> 0 <= p < PAGE_LIMIT)
  }

  // ----- Each ring operation and one page -----

  lemma PutCover(r: Ring, v: Word, front: bool, p: int)
    requires |r.dead| > 1
    ensures Cover(Put(r, v, front).Slots(), p) <= Cover(r.Slots(), p) + CoverOf(p)(v)
    ensures RingOk(r) && InReach(v) ==> RingOk(Put(r, v, front))
  {
    var r' := Put(r, v, front);
    SumConcat(r.live, r.dead, CoverOf(p));
    SumConcat(r'.live, r'.dead, CoverOf(p));
    if front {
      SumConcat([v], r.live, CoverOf(p));
      var n := |r.dead| - 1;
      assert r.dead == r.dead[..n] + [r.dead[n]];
      SumConcat(r.dead[..n], [r.dead[n]], CoverOf(p));
    } else {
      SumConcat(r.live, [v], CoverOf(p));
      assert r.dead == [r.dead[0]] + r.dead[1..];
    }
    if RingOk(r) && InReach(v) {
      SlotsOfPut(r, v, front);
    }
  }

  lemma SlotsOfPut(r: Ring, v: Word, front: bool)
    requires |r.dead| > 1 && AllInReach(r.Slots()) && InReach(v)
    ensures AllInReach(Put(r, v, front).Slots())
  {
    var s, s' := r.Slots(), Put(r, v, front).Slots();
    forall i | 0 <= i < |s'| ensures InReach(s'[i]) {
      if front {
        assert i == 0 || s'[i] == s[i - 1];
      } else {
        assert i == |r.live| || s'[i] == s[i];
      }
    }
  }

  lemma DequeueCover(r: Ring, p: int)
    requires r.live != [] && p != 0
    ensures Cover(Dequeue(r).Slots(), p) == Cover(r.Slots(), p) - CoverOf(p)(r.live[0])
  {
    var r' := Dequeue(r);
    SumConcat(r.live, r.dead, CoverOf(p));
    SumConcat(r'.live, r'.dead, CoverOf(p));
    SumConcat(r.dead, [0], CoverOf(p));
  }

  lemma DequeueOk(r: Ring)
    requires RingOk(r) && r.live != []
    ensures RingOk(Dequeue(r)) && |Dequeue(r).dead| > 1 && InReach(r.live[0])
  {
    var s, s' := r.Slots(), Dequeue(r).Slots();
    assert r.live[0] == s[0];
    forall i | 0 <= i < |s'| ensures InReach(s'[i]) {
      assert s'[i] == 0 || s'[i] == s[i + 1];
    }
  }

  /** Splitting an entry: the taken pages and the remainder make up what it covered. */
  lemma SplitCover(e: Word, need: nat, p: int)
    requires InReach(e) && need < Count(e)
    ensures InReach(Remainder(e, need))
    ensures CoverOf(p)(e) == CoverOf(p)(Remainder(e, need)) + if p in PageRange(Addr(e), need) then 1 else 0
    ensures Count(Remainder(e, need)) == Count(e) - need
  {
    EntryRoundTrip(Addr(e) + need * PAGE_SIZE, Count(e) - need);
  }

  lemma TakeCover(r: Ring, need: nat, p: int)
    requires RingOk(r) && r.live != [] && need < 0x8000_0000 && Count(r.live[0]) >= need && p != 0
    ensures RingOk(Take(r, need))
    ensures Cover(Take(r, need).Slots(), p) + (if p in PageRange(Addr(r.live[0]), need) then 1 else 0)
         <= Cover(r.Slots(), p)
  {
    hide Remainder, RingOk, Sum, InReach, Addr;
    var e := r.live[0];
    DequeueOk(r);
    DequeueCover(r, p);
    if Count(e) > need {
      SplitCover(e, need, p);
      PutCover(Dequeue(r), Remainder(e, need), true, p);
    } else {
      WholeEntry(e, p);
    }
  }

  lemma WholeEntry(e: Word, p: int)
    ensures CoverOf(p)(e) == if p in PageRange(Addr(e), Count(e)) then 1 else 0
  {
  }

  lemma TurnCover(r: Ring, p: int)
    requires RingOk(r) && r.live != [] && p != 0
    ensures RingOk(Turn(r)) && Cover(Turn(r).Slots(), p) <= Cover(r.Slots(), p)
  {
    hide RingOk, Sum;
    DequeueOk(r);
    DequeueCover(r, p);
    PutCover(Dequeue(r), r.live[0], false, p);
  }

  /** A pass takes out of the ring at least the pages it hands out. It never finds the ring empty. */
  lemma {:induction false} ScanCover(r: Ring, n: int, need: nat, p: int)
    requires RingOk(r) && n <= |r.live| && need < 0x8000_0000 && p != 0
    ensures match ScanPass(r, n, need)
      case Found(a, r') =>
        && RingOk(r')
        && Cover(r'.Slots(), p) + (if p in PageRange(a, need) then 1 else 0) <= Cover(r.Slots(), p)
      case NotFound(r') => RingOk(r') && Cover(r'.Slots(), p) <= Cover(r.Slots(), p)
      case Starved => false
    decreases n
  {
    hide RingOk, Sum, Addr, Count, Take;
    RingCount(r);
    if n > 0 {
      if Count(r.live[0]) >= need {
        TakeCover(r, need, p);
      } else {
        TurnCover(r, p);
        ScanCover(Turn(r), n - 1, need, p);
      }
    }
  }

  lemma CompactsCover(r: Ring, r': Ring, exact: bool, p: int)
    requires RingOk(r) && Compacts(r, r', exact) && p != 0
    ensures RingOk(r') && Cover(r'.Slots(), p) == Cover(r.Slots(), p)
  {
    var w :| SortOf(Window(r), w) && r' == Compacted(r, w);
    CompactKeepsCover(r, w, p);
    CompactKeepsReach(r, w);
    MergeShape(w, 0);
  }

  lemma InsertsCover(r: Ring, v: Word, front: bool, r': Ring, exact: bool, p: int)
    requires RingOk(r) && InReach(v) && Inserts(r, v, front, r', exact) && p != 0
    ensures RingOk(r') && Cover(r'.Slots(), p) <= Cover(r.Slots(), p) + CoverOf(p)(v)
  {
    hide RingOk, Sum, Compacts, Put, InReach;
    if |r.dead| > 1 {
      PutCover(r, v, front, p);
    } else {
      var mid :| Compacts(r, mid, exact) && |mid.dead| > 1 && r' == Put(mid, v, front);
      CompactsCover(r, mid, exact, p);
      PutCover(mid, v, front, p);
    }
  }

  lemma {:induction false} InsertsAllCover(r: Ring, vs: seq<Word>, r': Ring, exact: bool, p: int)
    requires RingOk(r) && AllInReach(vs) && InsertsAll(r, vs, r', exact) && p != 0
    ensures RingOk(r') && Cover(r'.Slots(), p) <= Cover(r.Slots(), p) + Cover(vs, p)
    decreases |vs|
  {
    hide RingOk, Inserts, InReach, Sum;
    if vs != [] {
      var init, last := vs[..|vs| - 1], vs[|vs| - 1];
      var mid :| InsertsAll(r, init, mid, exact) && Inserts(mid, last, false, r', exact);
      InsertsAllCover(r, init, mid, exact, p);
      InsertsCover(mid, last, false, r', exact, p);
      assert vs == init + [last];
      SumConcat(init, [last], CoverOf(p));
      SumOne(last, CoverOf(p));
    }
  }

  // ----- Each call and one page -----

  lemma AllocCover(s: Pmem, size: Word, s': Pmem, out: Outcome, exact: bool, p: int)
    requires RingOk(s.ring) && Requestable(size) && Allocs(s, size, s', out, exact) && p != 0
    ensures !out.Panic? && RingOk(s'.ring)
    ensures Cover(s'.ring.Slots(), p)
          + (if out.Address? && p in PageRange(out.addr, PagesNeeded(size)) then 1 else 0)
         <= Cover(s.ring.Slots(), p)
  {
    hide RingOk, Sum, Compacts, ScanPass;
    RingCount(s.ring);
    ScanCover(s.ring, s.ring.cnt, PagesNeeded(size), p);
    var scan := ScanPass(s.ring, s.ring.cnt, PagesNeeded(size));
    if scan.NotFound? {
      var r := scan.after;
      var mid :| Compacts(r, mid, exact) && AllocsAgain(Pmem(mid, s.freeMem), size, s', out, exact);
      CompactsCover(r, mid, exact, p);
      RingCount(mid);
      ScanCover(mid, mid.cnt, PagesNeeded(size), p);
      var again := ScanPass(mid, mid.cnt, PagesNeeded(size));
      if again.NotFound? {
        CompactsCover(again.after, s'.ring, exact, p);
      }
    }
  }

  lemma RingCount(r: Ring)
    requires RingOk(r)
    ensures r.cnt <= |r.live| && r.dead != []
  {
  }

  lemma FreeCover(s: Pmem, addr: Word, size: Word, s': Pmem, exact: bool, p: int)
    requires RingOk(s.ring) && Frees(s, addr, size, s', exact) && p != 0
    requires addr / PAGE_SIZE + size / PAGE_SIZE <= PAGE_LIMIT
    ensures RingOk(s'.ring)
    ensures Cover(s'.ring.Slots(), p)
         <= Cover(s.ring.Slots(), p) + if p in PageRange(addr, size / PAGE_SIZE) then 1 else 0
  {
    ChunksTile(addr, size / PAGE_SIZE, p);
    InsertsAllCover(s.ring, Chunks(addr, size / PAGE_SIZE), s'.ring, exact, p);
  }

  // ----- Every step, and every run -----

  lemma StepSafe(w: World, op: Op, w': World, exact: bool)
    requires Safe(w) && Step(w, op, w', exact)
    ensures Safe(w')
  {
    match op
    case Alloc(c, size, out) => AllocSafe(w, c, size, out, w', exact);
    case Free(c, addr, size) => FreeSafe(w, c, addr, size, w', exact);
    case Donate(addr, size) => DonateSafe(w, addr, size, w', exact);
  }

  lemma AllocSafe(w: World, c: Client, size: Word, out: Outcome, w': World, exact: bool)
    requires Safe(w) && Step(w, Alloc(c, size, out), w', exact)
    ensures Safe(w')
  {
    hide Allocs, RingOk, Sum;
    forall p | p != 0 ensures Exclusive(w', p) {
      AllocCover(w.mem, size, w'.mem, out, exact, p);
      assert Exclusive(w, p);
      assert forall d :: Holds(w', d, p) <==>
          Holds(w, d, p) || (d == c && out.Address? && p in PageRange(out.addr, PagesNeeded(size)));
    }
    AllocCover(w.mem, size, w'.mem, out, exact, 1);
    if out.Address? {
      AllocInReach(w.mem, size, w'.mem, out, exact);
    }
    forall d, p | Holds(w', d, p) ensures 0 <= p < PAGE_LIMIT {
      assert Holds(w, d, p) || p in PageRange(out.addr, PagesNeeded(size));
    }
  }

  /** An allocation stays within the pages the ring can name. */
  lemma AllocInReach(s: Pmem, size: Word, s': Pmem, out: Outcome, exact: bool)
    requires RingOk(s.ring) && Requestable(size) && Allocs(s, size, s', out, exact) && out.Address?
    ensures out.addr / PAGE_SIZE + PagesNeeded(size) <= PAGE_LIMIT
  {
    hide RingOk, Compacts, ScanPass;
    RingCount(s.ring);
    ScanCover(s.ring, s.ring.cnt, PagesNeeded(size), 1);
    ScanInReach(s.ring, s.ring.cnt, PagesNeeded(size));
    var scan := ScanPass(s.ring, s.ring.cnt, PagesNeeded(size));
    if scan.NotFound? {
      var mid :| Compacts(scan.after, mid, exact) && AllocsAgain(Pmem(mid, s.freeMem), size, s', out, exact);
      CompactsCover(scan.after, mid, exact, 1);
      RingCount(mid);
      ScanInReach(mid, mid.cnt, PagesNeeded(size));
    }
  }

  lemma {:induction false} ScanInReach(r: Ring, n: int, need: nat)
    requires RingOk(r) && n <= |r.live| && need < 0x8000_0000
    ensures var scan := ScanPass(r, n, need);
      scan.Found? ==> scan.addr / PAGE_SIZE + need <= PAGE_LIMIT
    decreases n
  {
    if n > 0 {
      DequeueOk(r);
      if Count(r.live[0]) < need {
        TurnCover(r, 1);
        ScanInReach(Turn(r), n - 1, need);
      }
    }
  }

  lemma FreeSafe(w: World, c: Client, addr: Word, size: Word, w': World, exact: bool)
    requires Safe(w) && Step(w, Free(c, addr, size), w', exact)
    ensures Safe(w')
  {
    hide Frees, RingOk, Sum;
    RangeInReach(w, c, addr, size / PAGE_SIZE);
    if size / PAGE_SIZE == 0 {
      EmptyFree(w.mem, addr, size, w'.mem, exact);
    } else {
      FreeCover(w.mem, addr, size, w'.mem, exact, 1);
      forall p | p != 0 ensures Exclusive(w', p) {
        FreeCover(w.mem, addr, size, w'.mem, exact, p);
        assert Exclusive(w, p);
        assert p in PageRange(addr, size / PAGE_SIZE) ==> Holds(w, c, p);
        assert forall d :: Holds(w', d, p) <==> Holds(w, d, p) && !(d == c && p in PageRange(addr, size / PAGE_SIZE));
      }
    }
    forall d, p | Holds(w', d, p) ensures 0 <= p < PAGE_LIMIT {
      assert Holds(w, d, p);
    }
    if size / PAGE_SIZE == 0 {
      forall p | p != 0 ensures Exclusive(w', p) {
        assert Exclusive(w, p);
        assert forall d :: Holds(w', d, p) <==> Holds(w, d, p);
      }
    }
  }

  lemma EmptyFree(s: Pmem, addr: Word, size: Word, s': Pmem, exact: bool)
    requires Frees(s, addr, size, s', exact) && size / PAGE_SIZE == 0
    ensures s'.ring == s.ring
  {
  }

  lemma RangeInReach(w: World, c: Client, addr: Word, pages: nat)
    requires Safe(w) && PageRange(addr, pages) <= Held(w, c)
    ensures pages == 0 || addr / PAGE_SIZE + pages <= PAGE_LIMIT
  {
    if pages > 0 {
      var last := addr / PAGE_SIZE + pages - 1;
      assert last in PageRange(addr, pages);
      assert Holds(w, c, last);
    }
  }

  lemma DonateSafe(w: World, addr: Word, size: Word, w': World, exact: bool)
    requires Safe(w) && Step(w, Donate(addr, size), w', exact)
    ensures Safe(w')
  {
    hide Frees, RingOk, Sum;
    FreeCover(w.mem, addr, size, w'.mem, exact, 1);
    forall p | p != 0 ensures Exclusive(w', p) {
      FreeCover(w.mem, addr, size, w'.mem, exact, p);
      assert Exclusive(w, p);
      assert forall c :: Holds(w', c, p) <==> Holds(w, c, p);
    }
    assert forall c, p :: Holds(w', c, p) ==> Holds(w, c, p);
  }

  lemma StartSafe(w: World)
    requires Start(w)
    ensures Safe(w)
  {
    forall p | p != 0 ensures Exclusive(w, p) {
      assert w.mem.ring.Slots() == w.mem.ring.dead;
      CoverOfZeros(w.mem.ring.dead, p);
    }
  }

  /** Every state of every run is safe, lossy compactions included. */
  lemma {:induction false} RunSafe(ws: seq<World>, ops: seq<Op>, exact: bool, i: nat)
    requires IsRun(ws, ops, exact) && Start(ws[0]) && i < |ws|
    ensures Safe(ws[i])
  {
    if i == 0 {
      StartSafe(ws[0]);
    } else {
      RunSafe(ws, ops, exact, i - 1);
      StepSafe(ws[i - 1], ops[i - 1], ws[i], exact);
    }
  }

  /** In every run two clients never hold the same page, unless it is page 0. */
  lemma NoDoubleHandOut(ws: seq<World>, ops: seq<Op>, exact: bool, i: nat)
    requires IsRun(ws, ops, exact) && Start(ws[0]) && i < |ws|
    ensures forall c, d, p :: Holds(ws[i], c, p) && Holds(ws[i], d, p) && p != 0 ==> c == d
  {
    RunSafe(ws, ops, exact, i);
    forall c, d, p | Holds(ws[i], c, p) && Holds(ws[i], d, p) && p != 0 ensures c == d {
      assert Exclusive(ws[i], p);
    }
  }

  /** In every run an allocation returns only pages that nobody holds (page 0 aside), that no slot of the
      ring lists any more, and it never panics for lack of entries. */
  lemma AllocHandsOutFreshPages(ws: seq<World>, ops: seq<Op>, exact: bool, i: nat, size: Word, s': Pmem, out: Outcome,
                                c: Client, p: int)
    requires IsRun(ws, ops, exact) && Start(ws[0]) && i < |ws|
    requires Requestable(size) && Allocs(ws[i].mem, size, s', out, exact) && p != 0
    ensures !out.Panic?
    ensures out.Address? && p in PageRange(out.addr, PagesNeeded(size)) ==>
      !Holds(ws[i], c, p) && Cover(ws[i].mem.ring.Slots(), p) == 1 && Cover(s'.ring.Slots(), p) == 0
  {
    hide Allocs, RingOk, Sum;
    RunSafe(ws, ops, exact, i);
    AllocCover(ws[i].mem, size, s', out, exact, p);
    assert Exclusive(ws[i], p);
  }
}
