/** The steps of vmem_unmap_st, and that it undoes a mapping. */
module UnmapSteps {
  import opened Paging
  import opened MapEffects
  import opened PageTables
  import opened Holes
  import opened MapSteps

  /** `t'` is `t` with the addresses of a set, in one space, no longer translated, and nothing else changed. */
  ghost predicate Cleared(t: Tree, t': Tree, sp: nat, gone: iset<nat>) {
    && (forall s: nat, va: nat {:trigger Look(t', s, va, 0)} :: va < VA_LIMIT ==>
          Look(t', s, va, 0) == if s == sp && va in gone then None else Look(t, s, va, 0))
    && t'.dir == t.dir
  }

  // ----- What an unmapping call touches -----

  /** Whole pages of level `leaf`, aligned, and fewer than one table of them. */
  predicate WholePages(virt: nat, size: nat, leaf: nat) {
    1 <= leaf <= 3 && virt % Span(leaf + 1) == 0 && size % Span(leaf + 1) == 0 && size < Span(leaf)
  }

  /** And all of them in one table. */
  predicate InOneTable(virt: nat, size: nat, leaf: nat) { WholePages(virt, size, leaf) && !Crosses(virt, size, leaf) }

  /** The call stays in the table that the range starts in: behind the table's end it goes on at its start. */
  predicate Touched(virt: nat, len: nat, leaf: nat, va: nat)
    requires leaf <= 3
  {
    Block(va, leaf) == Block(virt, leaf) && (virt <= va < virt + len || va + Span(leaf) < virt + len)
  }

  ghost function TouchedSet(virt: nat, len: nat, leaf: nat): iset<nat>
    requires leaf <= 3
  {
    iset va: nat | Touched(virt, len, leaf, va)
  }

  /** The address in that table that the loop is at, `done` bytes on. */
  function Here(virt: nat, done: nat, leaf: nat): (at: int)
    requires leaf <= 3
  {
    if Block(virt + done, leaf) == Block(virt, leaf) then virt + done else virt + done - Span(leaf)
  }

  lemma HereFacts(virt: nat, size: nat, done: nat, leaf: nat)
    requires WholePages(virt, size, leaf) && done < size && done % Span(leaf + 1) == 0
    ensures var at := Here(virt, done, leaf);
      && 0 <= at && at == Block(at, leaf + 1) * Span(leaf + 1) && Block(at, leaf) == Block(virt, leaf)
      && Index(virt + done, leaf) == Index(at, leaf) && Touched(virt, size, leaf, at)
  {
    hide Block, Span, Index;
    var x := virt + done;
    NextTable(virt, done, leaf);
    SumOfPages(virt, done, leaf);
    PageStart(x, leaf);
    if Block(x, leaf) != Block(virt, leaf) {
      OneTableBack(x, leaf);
    }
  }

  /** An address at the start of a page. */
  lemma PageStart(x: nat, leaf: nat)
    requires leaf <= 3 && x % Span(leaf + 1) == 0
    ensures x == Block(x, leaf + 1) * Span(leaf + 1)
  {
    BlockBounds(x, leaf + 1);
  }

  lemma SumOfPages(a: nat, b: nat, leaf: nat)
    requires leaf <= 3 && a % Span(leaf + 1) == 0 && b % Span(leaf + 1) == 0
    ensures (a + b) % Span(leaf + 1) == 0
  {
    AddWhole(a, b, leaf + 1);
  }

  /** Less than one table on is in the same table or in the next one. */
  lemma NextTable(virt: nat, done: nat, k: nat)
    requires k <= 4 && done < Span(k)
    ensures Block(virt + done, k) == Block(virt, k) || Block(virt + done, k) == Block(virt, k) + 1
  {
    BlockBounds(virt, k);
    BlockBounds(virt + done, k);
    hide Block;
    if k == 0 {} else if k == 1 {} else if k == 2 {} else if k == 3 {} else {}
  }

  /** One table back is the same slot of the table before. */
  lemma OneTableBack(x: nat, leaf: nat)
    requires 1 <= leaf <= 3 && Block(x, leaf) > 0 && x % Span(leaf + 1) == 0
    ensures x >= Span(leaf) && var y := x - Span(leaf);
      && Block(y, leaf) == Block(x, leaf) - 1 && Block(y, leaf + 1) == Block(x, leaf + 1) - 512
      && y == Block(y, leaf + 1) * Span(leaf + 1) && Index(y, leaf) == Index(x, leaf)
  {
    var k := leaf + 1;
    BlockBounds(x, leaf);
    BlockBounds(x, k);
    BlockNest(x, leaf);
    var y := x - Span(leaf);
    assert y == (Block(x, k) - 512) * Span(k) && x >= Span(leaf) by {
      hide Block;
      if leaf == 1 {} else if leaf == 2 {} else {}
    }
    BlockUnique(y, k, Block(x, k) - 512);
    BlockNest(y, leaf);
    hide Span;
  }

  /** One more page is one more block. */
  lemma TouchedGrows(virt: nat, size: nat, done: nat, leaf: nat)
    requires WholePages(virt, size, leaf) && done < size && done % Span(leaf + 1) == 0 && Here(virt, done, leaf) >= 0
    ensures TouchedSet(virt, done + Span(leaf + 1), leaf)
         == TouchedSet(virt, done, leaf) + BlockSet(Block(Here(virt, done, leaf), leaf + 1), leaf + 1)
  {
    HereFacts(virt, size, done, leaf);
    var at, len := Here(virt, done, leaf), done + Span(leaf + 1);
    var m, k := Block(at, leaf + 1), leaf + 1;
    hide Block, Span;
    forall va: nat
      ensures Touched(virt, len, leaf, va) <==> Touched(virt, done, leaf, va) || Block(va, k) == m
    {
      TouchedOnce(virt, size, done, leaf, va);
    }
  }

  lemma TouchedOnce(virt: nat, size: nat, done: nat, leaf: nat, va: nat)
    requires WholePages(virt, size, leaf) && done < size && done % Span(leaf + 1) == 0 && Here(virt, done, leaf) >= 0
    ensures Touched(virt, done + Span(leaf + 1), leaf, va)
       <==> Touched(virt, done, leaf, va) || Block(va, leaf + 1) == Block(Here(virt, done, leaf), leaf + 1)
  {
    hide Block, Span, Index;
    HereFacts(virt, size, done, leaf);
    var at, k, n := Here(virt, done, leaf), leaf + 1, Block(virt, leaf);
    BlockBounds(va, k);
    BlockNest(va, leaf);
    BlockBounds(at, k);
    if at <= va < at + Span(k) {
      BlockUnique(va, k, Block(at, k));
      SameBlockAbove(va, at, k, leaf);
    }
    if Block(va, leaf) == n {
      BlockBounds(va, leaf);
      BlockBounds(virt, leaf);
      BlockBounds(at, leaf);
      PageInTable(at, leaf);
      TouchedSpans(n * Span(leaf), Span(leaf), Span(k), virt, done, va, at);
    }
  }

  /** A page does not run over the end of its table. */
  lemma PageInTable(at: nat, leaf: nat)
    requires leaf <= 3 && at == Block(at, leaf + 1) * Span(leaf + 1)
    ensures at + Span(leaf + 1) <= Block(at, leaf) * Span(leaf) + Span(leaf)
  {
    BlockNest(at, leaf);
    BlockBounds(at, leaf);
    hide Block;
    if leaf == 0 {} else if leaf == 1 {} else if leaf == 2 {} else {}
  }

  /** The same in distances, inside the table that starts at `start`. */
  lemma TouchedSpans(start: nat, table: nat, page: nat, virt: nat, done: nat, va: nat, at: nat)
    requires start <= virt < start + table && start <= va < start + table && done < table
    requires start <= at && at + page <= start + table && (at == virt + done || at == virt + done - table)
    ensures (virt <= va < virt + (done + page) || va + table < virt + (done + page))
       <==> (virt <= va < virt + done || va + table < virt + done) || at <= va < at + page
  {
  }

  /** No slot the call touches points at a table. (On such a slot the loop of the code makes no progress.) */
  ghost predicate NoTables(t: Tree, sp: nat, gone: iset<nat>, leaf: nat)
    requires leaf <= 3
  {
    forall va: nat {:trigger Met(t, sp, va, leaf)} :: va in gone && Met(t, sp, va, leaf).present ==>
      Met(t, sp, va, leaf).large || leaf == 3
  }

  /** vmem_phystovirt shows the frame that the slot of each of these addresses names. The loop asks it for every
      slot it meets, also for one that holds a page. */
  ghost predicate InSight(t: Tree, sp: nat, gone: iset<nat>, leaf: nat, mapSize: nat)
    requires leaf <= 3
  {
    forall va: nat {:trigger Met(t, sp, va, leaf)} :: va in gone ==> Shown(Met(t, sp, va, leaf).frame, mapSize)
  }

  /** The same for the slots above, on the way down from level `lv`. */
  ghost predicate WayInSight(t: Tree, sp: nat, virt: nat, lv: nat, leaf: nat, mapSize: nat)
    requires leaf <= 3
  {
    forall j :: lv <= j < leaf ==> Shown(Met(t, sp, virt, j).frame, mapSize)
  }

  /** The two trees show the same of these slots. */
  ghost predicate SameSight(t0: Tree, t: Tree, sp: nat, gone: iset<nat>, leaf: nat, mapSize: nat)
    requires leaf <= 3
  {
    forall va: nat {:trigger Met(t, sp, va, leaf)} :: va in gone ==>
      (Shown(Met(t, sp, va, leaf).frame, mapSize) <==> Shown(Met(t0, sp, va, leaf).frame, mapSize))
  }

  // ----- Clearing a slot -----

  lemma ClearKeepsWellFormed(t: Tree, huge: bool, sp: nat, lv: nat, m: nat)
    requires WellFormed(t, huge) && Pos(sp, lv, m / 512) in t.dir
    requires EntryAt(t, sp, lv, m).large || lv == 3
    ensures WellFormed(Store(t, sp, lv, m, EMPTY), huge)
  {
    var t' := Store(t, sp, lv, m, EMPTY);
    StoreOnlySlot(t, huge, sp, lv, m, EMPTY);
    hide EntryAt;
    forall s: nat, l: nat, k: nat ensures EntryOk(t', huge, s, l, k) {
      assert EntryOk(t, huge, s, l, k);
      assert EntryAt(t', s, l, k) == if s == sp && l == lv && k == m then EMPTY else EntryAt(t, s, l, k);
    }
  }

  /** Clearing a page's slot removes exactly the translations of its block. */
  lemma ClearUnmapsItsBlock(t: Tree, huge: bool, sp: nat, lv: nat, m: nat)
    requires WellFormed(t, huge) && Pos(sp, lv, m / 512) in t.dir && lv <= 3
    requires EntryAt(t, sp, lv, m).large || lv == 3
    ensures WellFormed(Store(t, sp, lv, m, EMPTY), huge)
    ensures Cleared(t, Store(t, sp, lv, m, EMPTY), sp, BlockSet(m, lv + 1))
    ensures Store(t, sp, lv, m, EMPTY).mem.Keys == t.mem.Keys
  {
    var t' := Store(t, sp, lv, m, EMPTY);
    StoreOnlySlot(t, huge, sp, lv, m, EMPTY);
    ClearKeepsWellFormed(t, huge, sp, lv, m);
    StoreFrames(t, huge, sp, lv, m, EMPTY);
    hide EntryAt, WellFormed, Look, OnlySlot, Store, Span, Block;
    forall s: nat, va: nat
      ensures Look(t', s, va, 0) == if s == sp && Block(va, lv + 1) == m then None else Look(t, s, va, 0)
    {
      ClearAt(t, t', huge, sp, lv, m, s, va);
    }
  }

  lemma ClearAt(t: Tree, t': Tree, huge: bool, sp: nat, lv: nat, m: nat, s: nat, va: nat)
    requires WellFormed(t, huge) && WellFormed(t', huge) && t'.dir == t.dir && Pos(sp, lv, m / 512) in t.dir
    requires lv <= 3 && OnlySlot(t, t', sp, lv, m, EMPTY)
    ensures Look(t', s, va, 0) == if s == sp && Block(va, lv + 1) == m then None else Look(t, s, va, 0)
  {
    hide WellFormed, EntryAt, Block;
    if s == sp && Block(va, lv + 1) == m {
      BlockNest(va, lv);
      LookFrom(t', huge, sp, va, lv, lv);
      assert Met(t', sp, va, lv) == EMPTY;
    } else {
      OffPath(t, t', sp, lv, m, EMPTY, s, va, lv);
    }
  }

  lemma ClearedThen(t: Tree, u: Tree, v: Tree, sp: nat, a: iset<nat>, b: iset<nat>)
    requires Cleared(t, u, sp, a) && Cleared(u, v, sp, b)
    ensures Cleared(t, v, sp, a + b)
  {
    forall s: nat, va: nat | va < VA_LIMIT
      ensures Look(v, s, va, 0) == if s == sp && va in a + b then None else Look(t, s, va, 0)
    {
      assert Look(v, s, va, 0) == Look(v, s, va, 0) && Look(u, s, va, 0) == Look(u, s, va, 0);
    }
  }

  // ----- The loop -----

  /** The unmapping loop at the leaf level, `done` bytes on. */
  ghost predicate ClearLoop(t0: Tree, t: Tree, huge: bool, sp: nat, f: Ref, virt: nat, size: nat, leaf: nat,
                            mapSize: nat, done: nat)
  {
    && WholePages(virt, size, leaf) && done <= size && done % Span(leaf + 1) == 0
    && WellFormed(t, huge) && Cleared(t0, t, sp, TouchedSet(virt, done, leaf)) && t.mem.Keys == t0.mem.Keys
    && Pos(sp, leaf, Block(virt, leaf)) in t.dir && t.dir[Pos(sp, leaf, Block(virt, leaf))] == f
    && NoTables(t, sp, TouchedSet(virt, size, leaf), leaf)
    && SameSight(t0, t, sp, TouchedSet(virt, size, leaf), leaf, mapSize)
    && InSight(t0, sp, TouchedSet(virt, done, leaf), leaf, mapSize)
  }

  lemma ClearLoopPages(t0: Tree, t: Tree, huge: bool, sp: nat, f: Ref, virt: nat, size: nat, leaf: nat, mapSize: nat,
                       done: nat)
    requires ClearLoop(t0, t, huge, sp, f, virt, size, leaf, mapSize, done)
    ensures done % Span(leaf + 1) == 0
  {
  }

  lemma NothingTouched(virt: nat, leaf: nat)
    requires leaf <= 3
    ensures TouchedSet(virt, 0, leaf) == iset{}
  {
    forall va: nat ensures !Touched(virt, 0, leaf, va) {
      BlockBounds(va, leaf);
      BlockBounds(virt, leaf);
    }
  }

  lemma ClearLoopStarts(t: Tree, huge: bool, sp: nat, f: Ref, virt: nat, size: nat, leaf: nat, mapSize: nat)
    requires WholePages(virt, size, leaf) && WellFormed(t, huge)
    requires Reaches(t, sp, virt, leaf) && t.dir[Pos(sp, leaf, Block(virt, leaf))] == f
    requires NoTables(t, sp, TouchedSet(virt, size, leaf), leaf)
    ensures ClearLoop(t, t, huge, sp, f, virt, size, leaf, mapSize, 0)
  {
    hide WellFormed, Look, NoTables;
    NothingTouched(virt, leaf);
  }

  lemma PagesLeft(size: nat, done: nat, leaf: nat)
    requires leaf <= 3 && done < size && size % Span(leaf + 1) == 0 && done % Span(leaf + 1) == 0
    ensures done + Span(leaf + 1) <= size && (done + Span(leaf + 1)) % Span(leaf + 1) == 0
  {
    RemainderKept(size, done, leaf + 1);
    WholePagesLeft(size - done, leaf);
    AlignedNext(done, leaf);
  }

  /** The slot of the next address is in the same table. */
  lemma ClearLoopSlot(t0: Tree, t: Tree, huge: bool, sp: nat, f: Ref, virt: nat, size: nat, leaf: nat, mapSize: nat,
                      done: nat)
    requires ClearLoop(t0, t, huge, sp, f, virt, size, leaf, mapSize, done) && done < size
    ensures f in t.mem && |t.mem[f]| == 512 && done + Span(leaf + 1) <= size && Here(virt, done, leaf) >= 0
    ensures var at := Here(virt, done, leaf);
      && Met(t, sp, at, leaf) == t.mem[f][Index(virt + done, leaf)] && Reaches(t, sp, at, leaf)
      && Block(at, leaf + 1) / 512 == Block(virt, leaf) && Block(at, leaf + 1) % 512 == Index(virt + done, leaf)
      && (Met(t, sp, at, leaf).present ==> Met(t, sp, at, leaf).large || leaf == 3)
      && at in TouchedSet(virt, size, leaf)
  {
    hide WellFormed, Cleared, Block, Span, EntryAt, Touched, InSight, SameSight;
    PagesLeft(size, done, leaf);
    HereFacts(virt, size, done, leaf);
    var at := Here(virt, done, leaf);
    IndexOf(virt + done, leaf);
    IndexOf(at, leaf);
    BlockNest(at, leaf);
    SlotInTable(t, huge, sp, f, at, leaf, Block(virt, leaf), Index(at, leaf));
    assert Met(t, sp, at, leaf) == Met(t, sp, at, leaf);
  }

  lemma IndexOf(va: nat, leaf: nat)
    requires leaf <= 3
    ensures Index(va, leaf) == Block(va, leaf + 1) % 512
    ensures Block(va, leaf + 1) == Block(va, leaf + 1) / 512 * 512 + Index(va, leaf)
  {
  }

  lemma NoTablesAfter(t: Tree, t': Tree, sp: nat, gone: iset<nat>, leaf: nat, m: nat)
    requires leaf <= 3 && NoTables(t, sp, gone, leaf) && OnlySlot(t, t', sp, leaf, m, EMPTY)
    ensures NoTables(t', sp, gone, leaf)
  {
    hide Block, EntryAt, Span;
    forall va: nat | va in gone && Met(t', sp, va, leaf).present
      ensures Met(t', sp, va, leaf).large || leaf == 3
    {
      assert Met(t, sp, va, leaf) == Met(t, sp, va, leaf);
    }
  }

  /** A cleared slot names frame 0, which is shown, as was the frame it named before. */
  lemma SightKept(t0: Tree, t: Tree, t': Tree, sp: nat, gone: iset<nat>, leaf: nat, mapSize: nat, at: nat)
    requires leaf <= 3 && SameSight(t0, t, sp, gone, leaf, mapSize) && at in gone
    requires OnlySlot(t, t', sp, leaf, Block(at, leaf + 1), EMPTY) && Shown(Met(t, sp, at, leaf).frame, mapSize)
    ensures SameSight(t0, t', sp, gone, leaf, mapSize)
  {
    hide Block, EntryAt, Span;
    forall va: nat | va in gone
      ensures Shown(Met(t', sp, va, leaf).frame, mapSize) <==> Shown(Met(t0, sp, va, leaf).frame, mapSize)
    {
      assert Met(t, sp, va, leaf) == Met(t, sp, va, leaf);
      if Block(va, leaf + 1) == Block(at, leaf + 1) {
        assert Met(t, sp, va, leaf) == Met(t, sp, at, leaf);
      }
    }
  }

  /** One more slot is seen to be shown. */
  lemma SightGrows(t0: Tree, t: Tree, sp: nat, gone: iset<nat>, more: iset<nat>, leaf: nat, mapSize: nat, at: nat)
    requires leaf <= 3 && SameSight(t0, t, sp, gone, leaf, mapSize) && at in gone
    requires InSight(t0, sp, more, leaf, mapSize) && Shown(Met(t, sp, at, leaf).frame, mapSize)
    ensures InSight(t0, sp, more + BlockSet(Block(at, leaf + 1), leaf + 1), leaf, mapSize)
  {
    hide Block, EntryAt, Span;
    assert Met(t, sp, at, leaf) == Met(t, sp, at, leaf);
    forall va: nat | va in BlockSet(Block(at, leaf + 1), leaf + 1)
      ensures Shown(Met(t0, sp, va, leaf).frame, mapSize)
    {
      assert Met(t0, sp, va, leaf) == Met(t0, sp, at, leaf);
    }
  }

  lemma ClearLoopSkips(t0: Tree, t: Tree, huge: bool, sp: nat, f: Ref, virt: nat, size: nat, leaf: nat, mapSize: nat,
                       done: nat)
    requires ClearLoop(t0, t, huge, sp, f, virt, size, leaf, mapSize, done) && done < size
    requires Here(virt, done, leaf) >= 0 && !Met(t, sp, Here(virt, done, leaf), leaf).present
    requires Shown(Met(t, sp, Here(virt, done, leaf), leaf).frame, mapSize)
    ensures done + Span(leaf + 1) <= size
    ensures ClearLoop(t0, t, huge, sp, f, virt, size, leaf, mapSize, done + Span(leaf + 1))
  {
    hide Block, Span, EntryAt, TouchedSet, Look, NoTables, InSight, SameSight;
    var at := Here(virt, done, leaf);
    ClearLoopSlot(t0, t, huge, sp, f, virt, size, leaf, mapSize, done);
    PagesLeft(size, done, leaf);
    TouchedGrows(virt, size, done, leaf);
    AbsentIsCleared(t, huge, sp, at, leaf);
    SightGrows(t0, t, sp, TouchedSet(virt, size, leaf), TouchedSet(virt, done, leaf), leaf, mapSize, at);
    hide WellFormed;
    ClearedThen(t0, t, t, sp, TouchedSet(virt, done, leaf), BlockSet(Block(at, leaf + 1), leaf + 1));
  }

  /** Where a slot is empty, its block is not translated. */
  lemma AbsentIsCleared(t: Tree, huge: bool, sp: nat, at: nat, leaf: nat)
    requires WellFormed(t, huge) && leaf <= 3 && Reaches(t, sp, at, leaf) && !Met(t, sp, at, leaf).present
    ensures Cleared(t, t, sp, BlockSet(Block(at, leaf + 1), leaf + 1))
  {
    hide WellFormed, EntryAt, Block, Span;
    forall va: nat | Block(va, leaf + 1) == Block(at, leaf + 1) ensures Look(t, sp, va, 0) == None {
      SameBlockAbove(va, at, leaf + 1, leaf);
      LookFrom(t, huge, sp, va, leaf, leaf);
    }
  }

  lemma AlignedNext(at: nat, leaf: nat)
    requires leaf <= 3 && at % Span(leaf + 1) == 0
    ensures (at + Span(leaf + 1)) % Span(leaf + 1) == 0
  {
    BlockBounds(at, leaf + 1);
    NextSlot(at, leaf);
    BlockBounds(at + Span(leaf + 1), leaf + 1);
  }

  lemma ClearLoopClears(t0: Tree, t: Tree, huge: bool, sp: nat, f: Ref, virt: nat, size: nat, leaf: nat, mapSize: nat,
                        done: nat)
    requires ClearLoop(t0, t, huge, sp, f, virt, size, leaf, mapSize, done) && done < size
    requires Here(virt, done, leaf) >= 0 && Met(t, sp, Here(virt, done, leaf), leaf).present
    requires Shown(Met(t, sp, Here(virt, done, leaf), leaf).frame, mapSize)
    ensures f in t.mem && |t.mem[f]| == 512 && done + Span(leaf + 1) <= size
    ensures ClearLoop(t0, t.(mem := t.mem[f := t.mem[f][Index(virt + done, leaf) := EMPTY]]), huge, sp, f, virt, size,
      leaf, mapSize, done + Span(leaf + 1))
  {
    hide WellFormed, Look, Block, Span, EntryAt, TouchedSet, NoTables, Cleared, InSight, SameSight;
    var at := Here(virt, done, leaf);
    var m, all, gone := Block(at, leaf + 1), TouchedSet(virt, size, leaf), TouchedSet(virt, done, leaf);
    ClearLoopSlot(t0, t, huge, sp, f, virt, size, leaf, mapSize, done);
    PagesLeft(size, done, leaf);
    TouchedGrows(virt, size, done, leaf);
    ClearUnmapsItsBlock(t, huge, sp, leaf, m);
    StoreOnlySlot(t, huge, sp, leaf, m, EMPTY);
    NoTablesAfter(t, Store(t, sp, leaf, m, EMPTY), sp, all, leaf, m);
    SightKept(t0, t, Store(t, sp, leaf, m, EMPTY), sp, all, leaf, mapSize, at);
    SightGrows(t0, t, sp, all, gone, leaf, mapSize, at);
    ClearedThen(t0, t, Store(t, sp, leaf, m, EMPTY), sp, gone, BlockSet(m, leaf + 1));
    PlacesKept(t0, t, Store(t, sp, leaf, m, EMPTY), sp, gone, BlockSet(m, leaf + 1));
  }

  lemma PlacesKept(t0: Tree, t: Tree, t': Tree, sp: nat, a: iset<nat>, b: iset<nat>)
    requires Cleared(t0, t, sp, a) && Cleared(t, t', sp, b)
    ensures t'.dir == t.dir == t0.dir
  {
  }

  lemma ClearLoopEnds(t0: Tree, t: Tree, huge: bool, sp: nat, f: Ref, virt: nat, size: nat, leaf: nat, mapSize: nat)
    requires ClearLoop(t0, t, huge, sp, f, virt, size, leaf, mapSize, size) && Reaches(t0, sp, virt, leaf)
    ensures UnmapPost(t0, t, huge, sp, virt, size, leaf, leaf, mapSize, Done, size)
  {
    hide Cleared, Block, WellFormed, InSight;
  }

  /** A slot that names a frame out of sight ends the loop. */
  lemma ClearLoopPanics(t0: Tree, t: Tree, huge: bool, sp: nat, f: Ref, virt: nat, size: nat, leaf: nat, mapSize: nat,
                        done: nat)
    requires ClearLoop(t0, t, huge, sp, f, virt, size, leaf, mapSize, done) && Reaches(t0, sp, virt, leaf)
    requires done < size
    requires Here(virt, done, leaf) >= 0 && !Shown(Met(t, sp, Here(virt, done, leaf), leaf).frame, mapSize)
    ensures UnmapPost(t0, t, huge, sp, virt, size, leaf, leaf, mapSize, Panicked, done)
  {
    ClearLoopSlot(t0, t, huge, sp, f, virt, size, leaf, mapSize, done);
    hide Cleared, Block, WellFormed, TouchedSet, EntryAt;
    assert Met(t, sp, Here(virt, done, leaf), leaf) == Met(t, sp, Here(virt, done, leaf), leaf);
    assert Met(t0, sp, Here(virt, done, leaf), leaf) == Met(t0, sp, Here(virt, done, leaf), leaf);
  }

  // ----- The call -----

  /** What a call of vmem_unmap_st at level `lv` on table `f` may rely on. */
  ghost predicate UnmapPre(t: Tree, huge: bool, sp: nat, f: Ref, virt: nat, size: nat, lv: nat, leaf: nat) {
    && WholePages(virt, size, leaf) && lv <= leaf && WellFormed(t, huge)
    && Reaches(t, sp, virt, lv) && t.dir[Pos(sp, lv, Block(virt, lv))] == f
    && (Reaches(t, sp, virt, leaf) ==> NoTables(t, sp, TouchedSet(virt, size, leaf), leaf))
  }

  /** What it leaves. If the table of the start is there and all that the call meets is in sight, the touched
      pages of that table are cleared and nothing else changes. Over a frame out of sight it panics, on the way
      down with nothing changed, in the table with the pages before it cleared. Without the table nothing
      changes, and the call panics under a larger page and else reports no mapping. */
  ghost predicate UnmapPost(t0: Tree, t: Tree, huge: bool, sp: nat, virt: nat, size: nat, lv: nat, leaf: nat,
                            mapSize: nat, ret: Status, done: nat)
    requires leaf <= 3
  {
    && WellFormed(t, huge) && t.mem.Keys == t0.mem.Keys && Cleared(t0, t, sp, TouchedSet(virt, done, leaf))
    && if size == 0 then ret == Done && done == 0
       else if !WayInSight(t0, sp, virt, lv, leaf, mapSize) then ret == Panicked && t == t0
       else if !Reaches(t0, sp, virt, leaf) then
         t == t0 && ret == if See(t0, sp, virt, leaf, 0).Larger? then Panicked else NoMapping
       else if InSight(t0, sp, TouchedSet(virt, size, leaf), leaf, mapSize) then ret == Done && done == size
       else
         && ret == Panicked && done < size && Here(virt, done, leaf) >= 0
         && !Shown(Met(t0, sp, Here(virt, done, leaf), leaf).frame, mapSize)
  }

  lemma UnmapStarts(t: Tree, huge: bool, sp: nat, f: Ref, virt: nat, size: nat, lv: nat, leaf: nat, mapSize: nat)
    requires UnmapPre(t, huge, sp, f, virt, size, lv, leaf)
    ensures lv == leaf ==> ClearLoop(t, t, huge, sp, f, virt, size, leaf, mapSize, 0) && Reaches(t, sp, virt, leaf)
  {
    hide ClearLoop;
    if lv == leaf {
      UnmapLeafStarts(t, huge, sp, f, virt, size, leaf, mapSize);
    }
  }

  lemma UnmapLeafStarts(t: Tree, huge: bool, sp: nat, f: Ref, virt: nat, size: nat, leaf: nat, mapSize: nat)
    requires UnmapPre(t, huge, sp, f, virt, size, leaf, leaf)
    ensures ClearLoop(t, t, huge, sp, f, virt, size, leaf, mapSize, 0) && Reaches(t, sp, virt, leaf)
  {
    ClearLoopStarts(t, huge, sp, f, virt, size, leaf, mapSize);
  }

  lemma UnmapNothing(t: Tree, huge: bool, sp: nat, f: Ref, virt: nat, lv: nat, leaf: nat, mapSize: nat)
    requires UnmapPre(t, huge, sp, f, virt, 0, lv, leaf)
    ensures UnmapPost(t, t, huge, sp, virt, 0, lv, leaf, mapSize, Done, 0)
  {
    hide WellFormed, Look;
    NothingTouched(virt, leaf);
  }

  /** Above the leaf level the range is smaller than a slot, and the entry decides. */
  lemma UnmapInner(t: Tree, huge: bool, sp: nat, f: Ref, virt: nat, size: nat, lv: nat, leaf: nat, mapSize: nat)
    requires UnmapPre(t, huge, sp, f, virt, size, lv, leaf) && lv < leaf && size > 0
    ensures f in t.mem && |t.mem[f]| == 512 && size < Span(lv + 1) && t.mem[f][Index(virt, lv)] == Met(t, sp, virt, lv)
    ensures var e := t.mem[f][Index(virt, lv)];
      if !Shown(e.frame, mapSize) then UnmapPost(t, t, huge, sp, virt, size, lv, leaf, mapSize, Panicked, 0)
      else if !e.present then UnmapPost(t, t, huge, sp, virt, size, lv, leaf, mapSize, NoMapping, 0)
      else if e.large then UnmapPost(t, t, huge, sp, virt, size, lv, leaf, mapSize, Panicked, 0)
      else UnmapPre(t, huge, sp, Frame(e.frame), virt, size, lv + 1, leaf)
  {
    BlockNest(virt, lv);
    SpanShrinks(lv + 1, leaf);
    SlotInTable(t, huge, sp, f, virt, lv, Block(virt, lv), Index(virt, lv));
    assert EntryOk(t, huge, sp, lv, Block(virt, lv + 1));
    LookFrom(t, huge, sp, virt, leaf, lv);
    NothingTouched(virt, leaf);
    var e := t.mem[f][Index(virt, lv)];
    if !e.present || e.large {
      NotReached(t, huge, sp, virt, lv, leaf);
    }
    hide WellFormed, EntryAt, NoTables, Cleared;
    if !e.present && Shown(e.frame, mapSize) {
      NothingBelow(t, huge, sp, virt, lv + 1);
      assert WayInSight(t, sp, virt, lv, leaf, mapSize);
    }
  }

  /** The recursive call's outcome is that of the call. */
  lemma UnmapReturns(t0: Tree, t: Tree, huge: bool, sp: nat, virt: nat, size: nat, lv: nat, leaf: nat, mapSize: nat,
                     ret: Status, done: nat)
    requires lv < leaf <= 3 && Shown(Met(t0, sp, virt, lv).frame, mapSize)
    requires UnmapPost(t0, t, huge, sp, virt, size, lv + 1, leaf, mapSize, ret, done)
    ensures UnmapPost(t0, t, huge, sp, virt, size, lv, leaf, mapSize, ret, done)
  {
    hide WellFormed, Cleared, See, InSight, Met;
    assert WayInSight(t0, sp, virt, lv, leaf, mapSize) <==> WayInSight(t0, sp, virt, lv + 1, leaf, mapSize);
  }

  lemma NotReached(t: Tree, huge: bool, sp: nat, virt: nat, lv: nat, leaf: nat)
    requires WellFormed(t, huge) && lv < leaf <= 3 && (!Met(t, sp, virt, lv).present || Met(t, sp, virt, lv).large)
    ensures !Reaches(t, sp, virt, leaf)
  {
    hide WellFormed, EntryAt;
    if Reaches(t, sp, virt, leaf) {
      PathAbove(t, huge, sp, virt, leaf);
    }
  }

  lemma SpanShrinks(a: nat, b: nat)
    requires a <= b <= 4
    ensures Span(b) <= Span(a)
  {
  }

  // ----- Undoing a mapping -----

  predicate InRange(virt: nat, size: nat, va: nat) { virt <= va < virt + size }

  /** The addresses of a range. */
  ghost function Range(virt: nat, size: nat): iset<nat> {
    iset va: nat | InRange(virt, size, va)
  }

  /** What is open is not translated; what is under a larger page is. */
  lemma {:induction false} SeenAndLooked(t: Tree, sp: nat, va: nat, leaf: nat, lv: nat)
    requires lv <= leaf <= 3
    ensures See(t, sp, va, leaf, lv).Open? ==> Look(t, sp, va, lv) == None
    ensures var s := See(t, sp, va, leaf, lv);
      s.Larger? ==> s.at <= 3 && Look(t, sp, va, lv) == Some(s.e.frame * PAGE + va % Span(s.at + 1))
    decreases leaf - lv
  {
    hide Block, Span, EntryAt;
    if lv < leaf && Met(t, sp, va, lv).present {
      SeenAndLooked(t, sp, va, leaf, lv + 1);
    }
  }

  lemma {:induction false} TakenReaches(t: Tree, huge: bool, sp: nat, va: nat, leaf: nat, lv: nat)
    requires WellFormed(t, huge) && lv <= leaf <= 3 && See(t, sp, va, leaf, lv).Taken? && Reaches(t, sp, va, lv)
    ensures Reaches(t, sp, va, leaf)
    decreases leaf - lv
  {
    if lv < leaf {
      assert EntryOk(t, huge, sp, lv, Block(va, lv + 1));
      TakenReaches(t, huge, sp, va, leaf, lv + 1);
    }
  }

  lemma {:induction false} TakenIsMet(t: Tree, sp: nat, va: nat, leaf: nat, lv: nat)
    requires lv <= leaf <= 3 && See(t, sp, va, leaf, lv).Taken?
    ensures See(t, sp, va, leaf, lv).e == Met(t, sp, va, leaf) && Met(t, sp, va, leaf).present
    decreases leaf - lv
  {
    if lv < leaf {
      TakenIsMet(t, sp, va, leaf, lv + 1);
    }
  }

  /** The code finds room for the whole set. */
  ghost predicate AllPassable(t: Tree, sp: nat, got: iset<nat>, leaf: nat)
    requires leaf <= 3
  {
    forall va: nat {:trigger See(t, sp, va, leaf, 0)} :: va in got ==> Passable(See(t, sp, va, leaf, 0))
  }

  /** Every translation of every space is as it was. */
  ghost predicate SameTranslations(t: Tree, t': Tree) {
    forall s: nat, va: nat {:trigger Look(t', s, va, 0)} :: va < VA_LIMIT ==> Look(t', s, va, 0) == Look(t, s, va, 0)
  }

  /** A call at the root on whole pages, fewer than one table of them. */
  ghost predicate PagesCall(t: Tree, huge: bool, c: Call) {
    && MapPre(t, huge, c) && c.lv == 0 && c.f == Root(c.sp) && c.size > 0 && WholePages(c.virt, c.size, c.leaf)
  }

  /** A slot that unmapping would touch outside the range does not point at a table. */
  ghost predicate NoTablesAround(t: Tree, sp: nat, virt: nat, size: nat, leaf: nat)
    requires leaf <= 3
  {
    forall va: nat {:trigger See(t, sp, va, leaf, 0)} :: Touched(virt, size, leaf, va) && !InRange(virt, size, va) ==>
      See(t, sp, va, leaf, 0).Taken? ==> TakenByPage(See(t, sp, va, leaf, 0), leaf)
  }

  lemma PagesStart(c: Call)
    requires c.Levels() && WholePages(c.virt, c.size, c.leaf)
    ensures c.Start() == c.virt
  {
  }

  lemma SpaceEndsAt(c: Call)
    requires c.Levels() && c.lv == 0 && c.virt < VA_LIMIT
    ensures c.End() == VA_LIMIT
  {
  }

  lemma MappedWasPassable(t0: Tree, t1: Tree, j: Job, got: iset<nat>)
    requires Overlay(t0, t1, j, got, got)
    ensures AllPassable(t0, j.sp, got, j.leaf)
  {
    hide Look, See, Target;
    forall va: nat | va in got ensures Passable(See(t0, j.sp, va, j.leaf, 0)) {
      assert Effect(t0, t1, j, got, got, j.sp, va);
    }
  }

  /** The touched part of the range has no holes. */
  lemma TouchedIsMapped(virt: nat, size: nat, leaf: nat, va: nat)
    requires WholePages(virt, size, leaf) && Touched(virt, size, leaf, va) && InRange(virt, size, va)
    ensures va in Region(virt, virt + size)
  {
    hide Block, Span, Hole;
    NoHoleInTable(virt, va, leaf);
  }

  /** A call that goes through leaves the touched slots as unmapping needs them. */
  lemma MapReadyToUnmap(t0: Tree, t1: Tree, huge: bool, c: Call, done: nat)
    requires PagesCall(t0, huge, c) && NoTablesAround(t0, c.sp, c.virt, c.size, c.leaf)
    requires MapPost(t0, t1, huge, c, Done, done)
    ensures UnmapPre(t1, huge, c.sp, c.f, c.virt, c.size, 0, c.leaf) && Reaches(t1, c.sp, c.virt, c.leaf)
    ensures c.Start() == c.virt && c.Goal() == c.virt + c.size <= VA_LIMIT && !Under(c.virt, c.Goal())
    ensures Overlay(t0, t1, c.Work(), Region(c.virt, c.Goal()), Region(c.virt, c.Goal()))
    ensures AllPassable(t0, c.sp, Region(c.virt, c.Goal()), c.leaf)
  {
    hide Look, See, WellFormed, Block, Span, LeafFrom, Overlay, Region, Under, NoTablesAround, Base;
    PagesStart(c);
    SpaceEndsAt(c);
    var got := Region(c.virt, c.Goal());
    OverlayKeepsPlaces(t0, t1, c.Work(), got, got, Pos(c.sp, 0, Block(c.virt, 0)));
    MappedWasPassable(t0, t1, c.Work(), got);
    StartIsMapped(t0, t1, huge, c);
    MappedIsUnmappable(t0, t1, huge, c);
  }

  lemma StartIsMapped(t0: Tree, t1: Tree, huge: bool, c: Call)
    requires c.Levels() && WholePages(c.virt, c.size, c.leaf) && c.size > 0 && WellFormed(t1, huge)
    requires Overlay(t0, t1, c.Work(), Region(c.virt, c.virt + c.size), Region(c.virt, c.virt + c.size))
    requires Reaches(t1, c.sp, c.virt, 0)
    ensures Reaches(t1, c.sp, c.virt, c.leaf)
  {
    hide Look, See, WellFormed, Block, Span, Region, Target;
    var got := Region(c.virt, c.virt + c.size);
    StartInRegion(c.virt, c.size);
    assert Effect(t0, t1, c.Work(), got, got, c.sp, c.virt);
    TakenReaches(t1, huge, c.sp, c.virt, c.leaf, 0);
  }

  lemma MappedIsUnmappable(t0: Tree, t1: Tree, huge: bool, c: Call)
    requires c.Levels() && WholePages(c.virt, c.size, c.leaf) && WellFormed(t1, huge)
    requires Overlay(t0, t1, c.Work(), Region(c.virt, c.virt + c.size), Region(c.virt, c.virt + c.size))
    requires Reaches(t1, c.sp, c.virt, c.leaf) && NoTablesAround(t0, c.sp, c.virt, c.size, c.leaf)
    ensures NoTables(t1, c.sp, TouchedSet(c.virt, c.size, c.leaf), c.leaf)
  {
    hide Look, See, WellFormed, Block, Span, Region, EntryAt, Touched, Overlay, NoTablesAround, Base, Met;
    forall va: nat | Touched(c.virt, c.size, c.leaf, va) && Met(t1, c.sp, va, c.leaf).present
      ensures Met(t1, c.sp, va, c.leaf).large || c.leaf == 3
    {
      TouchedReaches(t1, c.sp, c.virt, c.size, c.leaf, va);
      LeafSlot(t1, huge, c.sp, va, c.leaf);
      TakenIsMet(t1, c.sp, va, c.leaf, 0);
      TouchedSeesPage(t0, t1, c, va);
    }
  }

  /** A touched slot that is taken after the mapping holds a page: one just mapped, or one from before. */
  lemma TouchedSeesPage(t0: Tree, t1: Tree, c: Call, va: nat)
    requires c.Levels() && WholePages(c.virt, c.size, c.leaf) && Touched(c.virt, c.size, c.leaf, va)
    requires Overlay(t0, t1, c.Work(), Region(c.virt, c.virt + c.size), Region(c.virt, c.virt + c.size))
    requires NoTablesAround(t0, c.sp, c.virt, c.size, c.leaf)
    requires See(t1, c.sp, va, c.leaf, 0).Taken?
    ensures TakenByPage(See(t1, c.sp, va, c.leaf, 0), c.leaf)
  {
    hide Look, See, Block, Span, Region, Target, Touched, Struck, Base;
    var got := Region(c.virt, c.virt + c.size);
    assert Effect(t0, t1, c.Work(), got, got, c.sp, va);
    if InRange(c.virt, c.size, va) {
      TouchedIsMapped(c.virt, c.size, c.leaf, va);
    }
  }

  lemma TouchedReaches(t: Tree, sp: nat, virt: nat, size: nat, leaf: nat, va: nat)
    requires leaf <= 3 && Touched(virt, size, leaf, va) && Reaches(t, sp, virt, leaf)
    ensures Reaches(t, sp, va, leaf)
  {
  }

  /** A call that does not go through, on a range that neither ends in a hole nor leaves the space, has met
      something in the range, lacked a frame for a table of it, or had a table out of sight. */
  lemma MapNotThrough(t0: Tree, t1: Tree, huge: bool, c: Call, fr: Frames, ret: Status, done: nat)
    requires PagesCall(t0, huge, c) && MapPost(t0, t1, huge, c, ret, done) && FrameUse(c, fr, ret, done)
    requires ret != Done && !Under(c.virt, c.virt + c.size) && c.virt + c.size <= VA_LIMIT
    ensures if ret == Panicked then fr.seen ==> fr.had < Tables(0, c.leaf, c.virt, c.virt + c.size - 1)
            else !AllPassable(t0, c.sp, Region(c.virt, c.virt + c.size), c.leaf)
  {
    hide Look, See, WellFormed, Block, Span, LeafFrom, Overlay, Base, Under, Slots, Hole;
    PagesStart(c);
    SpaceEndsAt(c);
    if ret == Panicked {
      SlotsMonotone(c.virt + done, c.virt + c.size - 1, 0, c.leaf);
    } else {
      assert !Passable(See(t0, c.sp, c.virt + done, c.leaf, 0));
    }
  }

  // ----- When unmapping restores everything -----

  /** A range that crosses into the next table, and does not end in a hole, has the next table's first page. */
  lemma CrossingMapsNext(virt: nat, size: nat, leaf: nat)
    requires WholePages(virt, size, leaf) && Crosses(virt, size, leaf) && !Under(virt, virt + size)
    ensures var next := (Block(virt, leaf) + 1) * Span(leaf);
      next in Region(virt, virt + size) && next !in TouchedSet(virt, size, leaf)
  {
    hide Block, Span, Touched;
    var next, goal := (Block(virt, leaf) + 1) * Span(leaf), virt + size;
    EndOfBlock(virt, leaf, next);
    CrossingPasses(virt, size, leaf);
    assert !Hole(virt, next) by {
      if j :| 0 <= j <= 2 && SkippedAt(virt, next, j) {
        if j + 2 <= leaf {
          HoleAtNext(virt, size, leaf, j);
        } else {
          AlignedUp(virt, leaf + 1, j + 2);
        }
      }
    }
    assert !Touched(virt, size, leaf, next) by { NotTouchedNext(virt, size, leaf, next); }
  }

  lemma NotTouchedNext(virt: nat, size: nat, leaf: nat, next: nat)
    requires leaf <= 3 && Block(next, leaf) != Block(virt, leaf)
    ensures !Touched(virt, size, leaf, next)
  {
  }

  lemma CrossingPasses(virt: nat, size: nat, leaf: nat)
    requires leaf <= 3 && Crosses(virt, size, leaf)
    ensures virt < (Block(virt, leaf) + 1) * Span(leaf) < virt + size
  {
    hide Block;
    var next := (Block(virt, leaf) + 1) * Span(leaf);
    EndOfBlock(virt, leaf, next);
    if virt + size - 1 < next {
      BlockMonotone(virt, virt + size - 1, leaf);
      BlockMonotone(virt + size - 1, next - 1, leaf);
    }
    NotAtEdge(virt, size, leaf);
  }

  lemma NotAtEdge(virt: nat, size: nat, leaf: nat)
    requires leaf <= 3 && size > 0 && Block(virt + size - 1, leaf) != Block(virt, leaf)
    ensures virt + size != (Block(virt, leaf) + 1) * Span(leaf)
  {
    hide Block;
    if virt + size == (Block(virt, leaf) + 1) * Span(leaf) {
      EndOfBlock(virt, leaf, virt + size);
    }
  }

  /** If the next table's first page were in a hole of level `j`, so would be the end of the range. */
  lemma HoleAtNext(virt: nat, size: nat, leaf: nat, j: nat)
    requires WholePages(virt, size, leaf) && j + 2 <= leaf
    requires var next := (Block(virt, leaf) + 1) * Span(leaf); virt < next < virt + size && SkippedAt(virt, next, j)
    ensures Under(virt, virt + size)
  {
    hide Block;
    var next, goal := (Block(virt, leaf) + 1) * Span(leaf), virt + size;
    EndOfBlock(virt, leaf, next);
    SameBlockAbove(next - 1, virt, leaf, j + 1);
    BlockEdge(next, j + 1);
    BlockBounds(virt, leaf);
    NextOffset(Block(virt, leaf), leaf);
    OffsetsShrink(virt, j + 2, leaf);
    SpansShrink(j + 1, leaf);
    assert goal - next < virt % Span(leaf);
    OffsetInNext(next, goal, j + 1);
    assert SkippedAt(virt, goal, j) && goal % Span(j + 1) > 0;
  }

  lemma NextOffset(n: nat, k: nat)
    requires k <= 4
    ensures (n + 1) * Span(k) == n * Span(k) + Span(k)
  {
    if k == 0 {} else if k == 1 {} else if k == 2 {} else if k == 3 {} else {}
  }

  lemma OffsetsShrink(x: nat, i: nat, k: nat)
    requires i <= k <= 4
    ensures x % Span(k) <= x % Span(i)
    decreases k - i
  {
    hide Span;
    if i < k {
      ModShrinks(x, i);
      OffsetsShrink(x, i + 1, k);
    }
  }

  lemma SpansShrink(i: nat, k: nat)
    requires i <= k <= 4
    ensures Span(k) <= Span(i)
  {
  }

  lemma OffsetInNext(next: nat, goal: nat, k: nat)
    requires k <= 4 && next % Span(k) == 0 && next < goal < next + Span(k)
    ensures goal % Span(k) == goal - next && Block(goal, k) == Block(next, k)
  {
    BlockBounds(next, k);
    BlockUnique(goal, k, Block(next, k));
    BlockBounds(goal, k);
  }

  /** What mapping and then unmapping leaves at one address. */
  lemma MapUnmapAt(t0: Tree, t1: Tree, t2: Tree, c: Call, s: nat, va: nat)
    requires c.Levels() && va < VA_LIMIT
    requires Overlay(t0, t1, c.Work(), Region(c.virt, c.virt + c.size), Region(c.virt, c.virt + c.size))
    requires Cleared(t1, t2, c.sp, TouchedSet(c.virt, c.size, c.leaf))
    ensures s != c.sp ==> Look(t2, s, va, 0) == Look(t0, s, va, 0)
    ensures s == c.sp && va in TouchedSet(c.virt, c.size, c.leaf) ==> Look(t2, s, va, 0) == None
    ensures s == c.sp && va in Region(c.virt, c.virt + c.size) && va !in TouchedSet(c.virt, c.size, c.leaf) ==>
      Look(t2, s, va, 0) == Some(Target(c.Work(), va))
    ensures s == c.sp && va !in Region(c.virt, c.virt + c.size) && va !in TouchedSet(c.virt, c.size, c.leaf) ==>
      Look(t2, s, va, 0) == if Struck(See(t0, s, va, c.leaf, 0), Region(c.virt, c.virt + c.size), va) then None
                            else Look(t0, s, va, 0)
    ensures s == c.sp && va in Region(c.virt, c.virt + c.size) ==> Passable(See(t0, s, va, c.leaf, 0))
  {
    hide Look, See, Target, Struck, Region, TouchedSet, Base;
    var got := Region(c.virt, c.virt + c.size);
    assert Effect(t0, t1, c.Work(), got, got, s, va);
    assert Look(t2, s, va, 0) == Look(t2, s, va, 0);
  }

  /** Inside one table, and with no page at physical 0 in the way, every translation is restored. */
  lemma UnmapUndoesMap(t0: Tree, t1: Tree, t2: Tree, c: Call, s: nat, va: nat)
    requires c.Levels() && va < VA_LIMIT && InOneTable(c.virt, c.size, c.leaf) && c.Start() == c.virt
    requires Overlay(t0, t1, c.Work(), Region(c.virt, c.virt + c.size), Region(c.virt, c.virt + c.size))
    requires Cleared(t1, t2, c.sp, TouchedSet(c.virt, c.size, c.leaf))
    requires NoZeroPage(t0, c.Work(), Region(c.virt, c.virt + c.size))
    ensures Look(t2, s, va, 0) == Look(t0, s, va, 0)
  {
    hide Look, See, Target, Struck, Region, TouchedSet, Base;
    MapUnmapAt(t0, t1, t2, c, s, va);
    SeenAndLooked(t0, c.sp, va, c.leaf, 0);
    NothingStruck(t0, c.Work(), Region(c.virt, c.virt + c.size), va);
    OneTableTouches(c.virt, c.size, c.leaf, va);
    if s == c.sp && va in Region(c.virt, c.virt + c.size) {
      assert !ZeroPage(See(t0, c.sp, va, c.leaf, 0));
    }
  }

  lemma OneTableTouches(virt: nat, size: nat, leaf: nat, va: nat)
    requires InOneTable(virt, size, leaf)
    ensures va in TouchedSet(virt, size, leaf) <==> va in Region(virt, virt + size)
  {
    hide Block, Span, Hole;
    OneTableTouchesRange(virt, size, leaf, va);
    if InRange(virt, size, va) {
      TouchedIsMapped(virt, size, leaf, va);
    }
  }

  lemma OneTableTouchesRange(virt: nat, size: nat, leaf: nat, va: nat)
    requires InOneTable(virt, size, leaf)
    ensures Touched(virt, size, leaf, va) <==> InRange(virt, size, va)
  {
    BlockBounds(virt, leaf);
    BlockBounds(va, leaf);
    if size > 0 {
      BlockBounds(virt + size - 1, leaf);
      if InRange(virt, size, va) {
        BlockUnique(va, leaf, Block(virt, leaf));
      }
    }
    hide Block;
  }

  /** A page at physical 0 in the way: some address of it outside the range has lost its translation. */
  lemma ZeroPageNotRestored(t0: Tree, t1: Tree, t2: Tree, c: Call, w: nat) returns (va: nat)
    requires c.Levels() && WholePages(c.virt, c.size, c.leaf) && c.Start() == c.virt && c.virt + c.size <= VA_LIMIT
    requires Overlay(t0, t1, c.Work(), Region(c.virt, c.virt + c.size), Region(c.virt, c.virt + c.size))
    requires Cleared(t1, t2, c.sp, TouchedSet(c.virt, c.size, c.leaf))
    requires w in Region(c.virt, c.virt + c.size) && ZeroPage(See(t0, c.sp, w, c.leaf, 0))
    ensures va < VA_LIMIT && Look(t2, c.sp, va, 0) == None && Look(t0, c.sp, va, 0).Some?
  {
    hide Look, See, Target, TouchedSet, Base, Block, Hole, Span;
    LargerIsMet(t0, c.sp, w, c.leaf, 0);
    var l := See(t0, c.sp, w, c.leaf, 0).at;
    va := OutsideRange(c.virt, c.size, c.leaf, w, l + 1);
    SameBlockAbove(va, w, l + 1, 0);
    SpaceIsOneBlock(va, w);
    PageSeenByAll(t0, c.sp, w, va, c.leaf, 0);
    SeenAndLooked(t0, c.sp, va, c.leaf, 0);
    MapUnmapAt(t0, t1, t2, c, c.sp, va);
    assert Near(Region(c.virt, c.virt + c.size), va, l + 1);
  }

  lemma SpaceIsOneBlock(va: nat, w: nat)
    requires Block(va, 0) == Block(w, 0) && w < VA_LIMIT
    ensures va < VA_LIMIT
  {
  }

  /** A block as large as a table is not inside the range. */
  lemma OutsideRange(virt: nat, size: nat, leaf: nat, w: nat, k: nat) returns (va: nat)
    requires WholePages(virt, size, leaf) && k <= leaf
    ensures Block(va, k) == Block(w, k) && !InRange(virt, size, va) && va !in Region(virt, virt + size)
  {
    SpansShrink(k, leaf);
    hide Span;
    BlockBounds(w, k);
    var first, last := Block(w, k) * Span(k), Block(w, k) * Span(k) + Span(k) - 1;
    BlockUnique(first, k, Block(w, k));
    BlockUnique(last, k, Block(w, k));
    va := if InRange(virt, size, first) then last else first;
  }

  /** Mapping and then unmapping restores every translation of every space if and only if the range lies in one
      table and no page at physical 0 was in its way. */
  lemma UnmapRestoresIff(t0: Tree, t1: Tree, t2: Tree, c: Call)
    requires c.Levels() && WholePages(c.virt, c.size, c.leaf) && c.size > 0 && c.Start() == c.virt
    requires c.virt + c.size <= VA_LIMIT && !Under(c.virt, c.virt + c.size)
    requires Overlay(t0, t1, c.Work(), Region(c.virt, c.virt + c.size), Region(c.virt, c.virt + c.size))
    requires Cleared(t1, t2, c.sp, TouchedSet(c.virt, c.size, c.leaf))
    ensures SameTranslations(t0, t2)
       <==> !Crosses(c.virt, c.size, c.leaf) && NoZeroPage(t0, c.Work(), Region(c.virt, c.virt + c.size))
  {
    hide Look, See, WellFormed, Overlay, Cleared, Base, Region, TouchedSet, Under, Crosses, Block, Span;
    var got := Region(c.virt, c.virt + c.size);
    if !NoZeroPage(t0, c.Work(), got) {
      var w: nat :| w in got && ZeroPage(See(t0, c.sp, w, c.leaf, 0));
      var va := ZeroPageNotRestored(t0, t1, t2, c, w);
    } else if Crosses(c.virt, c.size, c.leaf) {
      var va := NextNotRestored(t0, t1, t2, c);
    } else {
      forall s: nat, va: nat | va < VA_LIMIT ensures Look(t2, s, va, 0) == Look(t0, s, va, 0) {
        UnmapUndoesMap(t0, t1, t2, c, s, va);
      }
    }
  }

  /** The first page of the next table stays mapped. */
  lemma NextNotRestored(t0: Tree, t1: Tree, t2: Tree, c: Call) returns (va: nat)
    requires c.Levels() && WholePages(c.virt, c.size, c.leaf) && c.Start() == c.virt && c.virt + c.size <= VA_LIMIT
    requires Crosses(c.virt, c.size, c.leaf) && !Under(c.virt, c.virt + c.size)
    requires Overlay(t0, t1, c.Work(), Region(c.virt, c.virt + c.size), Region(c.virt, c.virt + c.size))
    requires Cleared(t1, t2, c.sp, TouchedSet(c.virt, c.size, c.leaf))
    requires NoZeroPage(t0, c.Work(), Region(c.virt, c.virt + c.size))
    ensures va == (Block(c.virt, c.leaf) + 1) * Span(c.leaf) < VA_LIMIT
    ensures Look(t2, c.sp, va, 0) == Some(Target(c.Work(), va)) && Look(t0, c.sp, va, 0) == None
  {
    hide Look, See, Target, TouchedSet, Base, Block, Hole, Span, Under;
    va := (Block(c.virt, c.leaf) + 1) * Span(c.leaf);
    CrossingMapsNext(c.virt, c.size, c.leaf);
    MapUnmapAt(t0, t1, t2, c, c.sp, va);
    assert !ZeroPage(See(t0, c.sp, va, c.leaf, 0));
    SeenAndLooked(t0, c.sp, va, c.leaf, 0);
  }

  // ----- An input that fails -----

  const CROSSING_VIRT := 0x1f_f000
  const CROSSING_SIZE := 0x2000

  /** 0x2000 bytes from 0x1ff000 on: the mapping uses two tables, and the unmapping, unless it panics over a frame
      out of sight, reports success, leaves page 0x200000 mapped and takes away the translation of page 0, which
      was not in the range. */
  lemma CrossingUnmapFails(t0: Tree, t1: Tree, t2: Tree, huge: bool, c: Call, done: nat, mapSize: nat, ret: Status,
                           gone: nat)
    requires PagesCall(t0, huge, c) && c.virt == CROSSING_VIRT && c.size == CROSSING_SIZE
    requires NoTablesAround(t0, c.sp, c.virt, c.size, c.leaf) && MapPost(t0, t1, huge, c, Done, done)
    requires UnmapPost(t1, t2, huge, c.sp, c.virt, c.size, 0, c.leaf, mapSize, ret, gone) && ret != Panicked
    ensures c.leaf == 3 && ret == Done
    ensures Look(t2, c.sp, 0x20_0000, 0) == Some(Target(c.Work(), 0x20_0000))
    ensures Look(t2, c.sp, 0, 0) == None
  {
    hide Look, See, WellFormed, Overlay, Cleared, Base, Region, Under, Target, MapPost;
    MapReadyToUnmap(t0, t1, huge, c, done);
    assert c.leaf == 3;
    assert Crosses(c.virt, c.size, 3);
    CrossingMapsNext(c.virt, c.size, 3);
    assert Touched(c.virt, c.size, 3, 0);
    MapUnmapAt(t0, t1, t2, c, c.sp, 0x20_0000);
    MapUnmapAt(t0, t1, t2, c, c.sp, 0);
  }
}
