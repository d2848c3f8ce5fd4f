/** The steps of vmem_map_st: what its two loops rely on, keep and leave. */
module MapSteps {
  import opened Paging
  import opened MapEffects
  import opened PageTables
  import opened Holes

  /** A call at level `lv` on table `f` of space `sp`: its arguments, and the level of the pages it maps. */
  datatype Call = Call(sp: nat, f: Ref, virt: nat, phys: nat, size: nat, perms: Perms, lv: nat, leaf: nat) {
    predicate Levels() { lv <= leaf && 1 <= leaf <= 3 }

    /** The range starts at the address rounded down to the page size. */
    function Start(): nat
      requires Levels()
    {
      Base(virt, leaf)
    }

    function Goal(): nat
      requires Levels()
    {
      Start() + size
    }

    /** The first address behind the call's table. */
    function End(): nat
      requires Levels()
    {
      (Block(virt, lv) + 1) * Span(lv)
    }

    function Work(): Job
      requires Levels()
    {
      Job(sp, phys - Start(), leaf, FlagsOf(perms))
    }
  }

  /** What a call may rely on: it is on the table that the walk of its address reads. */
  ghost predicate MapPre(t: Tree, huge: bool, c: Call) {
    && c.Levels() && c.leaf == LeafFrom(c.size, huge, c.lv) && c.size % PAGE == 0 && c.size < WORD
    && c.virt < VA_LIMIT && WellFormed(t, huge)
    && Pos(c.sp, c.lv, Block(c.virt, c.lv)) in t.dir && t.dir[Pos(c.sp, c.lv, Block(c.virt, c.lv))] == c.f
  }

  /** There is more to map at `at`: the range goes on, or its size has wrapped. */
  ghost predicate GoesOn(c: Call, at: nat)
    requires c.Levels()
  {
    at < c.Goal() || Under(c.Start(), c.Goal())
  }

  /** What it leaves: of the first `done` bytes from the start of the range, exactly the addresses that are
      not holes are newly mapped. It reports
      - success if that is the whole range, which lies in the table and does not end in a hole;
      - that the caller must go on if it has reached the end of its table and the range has not;
      - an existing mapping if the next address was not free. */
  ghost predicate MapPost(t0: Tree, t: Tree, huge: bool, c: Call, ret: Status, done: nat)
    requires c.Levels()
  {
    var a, at := c.Start(), c.Start() + done;
    var got := Region(a, at);
    && WellFormed(t, huge)
    && (Overlay(t0, t, c.Work(), got, got) || (ret == Panicked && Overlay(t0, t, c.Work(), got, got + iset{at})))
    && match ret {
      case Done => at == c.Goal() <= c.End() && !Under(a, at)
      case Continue => at == c.End() && (c.Goal() > at || Under(a, c.Goal()))
      case AlreadyMapped =>
        at < c.End() && !Hole(a, at) && GoesOn(c, at) && !Passable(See(t0, c.sp, at, c.leaf, 0))
      case Panicked => at < c.End() && !Hole(a, at) && GoesOn(c, at)
      case NoMapping => false
    }
  }

  lemma LeafFacts(size: nat, huge: bool, lv: nat)
    requires lv <= 3 && size % PAGE == 0
    ensures size % Span(LeafFrom(size, huge, lv) + 1) == 0 && LargeAvail(LeafFrom(size, huge, lv), huge)
    decreases 3 - lv
  {
  }

  lemma LeafHere(t: Tree, huge: bool, c: Call)
    requires MapPre(t, huge, c)
    ensures c.leaf == c.lv <==> c.size % Span(c.lv + 1) == 0 && LargeAvail(c.lv, huge)
  {
  }

  /** A slot of level `leaf` starts at `at`; so does the next one, one page further on. */
  lemma NextSlot(at: nat, leaf: nat)
    requires leaf <= 3 && at == Block(at, leaf + 1) * Span(leaf + 1)
    ensures Block(at + Span(leaf + 1), leaf + 1) == Block(at, leaf + 1) + 1
    ensures at + Span(leaf + 1) == (Block(at, leaf + 1) + 1) * Span(leaf + 1)
  {
    SlotOfBlock(0, leaf, Block(at, leaf + 1));
    BlockUnique(at + Span(leaf + 1), leaf + 1, Block(at, leaf + 1) + 1);
  }

  lemma WholePagesLeft(size: nat, leaf: nat)
    requires leaf <= 3 && size > 0 && size % Span(leaf + 1) == 0
    ensures size >= Span(leaf + 1) && (size - Span(leaf + 1)) % Span(leaf + 1) == 0
  {
    RemainderKept(size, Span(leaf + 1), leaf + 1);
  }

  /** Position `idx` of table `n` at level `lv`. */
  lemma SlotInTable(t: Tree, huge: bool, sp: nat, f: Ref, at: nat, lv: nat, n: nat, idx: nat)
    requires WellFormed(t, huge) && lv <= 3 && Block(at, lv + 1) == n * 512 + idx && idx < 512
    requires Pos(sp, lv, n) in t.dir && t.dir[Pos(sp, lv, n)] == f
    ensures Reaches(t, sp, at, lv) && f in t.mem && |t.mem[f]| == 512 && Met(t, sp, at, lv) == t.mem[f][idx]
    ensures Block(at, lv) == n && Block(at, lv + 1) / 512 == n && Block(at, lv + 1) % 512 == idx
  {
    BlockNest(at, lv);
  }

  /** Slot `idx` of table `n`, by its addresses, is inside the table. */
  lemma SlotBeforeEnd(at: nat, lv: nat, n: nat, idx: nat)
    requires lv <= 3 && Block(at, lv + 1) == n * 512 + idx && idx < 512
    ensures at < (n + 1) * Span(lv)
  {
    BlockNest(at, lv);
    BlockBounds(at, lv);
    SlotOfBlock(0, lv, 0);
    if lv == 0 {} else if lv == 1 {} else if lv == 2 {} else {}
  }

  lemma TableEnd(at: nat, leaf: nat, n: nat)
    requires leaf <= 3 && at == Block(at, leaf + 1) * Span(leaf + 1) && Block(at, leaf + 1) == n * 512 + 512
    ensures at == (n + 1) * Span(leaf)
  {
    SlotOfBlock(n, leaf, 0);
  }

  /** What is not passable now, and was not mapped by the call, was there before it. */
  lemma StillInTheWay(t0: Tree, t: Tree, j: Job, got: iset<nat>, hit: iset<nat>, at: nat)
    requires Overlay(t0, t, j, got, hit) && at !in got
    requires !Passable(See(t, j.sp, at, j.leaf, 0))
    ensures !Passable(See(t0, j.sp, at, j.leaf, 0))
  {
    hide See, Look, Struck;
    assert Effect(t0, t, j, got, hit, j.sp, at);
  }

  lemma OverlayKeepsPlaces(t: Tree, t': Tree, j: Job, got: iset<nat>, hit: iset<nat>, p: Pos)
    requires Overlay(t, t', j, got, hit) && p in t.dir
    ensures p in t'.dir && t'.dir[p] == t.dir[p]
  {
    hide Effect;
  }

  // ----- Frames for new tables -----

  /** The numbers of the slots of levels above the pages that hold an address, added up. */
  function Slots(x: nat, lv: nat, leaf: nat): nat
    requires lv <= leaf <= 3
    decreases leaf - lv
  {
    if lv == leaf then 0 else Block(x, lv + 1) + Slots(x, lv + 1, leaf)
  }

  /** The tables below level `lv` that the addresses from `a` to `x` need, all levels down to the pages. */
  function Tables(lv: nat, leaf: nat, a: nat, x: nat): int
    requires lv <= leaf <= 3
  {
    Slots(x, lv, leaf) - Slots(a, lv, leaf) + leaf - lv
  }

  /** The frames left to take at the start of a call and later on, and whether vmem_phystovirt shows them and
      all tables. */
  datatype Frames = Frames(had: nat, left: nat, seen: bool)

  /** A call takes no more frames than the tables of the addresses it has been at. It panics only when none is
      left and it had fewer than the next address needs, or over a frame that vmem_phystovirt does not show. */
  ghost predicate FrameUse(c: Call, fr: Frames, ret: Status, done: nat)
    requires c.Levels()
  {
    var a, used := c.Start(), fr.had - fr.left;
    && used >= 0
    && match ret {
      case Done => used <= if done == 0 then 0 else Tables(c.lv, c.leaf, a, a + done - 1)
      case Continue => done > 0 && used <= Tables(c.lv, c.leaf, a, a + done - 1)
      case AlreadyMapped => used <= Tables(c.lv, c.leaf, a, a + done)
      case Panicked => fr.seen ==> fr.left == 0 && fr.had < Tables(c.lv, c.leaf, a, a + done)
      case NoMapping => true
    }
  }

  lemma {:induction false} SlotsGrow(x: nat, y: nat, lv: nat, leaf: nat)
    requires lv < leaf <= 3 && Block(x, lv + 1) < Block(y, lv + 1)
    ensures Slots(y, lv, leaf) >= Slots(x, lv, leaf) + leaf - lv
    decreases leaf - lv
  {
    hide Block;
    if lv + 1 < leaf {
      BlocksGrow(x, y, lv + 1, lv + 2);
      SlotsGrow(x, y, lv + 1, leaf);
    }
  }

  lemma {:induction false} SlotsMonotone(x: nat, y: nat, lv: nat, leaf: nat)
    requires lv <= leaf <= 3 && x <= y
    ensures Slots(x, lv, leaf) <= Slots(y, lv, leaf)
    decreases leaf - lv
  {
    hide Block;
    if lv < leaf {
      BlockMonotone(x, y, lv + 1);
      SlotsMonotone(x, y, lv + 1, leaf);
    }
  }

  // ----- The loop that writes pages -----

  /** The entry written for a page: the physical address masked to its field. */
  function LeafEntry(phys: nat, perms: Perms, lv: nat): Entry {
    Entry(phys / PAGE % FRAME_LIMIT, true, lv != 3, FlagsOf(perms))
  }

  lemma LeafEntryFits(phys: nat, perms: Perms, lv: nat, huge: bool)
    requires 1 <= lv <= 3 && LargeAvail(lv, huge)
    ensures IsLeaf(LeafEntry(phys, perms, lv), lv, huge)
    ensures LeafEntry(phys, perms, lv).frame == phys / PAGE % FRAME_LIMIT
    ensures LeafEntry(phys, perms, lv).flags == FlagsOf(perms)
  {
  }

  /** The loop of the page-writing branch: `done` bytes are mapped, and slot `idx` of the table is next. */
  ghost predicate LeafLoop(t0: Tree, t: Tree, huge: bool, c: Call, done: nat, idx: nat) {
    && c.Levels() && c.lv == c.leaf && LargeAvail(c.leaf, huge)
    && done <= c.size && idx <= 512 && (c.size - done) % Span(c.leaf + 1) == 0
    && WellFormed(t, huge)
    && Overlay(t0, t, c.Work(), Region(c.Start(), c.Start() + done), Region(c.Start(), c.Start() + done))
    && Pos(c.sp, c.leaf, Block(c.virt, c.leaf)) in t.dir && t.dir[Pos(c.sp, c.leaf, Block(c.virt, c.leaf))] == c.f
    && var at := c.Start() + done;
    && at == Block(at, c.leaf + 1) * Span(c.leaf + 1) && Block(at, c.leaf + 1) == Block(c.virt, c.leaf) * 512 + idx
  }

  lemma LeafLoopStarts(t: Tree, huge: bool, c: Call)
    requires MapPre(t, huge, c) && c.lv == c.leaf
    ensures LeafLoop(t, t, huge, c, 0, Index(c.virt, c.leaf))
  {
    hide WellFormed, Overlay, Block, Span, Region;
    LeafFacts(c.size, huge, c.leaf);
    BaseFacts(c.virt, c.leaf, c.leaf);
    BaseFacts(c.virt, c.leaf, c.leaf + 1);
    BlockNest(c.virt, c.leaf);
    RegionEmpty(c.Start());
    OverlayNothing(t, c.Work());
  }

  lemma StartInTable(c: Call)
    requires c.Levels()
    ensures Block(c.Start(), c.lv) == Block(c.virt, c.lv) && c.Start() % Span(c.leaf + 1) == 0
    ensures c.End() == (Block(c.Start(), c.lv) + 1) * Span(c.lv)
  {
    BaseFacts(c.virt, c.leaf, c.lv);
  }

  lemma LeafLoopRunsOff(t0: Tree, t: Tree, huge: bool, c: Call, done: nat)
    requires LeafLoop(t0, t, huge, c, done, 512) && done < c.size
    ensures MapPost(t0, t, huge, c, Continue, done) && done > 0
  {
    hide WellFormed, Overlay, Block, Span;
    StartInTable(c);
    TableEnd(c.Start() + done, c.leaf, Block(c.virt, c.leaf));
    TableEndNotUnder(c.Start(), c.End(), c.leaf);
  }

  lemma LeafLoopEnds(t0: Tree, t: Tree, huge: bool, c: Call, idx: nat)
    requires LeafLoop(t0, t, huge, c, c.size, idx)
    ensures MapPost(t0, t, huge, c, Done, c.size)
  {
    hide WellFormed, Overlay, Block, Span, Under, Region;
    var goal := c.Goal();
    StartInTable(c);
    if idx == 512 {
      TableEnd(goal, c.leaf, Block(c.virt, c.leaf));
      TableEndNotUnder(c.Start(), goal, c.leaf);
    } else {
      SlotBeforeEnd(goal, c.leaf, Block(c.virt, c.leaf), idx);
      SlotInTableBlock(goal, c.leaf, Block(c.virt, c.leaf), idx);
      NoHoleInTable(c.Start(), goal, c.leaf);
      NotUnderOutsideHoles(c.Start(), goal);
    }
  }

  lemma SlotInTableBlock(at: nat, lv: nat, n: nat, idx: nat)
    requires lv <= 3 && Block(at, lv + 1) == n * 512 + idx && idx < 512
    ensures Block(at, lv) == n
  {
    BlockNest(at, lv);
  }

  lemma NotUnderOutsideHoles(a: nat, goal: nat)
    requires !Hole(a, goal)
    ensures !Under(a, goal)
  {
  }

  lemma LeafLoopSlot(t0: Tree, t: Tree, huge: bool, c: Call, done: nat, idx: nat)
    requires LeafLoop(t0, t, huge, c, done, idx) && done < c.size && idx < 512
    ensures c.f in t.mem && |t.mem[c.f]| == 512
    ensures t.mem[c.f][idx].present ==> MapPost(t0, t, huge, c, AlreadyMapped, done)
    ensures !t.mem[c.f][idx].present ==> Met(t, c.sp, c.Start() + done, c.leaf) == EMPTY
  {
    hide Overlay, Block, Span, See, EntryAt, Hole;
    var a, at := c.Start(), c.Start() + done;
    StartInTable(c);
    SlotInTable(t, huge, c.sp, c.f, at, c.leaf, Block(c.virt, c.leaf), idx);
    SlotBeforeEnd(at, c.leaf, Block(c.virt, c.leaf), idx);
    NoHoleInTable(a, at, c.leaf);
    LeafSlot(t, huge, c.sp, at, c.leaf);
    hide WellFormed;
    if t.mem[c.f][idx].present {
      StillInTheWay(t0, t, c.Work(), Region(a, at), Region(a, at), at);
    }
  }

  /** What a call finds in a slot of its own level. */
  lemma LeafSlot(t: Tree, huge: bool, sp: nat, at: nat, leaf: nat)
    requires WellFormed(t, huge) && leaf <= 3 && Reaches(t, sp, at, leaf)
    ensures if Met(t, sp, at, leaf).present then See(t, sp, at, leaf, 0).Taken? else Met(t, sp, at, leaf) == EMPTY
  {
    LookFrom(t, huge, sp, at, leaf, leaf);
    assert EntryOk(t, huge, sp, leaf, Block(at, leaf + 1));
  }

  lemma LeafLoopStores(t0: Tree, t: Tree, huge: bool, c: Call, done: nat, idx: nat)
    requires LeafLoop(t0, t, huge, c, done, idx) && done < c.size && idx < 512
    requires c.f in t.mem && |t.mem[c.f]| == 512 && !t.mem[c.f][idx].present
    ensures var t' := t.(mem := t.mem[c.f := t.mem[c.f][idx := LeafEntry(c.phys + done, c.perms, c.leaf)]]);
      && done + Span(c.leaf + 1) <= c.size
      && LeafLoop(t0, t', huge, c, done + Span(c.leaf + 1), idx + 1)
  {
    hide Overlay, WellFormed, Block, Span, See, EntryAt, LeafEntry, IsLeaf, LargeAvail, Region;
    var at, e, j := c.Start() + done, LeafEntry(c.phys + done, c.perms, c.leaf), c.Work();
    var m := Block(at, c.leaf + 1);
    WholePagesLeft(c.size - done, c.leaf);
    LeafLoopSlot(t0, t, huge, c, done, idx);
    LeafEntryFits(c.phys + done, c.perms, c.leaf, huge);
    SlotInTable(t, huge, c.sp, c.f, at, c.leaf, Block(c.virt, c.leaf), idx);
    LeafMapsItsBlock(t, huge, j, m, e);
    RegionGrows(c, done, m);
    OverlayThen(t0, t, Store(t, c.sp, c.leaf, m, e), j, Region(c.Start(), at), Region(c.Start(), at),
                BlockSet(m, c.leaf + 1), BlockSet(m, c.leaf + 1));
    NextSlot(at, c.leaf);
  }

  /** One more page of the table. */
  lemma RegionGrows(c: Call, done: nat, m: nat)
    requires c.Levels() && c.lv == c.leaf
    requires c.Start() + done == m * Span(c.leaf + 1) && m / 512 == Block(c.virt, c.leaf)
    ensures Region(c.Start(), c.Start() + done + Span(c.leaf + 1))
         == Region(c.Start(), c.Start() + done) + BlockSet(m, c.leaf + 1)
  {
    hide Block, Span, Hole, Base;
    StartInTable(c);
    var at, k := c.Start() + done, c.leaf + 1;
    forall va: nat | at <= va < at + Span(k) ensures Block(va, k) == m {
      BlockUnique(va, k, m);
    }
    forall va: nat | Block(va, k) == m ensures at <= va < at + Span(k) && !Hole(c.Start(), va) {
      BlockBounds(va, k);
      BlockNest(va, c.leaf);
      NoHoleInTable(c.Start(), va, c.leaf);
    }
  }

  // ----- The loop that descends -----

  /** The loop of the descending branch: the next slot of its table, the start of what is still to be mapped, and
      the size that is left. */
  datatype Cursor = Cursor(idx: nat, b: nat, size: nat)

  /** What is left of the size when the call has come to `b`: the way to the end of the range, or that
      wrapped to 64 bits, once the call has stepped over the end. */
  ghost predicate Left(c: Call, b: nat, size: nat)
    requires c.Levels()
  {
    if b <= c.Goal() then size == c.Goal() - b else Under(c.Start(), c.Goal()) && size == c.Goal() - b + WORD
  }

  /** The number, among all slots of the level, of slot `idx` of the call's table. */
  function SlotNo(c: Call, idx: nat): nat
    requires c.Levels()
  {
    Block(c.virt, c.lv) * 512 + idx
  }

  /** The loop of the descending branch has come to `b`, in slot `idx` of its table. */
  ghost predicate InnerLoop(t0: Tree, t: Tree, huge: bool, c: Call, k: Cursor) {
    && c.Levels() && c.lv < c.leaf && k.idx < 512 && c.virt < VA_LIMIT && c.size < WORD
    && AtSlot(c.Start(), c.lv, SlotNo(c, k.idx), k.b) && Left(c, k.b, k.size)
    && LeafFrom(k.size, huge, c.lv + 1) == c.leaf && k.size % PAGE == 0
    && WellFormed(t, huge) && Overlay(t0, t, c.Work(), Region(c.Start(), k.b), Region(c.Start(), k.b))
    && Pos(c.sp, c.lv, Block(c.virt, c.lv)) in t.dir && t.dir[Pos(c.sp, c.lv, Block(c.virt, c.lv))] == c.f
  }

  /** The recursive call from `b` on table `x`. */
  function Sub(c: Call, k: Cursor, x: nat): Call
    requires c.Levels() && k.b >= c.Start()
  {
    Call(c.sp, Frame(x), k.b + (c.virt - c.Start()), c.phys + (k.b - c.Start()), k.size, c.perms, c.lv + 1,
         c.leaf)
  }

  lemma InnerStarts(t: Tree, huge: bool, c: Call)
    requires MapPre(t, huge, c) && c.lv < c.leaf
    ensures InnerLoop(t, t, huge, c, Cursor(Index(c.virt, c.lv), c.Start(), c.size))
  {
    hide WellFormed, Overlay, Block, Span, LargeAvail, Base, Region, Under;
    BlockNest(c.virt, c.lv);
    BaseFacts(c.virt, c.leaf, c.lv + 1);
    RegionEmpty(c.Start());
    OverlayNothing(t, c.Work());
  }

  /** Where the loop is: in slot `idx` of its table, at the start of the recursive call's range. */
  lemma InnerPlace(c: Call, k: Cursor, x: nat)
    requires c.Levels() && c.lv < c.leaf && k.idx < 512 && c.virt < VA_LIMIT
    requires AtSlot(c.Start(), c.lv, SlotNo(c, k.idx), k.b)
    ensures k.b >= c.Start() && Block(k.b, c.lv + 1) == SlotNo(c, k.idx) && Block(k.b, c.lv) == Block(c.virt, c.lv)
    ensures k.b < c.End() && k.b < SlotNo(c, k.idx) * Span(c.lv + 1) + Span(c.lv + 1)
    ensures SlotNo(c, k.idx) / 512 == Block(c.virt, c.lv) && SlotNo(c, k.idx) % 512 == k.idx
    ensures var s := Sub(c, k, x);
      && s.Levels() && s.Start() == k.b && s.Work() == c.Work() && s.virt < VA_LIMIT
      && Block(s.virt, s.lv) == SlotNo(c, k.idx) && s.End() == SlotNo(c, k.idx) * Span(s.lv) + Span(s.lv)
  {
    hide Block, Span, Base;
    var n := SlotNo(c, k.idx);
    StartInTable(c);
    StartOffset(c);
    AtSlotFacts(c.Start(), c.lv, n, k.b);
    CarryToNext(c.Start(), c.lv, n, k.b, c.virt - c.Start(), c.leaf);
    SlotBeforeEnd(k.b, c.lv, Block(c.virt, c.lv), k.idx);
    SlotOfBlock(0, c.lv, n);
    InSpace(c, k.b);
  }

  lemma StartOffset(c: Call)
    requires c.Levels()
    ensures 0 <= c.virt - c.Start() < Span(c.leaf + 1)
  {
  }

  /** The whole table lies in the 48-bit space. */
  lemma InSpace(c: Call, b: nat)
    requires c.Levels() && c.virt < VA_LIMIT && Block(b, c.lv) == Block(c.virt, c.lv)
    requires Block(b + (c.virt - c.Start()), 0) == Block(b, 0)
    ensures b + (c.virt - c.Start()) < VA_LIMIT
  {
    SameBlockAbove(b, c.virt, c.lv, 0);
  }

  lemma InnerPosition(t0: Tree, t: Tree, huge: bool, c: Call, k: Cursor)
    requires InnerLoop(t0, t, huge, c, k)
    ensures WellFormed(t, huge) && c.f in t.mem && |t.mem[c.f]| == 512 && k.idx < 512 && c.lv < 3 && k.b >= c.Start()
    ensures Reaches(t, c.sp, k.b, c.lv) && Met(t, c.sp, k.b, c.lv) == t.mem[c.f][k.idx]
  {
    hide WellFormed, Overlay, Block, Span, LeafFrom, Base, Left;
    InnerPlace(c, k, 0);
    SlotInTable(t, huge, c.sp, c.f, k.b, c.lv, Block(c.virt, c.lv), k.idx);
  }

  /** Frame `x` holds the table below the slot of the address at level `lv`. */
  ghost predicate Below(t: Tree, sp: nat, at: nat, lv: nat, x: nat) {
    lv <= 2 && Pos(sp, lv + 1, Block(at, lv + 1)) in t.dir && t.dir[Pos(sp, lv + 1, Block(at, lv + 1))] == Frame(x)
  }

  lemma BelowInMem(t: Tree, t': Tree, huge: bool, c: Call, b: nat, x: nat)
    requires c.Levels() && Prepared(t, t', huge, c, b) && Below(t', c.sp, b, c.lv, x)
    ensures Frame(x) in t'.mem
  {
  }

  lemma PointerIsBelow(t: Tree, huge: bool, sp: nat, at: nat, lv: nat, leaf: nat)
    requires WellFormed(t, huge) && lv < leaf <= 3 && Reaches(t, sp, at, lv) && Met(t, sp, at, lv).frame != 0
    ensures if Met(t, sp, at, lv).large then See(t, sp, at, leaf, 0) == Larger(Met(t, sp, at, lv), lv)
            else Below(t, sp, at, lv, Met(t, sp, at, lv).frame)
  {
    LookFrom(t, huge, sp, at, leaf, lv);
    assert EntryOk(t, huge, sp, lv, Block(at, lv + 1));
  }

  /** A slot that names something: a page, which is in the way, or the table to descend to. */
  lemma InnerMeets(t0: Tree, t: Tree, huge: bool, c: Call, k: Cursor)
    requires InnerLoop(t0, t, huge, c, k) && k.size > 0
    requires c.f in t.mem && |t.mem[c.f]| == 512 && t.mem[c.f][k.idx].frame != 0
    ensures k.b >= c.Start()
    ensures t.mem[c.f][k.idx].large ==> MapPost(t0, t, huge, c, AlreadyMapped, k.b - c.Start())
    ensures !t.mem[c.f][k.idx].large ==> Below(t, c.sp, k.b, c.lv, t.mem[c.f][k.idx].frame)
  {
    hide WellFormed, Overlay, Block, Span, LeafFrom, Base, See, Met, Reaches, Below, Region, Under, Hole;
    InnerPosition(t0, t, huge, c, k);
    InnerStops(t0, t, huge, c, k);
    PointerIsBelow(t, huge, c.sp, k.b, c.lv, c.leaf);
    if t.mem[c.f][k.idx].large {
      NotInRegion(c.Start(), k.b);
      StillInTheWay(t0, t, c.Work(), Region(c.Start(), k.b), Region(c.Start(), k.b), k.b);
    }
  }

  lemma NotInRegion(a: nat, b: nat)
    ensures b !in Region(a, b)
  {
  }

  /** Wherever the loop stands with something left, the call has not reached its end. */
  lemma InnerStops(t0: Tree, t: Tree, huge: bool, c: Call, k: Cursor)
    requires InnerLoop(t0, t, huge, c, k) && k.size > 0
    ensures k.b >= c.Start() && k.b < c.End() && !Hole(c.Start(), k.b) && GoesOn(c, k.b)
    ensures c.Start() + (k.b - c.Start()) == k.b
  {
    hide WellFormed, Overlay, Block, Span, LeafFrom, Base, Hole, Under;
    InnerPlace(c, k, 0);
    HoleShift(c.Start(), c.lv, SlotNo(c, k.idx), k.b, k.b);
    NoHoleAtStart(k.b);
  }

  /** The tree before the recursive call: as it was, or with a new table hung on the way to `b`. */
  ghost predicate Prepared(t: Tree, t': Tree, huge: bool, c: Call, b: nat)
    requires c.Levels()
  {
    && WellFormed(t', huge)
    && (t' == t || (Overlay(t, t', c.Work(), iset{}, iset{b}) && See(t', c.sp, b, c.leaf, 0).Open?))
  }

  lemma InnerHangs(t0: Tree, t: Tree, huge: bool, c: Call, k: Cursor, x: nat)
    requires InnerLoop(t0, t, huge, c, k)
    requires c.f in t.mem && |t.mem[c.f]| == 512 && t.mem[c.f][k.idx].frame == 0
    requires Frame(x) !in t.mem && 0 < x < FRAME_LIMIT
    ensures var cleared := t.mem[Frame(x) := NewTable()];
      && c.f in cleared && |cleared[c.f]| == 512
      && var t' := Tree(cleared[c.f := cleared[c.f][k.idx := Entry(x, true, false, TABLE_FLAGS)]],
                        t.dir[Pos(c.sp, c.lv + 1, Block(k.b, c.lv + 1)) := Frame(x)]);
      && Prepared(t, t', huge, c, k.b) && Below(t', c.sp, k.b, c.lv, x) && t'.mem.Keys == t.mem.Keys + {Frame(x)}
  {
    hide WellFormed, Overlay, Block, Span, LeafFrom, Base, See, Met, EntryAt, Left;
    var m := Block(k.b, c.lv + 1);
    InnerPosition(t0, t, huge, c, k);
    InnerPlace(c, k, 0);
    HangMapsNothing(t, huge, c.Work(), c.lv, k.b, x);
    var cleared := t.mem[Frame(x) := NewTable()];
    assert cleared[c.f := cleared[c.f][k.idx := Entry(x, true, false, TABLE_FLAGS)]] == Hang(t, c.sp, c.lv, m, x).mem;
  }

  lemma InnerDescends(t0: Tree, t: Tree, t': Tree, huge: bool, c: Call, k: Cursor, x: nat)
    requires InnerLoop(t0, t, huge, c, k) && Prepared(t, t', huge, c, k.b) && Below(t', c.sp, k.b, c.lv, x)
    ensures k.b >= c.Start() && MapPre(t', huge, Sub(c, k, x))
  {
    hide WellFormed, Overlay, Block, Span, LeafFrom, Base, See, Under;
    InnerPlace(c, k, x);
    LeftFits(c, k.b, k.size);
  }

  lemma LeftFits(c: Call, b: nat, size: nat)
    requires c.Levels() && c.size < WORD && b >= c.Start() && Left(c, b, size)
    ensures size < WORD
  {
  }

  /** The tree at the start of the call, at this turn of the loop, before the recursive call and after it. */
  datatype Trees = Trees(start: Tree, now: Tree, ready: Tree, after: Tree)

  /** The three steps from the tree before the call to the tree after the recursive one. */
  lemma InnerOverlays(ts: Trees, huge: bool, c: Call, k: Cursor, x: nat,
                      ret: Status, d: nat)
    requires InnerLoop(ts.start, ts.now, huge, c, k) && k.size > 0 && Prepared(ts.now, ts.ready, huge, c, k.b)
    requires k.b >= c.Start() && Sub(c, k, x).Levels() && MapPost(ts.ready, ts.after, huge, Sub(c, k, x), ret, d)
    ensures var got := Region(c.Start(), k.b + d);
      || Overlay(ts.start, ts.after, c.Work(), got, got)
      || (ret == Panicked && Overlay(ts.start, ts.after, c.Work(), got, got + iset{k.b + d}))
  {
    hide WellFormed, Overlay, Block, Span, LeafFrom, Base, See, Under, Region, Hole;
    var j, got, more := c.Work(), Region(c.Start(), k.b), Region(k.b, k.b + d);
    var s := Sub(c, k, x);
    InnerPlace(c, k, x);
    RegionSplits(c.Start(), c.lv, SlotNo(c, k.idx), k.b, d);
    var hit := if ts.ready == ts.now then iset{} else iset{k.b};
    OverlayPrepared(ts.start, ts.now, ts.ready, huge, c, k.b, got, hit);
    if d > 0 {
      StartInRegion(k.b, d);
    } else {
      NothingYet(ts.ready, ts.after, huge, s, k.b, ret);
    }
    if Overlay(ts.ready, ts.after, j, more, more) {
      OverlayThen(ts.start, ts.ready, ts.after, j, got, got + hit, more, more);
    } else {
      OverlayThen(ts.start, ts.ready, ts.after, j, got, got + hit, more, more + iset{k.b + d});
    }
    SameHit(got, more, hit, k.b, d, ts.ready == ts.now, ret == Panicked);
  }

  lemma OverlayPrepared(t0: Tree, t: Tree, t': Tree, huge: bool, c: Call, b: nat, got: iset<nat>, hit: iset<nat>)
    requires c.Levels() && Overlay(t0, t, c.Work(), got, got) && Prepared(t, t', huge, c, b)
    requires hit == if t' == t then iset{} else iset{b}
    ensures Overlay(t0, t', c.Work(), got, got + hit)
  {
    hide WellFormed, Overlay, See;
    if t' == t {
      assert got + hit == got;
    } else {
      OverlayThen(t0, t, t', c.Work(), got, got, iset{}, iset{b});
      assert got + iset{} == got;
    }
  }

  lemma StartInRegion(b: nat, d: nat)
    requires d > 0
    ensures b in Region(b, b + d)
  {
    NoHoleAtStart(b);
  }

  /** A recursive call that maps nothing has panicked, or met something where no new table was hung. */
  lemma NothingYet(t': Tree, t1: Tree, huge: bool, s: Call, b: nat, ret: Status)
    requires s.Levels() && s.Start() == b && s.size > 0 && MapPost(t', t1, huge, s, ret, 0)
    ensures ret == Panicked || !Passable(See(t', s.sp, b, s.leaf, 0))
  {
    hide WellFormed, Overlay, See, Span, Base, Block;
    if ret == Continue {
      StartInTable(s);
      EndOfBlock(s.Start(), s.lv, s.End());
    }
  }

  lemma SameHit(got: iset<nat>, more: iset<nat>, hit: iset<nat>, b: nat, d: nat, same: bool, panicked: bool)
    requires hit == (if same then iset{} else iset{b}) && (same || b in more || (panicked && d == 0))
    ensures same || b in more ==> got + hit + more == got + more
    ensures got + hit + (more + iset{b + d}) == got + more + iset{b + d}
    ensures panicked && d == 0 && !same ==> got + hit + more == got + more + iset{b + d}
  {
  }

  /** A panic on the way down, with or without a new table hung. */
  lemma InnerPanics(t0: Tree, t: Tree, t': Tree, huge: bool, c: Call, k: Cursor)
    requires InnerLoop(t0, t, huge, c, k) && k.size > 0 && c.Levels() && Prepared(t, t', huge, c, k.b)
    ensures k.b >= c.Start() && MapPost(t0, t', huge, c, Panicked, k.b - c.Start())
  {
    hide WellFormed, Overlay, Block, Span, LeafFrom, Base, Hole, Under, Region, AtSlot, See;
    InnerStops(t0, t, huge, c, k);
    var hit := if t' == t then iset{} else iset{k.b};
    var got := Region(c.Start(), k.b);
    OverlayPrepared(t0, t, t', huge, c, k.b, got, hit);
    if t' == t {
      assert got + iset{} == got;
    }
  }

  lemma InnerReturns(ts: Trees, huge: bool, c: Call, k: Cursor, x: nat,
                     ret: Status, d: nat)
    requires InnerLoop(ts.start, ts.now, huge, c, k) && k.size > 0 && Prepared(ts.now, ts.ready, huge, c, k.b)
    requires k.b >= c.Start() && Sub(c, k, x).Levels() && MapPost(ts.ready, ts.after, huge, Sub(c, k, x), ret, d)
    requires ret != Continue
    ensures MapPost(ts.start, ts.after, huge, c, ret, k.b - c.Start() + d)
  {
    hide WellFormed, Overlay, Block, Span, LeafFrom, Base, See, Under, Region, Hole;
    InnerOverlays(ts, huge, c, k, x, ret, d);
    InnerPlace(c, k, x);
    if ret == Done {
      SubDone(c, k, x);
    } else {
      SubStops(c, k, x, k.b + d);
      if ret == AlreadyMapped {
        InTheWayBefore(ts.start, ts.now, ts.ready, huge, c, k.b, k.b + d);
      }
    }
  }

  lemma InTheWayBefore(t0: Tree, t: Tree, t': Tree, huge: bool, c: Call, b: nat, at: nat)
    requires c.Levels() && Overlay(t0, t, c.Work(), Region(c.Start(), b), Region(c.Start(), b)) && at >= b
    requires Prepared(t, t', huge, c, b) && !Passable(See(t', c.sp, at, c.leaf, 0))
    ensures !Passable(See(t0, c.sp, at, c.leaf, 0))
  {
    hide WellFormed, Overlay, See;
    if t' != t {
      StillInTheWay(t, t', c.Work(), iset{}, iset{b}, at);
    }
    StillInTheWay(t0, t, c.Work(), Region(c.Start(), b), Region(c.Start(), b), at);
  }

  /** The place of the loop and what is left, apart from the tree. */
  ghost predicate InnerAt(c: Call, k: Cursor) {
    && c.Levels() && c.lv < c.leaf && k.idx < 512 && c.virt < VA_LIMIT && k.size > 0 && k.b >= c.Start()
    && AtSlot(c.Start(), c.lv, SlotNo(c, k.idx), k.b) && Left(c, k.b, k.size)
  }

  /** The end of the recursive call's range is that of the whole range, unless the size has wrapped. */
  lemma SubDone(c: Call, k: Cursor, x: nat)
    requires InnerAt(c, k) && Sub(c, k, x).Levels()
    requires k.b + k.size <= Sub(c, k, x).End() && !Under(k.b, k.b + k.size)
    ensures k.b + k.size == c.Goal() <= c.End() && !Under(c.Start(), c.Goal())
  {
    hide Block, Span, Base, Under, AtSlot;
    InnerPlace(c, k, x);
    SlotInEnd(c, k.idx);
    SpaceEnds(c, k.idx);
    UnderShift(c.Start(), c.lv, SlotNo(c, k.idx), k.b, c.Goal());
  }

  lemma SubStops(c: Call, k: Cursor, x: nat, at: nat)
    requires InnerAt(c, k) && Sub(c, k, x).Levels() && k.b <= at < Sub(c, k, x).End()
    requires !Hole(k.b, at) && (at < k.b + k.size || Under(k.b, k.b + k.size))
    ensures at < c.End() && !Hole(c.Start(), at) && GoesOn(c, at)
  {
    hide Block, Span, Base, Under, AtSlot, Hole;
    var n := SlotNo(c, k.idx);
    InnerPlace(c, k, x);
    SlotInEnd(c, k.idx);
    SlotStart(c, k.idx, k.b);
    BlockUnique(at, c.lv + 1, n);
    HoleShift(c.Start(), c.lv, n, k.b, at);
    if k.b <= c.Goal() <= Sub(c, k, x).End() {
      UnderShift(c.Start(), c.lv, n, k.b, c.Goal());
    }
  }

  lemma SubRunsOff(c: Call, k: Cursor, x: nat)
    requires InnerAt(c, k) && Sub(c, k, x).Levels()
    requires k.b + k.size > Sub(c, k, x).End() || Under(k.b, k.b + k.size)
    ensures c.Goal() > Sub(c, k, x).End() || Under(c.Start(), c.Goal())
  {
    hide Block, Span, Base, Under, AtSlot;
    InnerPlace(c, k, x);
    if k.b <= c.Goal() <= Sub(c, k, x).End() {
      UnderShift(c.Start(), c.lv, SlotNo(c, k.idx), k.b, c.Goal());
    }
  }

  lemma SlotStart(c: Call, idx: nat, b: nat)
    requires c.Levels() && c.lv < c.leaf && AtSlot(c.Start(), c.lv, SlotNo(c, idx), b)
    ensures SlotNo(c, idx) * Span(c.lv + 1) <= b
  {
    hide Block, Span, Base;
    AtSlotFacts(c.Start(), c.lv, SlotNo(c, idx), b);
  }

  lemma SlotInEnd(c: Call, idx: nat)
    requires c.Levels() && c.lv < c.leaf && idx < 512
    ensures SlotNo(c, idx) * Span(c.lv + 1) + Span(c.lv + 1) <= c.End()
    ensures idx == 511 ==> SlotNo(c, idx) * Span(c.lv + 1) + Span(c.lv + 1) == c.End()
  {
    hide Block;
    SlotOfBlock(Block(c.virt, c.lv), c.lv, SlotNo(c, idx));
    if c.lv == 0 {} else if c.lv == 1 {} else {}
  }

  lemma SpaceEnds(c: Call, idx: nat)
    requires c.Levels() && c.lv < c.leaf && idx < 512 && c.virt < VA_LIMIT
    ensures c.End() <= VA_LIMIT
  {
    hide Block;
    BlockBounds(c.virt, c.lv);
    if c.lv == 0 {} else if c.lv == 1 {} else {}
  }

  /** Where the loop goes on after a recursive call has run off the end of its table. */
  function NextAt(c: Call, idx: nat): nat
    requires c.Levels() && c.lv < c.leaf
  {
    SlotNo(c, idx + 1) * Span(c.lv + 1) + c.Start() % Span(c.lv + 2)
  }

  /** The carry reaches that place. */
  lemma InnerCarry(c: Call, idx: nat, b: nat)
    requires c.Levels() && c.lv < c.leaf && idx < 512 && c.virt < VA_LIMIT && AtSlot(c.Start(), c.lv, SlotNo(c, idx), b)
    ensures b >= c.Start() && b + Carry(b + (c.virt - c.Start()), c.lv) == NextAt(c, idx)
    ensures Carry(b + (c.virt - c.Start()), c.lv) % Span(c.lv + 2) == 0
    ensures idx + 1 < 512 ==> AtSlot(c.Start(), c.lv, SlotNo(c, idx + 1), NextAt(c, idx))
    ensures SlotNo(c, idx + 1) * Span(c.lv + 1) == SlotNo(c, idx) * Span(c.lv + 1) + Span(c.lv + 1)
    ensures SlotNo(c, idx + 1) != Block(c.Start(), c.lv + 1) && NextAt(c, idx) < 2 * VA_LIMIT
  {
    hide Block, Span, Base, Carry;
    StartInTable(c);
    StartOffset(c);
    AtSlotFacts(c.Start(), c.lv, SlotNo(c, idx), b);
    CarryToNext(c.Start(), c.lv, SlotNo(c, idx), b, c.virt - c.Start(), c.leaf);
    SlotOfBlock(0, c.lv, SlotNo(c, idx));
    InnerPlace(c, Cursor(idx, b, 0), 0);
    NextSlotNo(c, idx, b);
    SlotInEnd(c, idx);
    SpaceEnds(c, idx);
    ModShrinks(c.Start(), c.lv + 1);
    SpanSmall(c.lv + 1);
  }

  lemma SpanSmall(k: nat)
    requires k <= 4
    ensures Span(k) <= VA_LIMIT
  {
  }

  lemma NextSlotNo(c: Call, idx: nat, b: nat)
    requires c.Levels() && c.lv < c.leaf && AtSlot(c.Start(), c.lv, SlotNo(c, idx), b)
    ensures SlotNo(c, idx + 1) == SlotNo(c, idx) + 1 > Block(c.Start(), c.lv + 1)
    ensures idx + 1 < 512 ==> SlotNo(c, idx + 1) / 512 == Block(c.virt, c.lv)
  {
  }

  /** The size after the subtraction, which wraps like uint64_t. */
  lemma InnerLeft(t0: Tree, t: Tree, huge: bool, c: Call, k: Cursor, iSz: nat)
    requires InnerLoop(t0, t, huge, c, k) && k.size > 0 && k.idx + 1 < 512
    requires k.b + iSz == NextAt(c, k.idx)
    requires c.Goal() > SlotNo(c, k.idx + 1) * Span(c.lv + 1) || Under(c.Start(), c.Goal())
    ensures Left(c, k.b + iSz, (k.size - iSz) % WORD)
    ensures (k.size - iSz) % WORD == k.size - iSz || (k.size - iSz) % WORD == k.size - iSz + WORD
  {
    hide WellFormed, Overlay, Block, Span, LeafFrom, Base, Under, AtSlot, Region;
    var a, goal, next := c.Start(), c.Goal(), k.b + iSz;
    InnerCarry(c, k.idx, k.b);
    if k.b <= goal && next > goal && goal > SlotNo(c, k.idx + 1) * Span(c.lv + 1) {
      NextSlotSkips(a, c.lv, SlotNo(c, k.idx + 1), next, goal);
    }
    WrapOnce(k.size - iSz);
  }

  lemma WrapOnce(x: int)
    ensures 0 <= x < WORD ==> x % WORD == x
    ensures -WORD <= x < 0 ==> x % WORD == x + WORD
  {
  }

  /** A recursive call ran off the end of its table: the loop goes on in the next slot, or has itself
      reached the end of its table. */
  lemma InnerCarries(ts: Trees, huge: bool, c: Call, k: Cursor, x: nat,
                     d: nat)
    requires InnerLoop(ts.start, ts.now, huge, c, k) && k.size > 0 && Prepared(ts.now, ts.ready, huge, c, k.b)
    requires k.b >= c.Start() && Sub(c, k, x).Levels() && MapPost(ts.ready, ts.after, huge, Sub(c, k, x), Continue, d)
    ensures var iSz := Carry(k.b + (c.virt - c.Start()), c.lv);
      if k.idx + 1 < 512 then
        InnerLoop(ts.start, ts.after, huge, c, Cursor(k.idx + 1, k.b + iSz, (k.size - iSz) % WORD))
      else MapPost(ts.start, ts.after, huge, c, Continue, k.b - c.Start() + d)
  {
    hide WellFormed, Overlay, Block, Span, LeafFrom, Base, See, Under, Region, Hole, Carry, AtSlot, Left;
    var iSz := Carry(k.b + (c.virt - c.Start()), c.lv);
    InnerOverlays(ts, huge, c, k, x, Continue, d);
    InnerPlace(c, k, x);
    SubRunsOff(c, k, x);
    InnerCarry(c, k.idx, k.b);
    SlotInEnd(c, k.idx);
    if k.idx + 1 < 512 {
      InnerLeft(ts.start, ts.now, huge, c, k, iSz);
      LeafKept(k.size, iSz, (k.size - iSz) % WORD, huge, c.lv);
      PageRemainder(k.size, (k.size - iSz) % WORD);
      RegionUpToNext(c.Start(), c.lv, SlotNo(c, k.idx + 1), k.b + iSz);
      PlaceKept(ts, huge, c, k, x, d);
    }
  }

  lemma PageRemainder(size: nat, left: nat)
    requires size % PAGE == 0 && left % Span(4) == size % Span(4)
    ensures left % PAGE == 0
  {
  }

  lemma PlaceKept(ts: Trees, huge: bool, c: Call, k: Cursor, x: nat, d: nat)
    requires InnerLoop(ts.start, ts.now, huge, c, k) && k.size > 0 && Prepared(ts.now, ts.ready, huge, c, k.b)
    requires k.b >= c.Start() && Sub(c, k, x).Levels() && MapPost(ts.ready, ts.after, huge, Sub(c, k, x), Continue, d)
    ensures var p := Pos(c.sp, c.lv, Block(c.virt, c.lv));
      p in ts.after.dir && ts.after.dir[p] == c.f
  {
    hide WellFormed, Overlay, Block, Span, LeafFrom, Base, See, Under, Region, Hole, AtSlot, Left;
    var p, s := Pos(c.sp, c.lv, Block(c.virt, c.lv)), Sub(c, k, x);
    if ts.ready != ts.now {
      OverlayKeepsPlaces(ts.now, ts.ready, c.Work(), iset{}, iset{k.b}, p);
    }
    var sub := Region(s.Start(), s.Start() + d);
    OverlayKeepsPlaces(ts.ready, ts.after, s.Work(), sub, sub, p);
  }

  lemma InnerEnds(t0: Tree, t: Tree, huge: bool, c: Call, idx: nat, b: nat)
    requires InnerLoop(t0, t, huge, c, Cursor(idx, b, 0))
    ensures b == c.Goal() && MapPost(t0, t, huge, c, Done, c.size)
  {
    hide WellFormed, Overlay, Block, Span, LeafFrom, Base, Under, Region, Hole;
    InnerPlace(c, Cursor(idx, b, 0), 0);
    SpaceEnds(c, idx);
    HoleShift(c.Start(), c.lv, SlotNo(c, idx), b, b);
    NoHoleAtStart(b);
  }

  // ----- Frames in the loop that descends -----

  /** The frames taken when the loop stands at `b`. */
  ghost predicate LoopUse(c: Call, b: nat, fr: Frames)
    requires c.Levels()
  {
    0 <= fr.had - fr.left <= Slots(b, c.lv, c.leaf) - Slots(c.Start(), c.lv, c.leaf)
  }

  /** The recursive call starts with the frames that are left, or one less for the table it works on. */
  ghost predicate SubFrames(fr: Frames, sub: Frames) {
    (sub.had == fr.left || sub.had == fr.left - 1) && (fr.seen ==> sub.seen)
  }

  /** What is left after it. */
  function After(fr: Frames, sub: Frames): Frames { Frames(fr.had, sub.left, fr.seen) }

  lemma UseReturns(c: Call, k: Cursor, x: nat, fr: Frames, sub: Frames, ret: Status, d: nat)
    requires c.Levels() && c.lv < c.leaf && k.idx < 512 && c.virt < VA_LIMIT && k.size > 0
    requires AtSlot(c.Start(), c.lv, SlotNo(c, k.idx), k.b) && k.b >= c.Start() && LoopUse(c, k.b, fr)
    requires SubFrames(fr, sub) && Sub(c, k, x).Levels() && FrameUse(Sub(c, k, x), sub, ret, d)
    requires ret != Continue && (ret == Done ==> d == k.size)
    requires k.b + d <= SlotNo(c, k.idx) * Span(c.lv + 1) + Span(c.lv + 1)
    requires ret != Done ==> k.b + d < SlotNo(c, k.idx) * Span(c.lv + 1) + Span(c.lv + 1)
    ensures FrameUse(c, After(fr, sub), ret, k.b - c.Start() + d)
  {
    hide Block, Span, Base, AtSlot;
    var last := if ret == Done then k.b + d - 1 else k.b + d;
    InnerPlace(c, k, x);
    SlotStart(c, k.idx, k.b);
    BlockUnique(last, c.lv + 1, SlotNo(c, k.idx));
  }

  lemma UseContinues(c: Call, k: Cursor, x: nat, fr: Frames, sub: Frames, d: nat, next: nat)
    requires c.Levels() && c.lv < c.leaf && k.idx < 512 && c.virt < VA_LIMIT
    requires AtSlot(c.Start(), c.lv, SlotNo(c, k.idx), k.b) && k.b >= c.Start() && LoopUse(c, k.b, fr)
    requires SubFrames(fr, sub) && Sub(c, k, x).Levels() && FrameUse(Sub(c, k, x), sub, Continue, d)
    requires k.b + d == SlotNo(c, k.idx + 1) * Span(c.lv + 1) <= next
    ensures LoopUse(c, next, After(fr, sub)) && FrameUse(c, After(fr, sub), Continue, k.b - c.Start() + d)
  {
    hide Block, Span, Base, AtSlot;
    var n := SlotNo(c, k.idx);
    InnerPlace(c, k, x);
    InnerCarry(c, k.idx, k.b);
    BlockUnique(k.b + d - 1, c.lv + 1, n);
    BlockUnique(k.b + d, c.lv + 1, SlotNo(c, k.idx + 1));
    BlockMonotone(k.b + d, next, c.lv + 1);
    SlotsGrow(k.b + d - 1, next, c.lv, c.leaf);
  }

  lemma UseStops(c: Call, b: nat, fr: Frames)
    requires c.Levels() && c.lv < c.leaf && b >= c.Start() && LoopUse(c, b, fr)
    ensures FrameUse(c, fr, AlreadyMapped, b - c.Start())
  {
    hide Slots;
  }

  /** The loop panics: no frame is left, or something was not in sight. */
  lemma UsePanics(c: Call, b: nat, fr: Frames, left: nat)
    requires c.Levels() && c.lv < c.leaf && b >= c.Start() && LoopUse(c, b, fr) && left <= fr.left
    requires fr.seen ==> left == fr.left == 0
    ensures FrameUse(c, Frames(fr.had, left, fr.seen), Panicked, b - c.Start())
  {
    hide Slots;
  }

  lemma UseEnds(c: Call, b: nat, fr: Frames)
    requires c.Levels() && c.lv < c.leaf && b == c.Start() + c.size && LoopUse(c, b, fr)
    ensures FrameUse(c, fr, Done, c.size)
  {
    if c.size > 0 {
      SlotsStep(b, c.lv, c.leaf);
    }
  }

  lemma {:induction false} SlotsStep(x: nat, lv: nat, leaf: nat)
    requires lv <= leaf <= 3 && x > 0
    ensures Slots(x, lv, leaf) <= Slots(x - 1, lv, leaf) + leaf - lv
    decreases leaf - lv
  {
    hide Block;
    if lv < leaf {
      BlockStep(x, lv + 1);
      SlotsStep(x, lv + 1, leaf);
    }
  }

  lemma BlockStep(x: nat, k: nat)
    requires k <= 4 && x > 0
    ensures Block(x, k) <= Block(x - 1, k) + 1
  {
    BlockBounds(x, k);
    BlockBounds(x - 1, k);
    if k == 0 {} else if k == 1 {} else if k == 2 {} else if k == 3 {} else {}
  }

  lemma InnerLevels(t0: Tree, t: Tree, huge: bool, c: Call, k: Cursor)
    requires InnerLoop(t0, t, huge, c, k)
    ensures c.Levels() && c.lv < c.leaf && WellFormed(t, huge)
  {
    hide WellFormed, Overlay;
  }

  lemma CallLevels(t: Tree, huge: bool, c: Call)
    requires MapPre(t, huge, c)
    ensures c.Levels() && c.virt >= c.Start()
  {
  }

  lemma UseStarts(c: Call, had: nat, seen: bool)
    requires c.Levels()
    ensures LoopUse(c, c.Start(), Frames(had, had, seen))
  {
  }

  /** Writing pages takes no frames. */
  lemma UseOfLeaves(c: Call, had: nat, seen: bool, ret: Status, done: nat)
    requires c.Levels() && c.lv == c.leaf && ret != Panicked && (ret == Continue ==> done > 0)
    ensures FrameUse(c, Frames(had, had, seen), ret, done)
  {
  }

  lemma UseOfSub(ts: Trees, huge: bool, c: Call, k: Cursor, x: nat, ret: Status, d: nat,
                 fr: Frames, sub: Frames)
    requires InnerLoop(ts.start, ts.now, huge, c, k) && k.size > 0 && k.b >= c.Start() && LoopUse(c, k.b, fr)
    requires Sub(c, k, x).Levels() && MapPost(ts.ready, ts.after, huge, Sub(c, k, x), ret, d) && ret != Continue
    requires SubFrames(fr, sub) && FrameUse(Sub(c, k, x), sub, ret, d)
    ensures FrameUse(c, After(fr, sub), ret, k.b - c.Start() + d)
  {
    hide WellFormed, Overlay, Block, Span, LeafFrom, Base, See, Under, Region, Hole, AtSlot, Left, FrameUse, LoopUse;
    InnerPlace(c, k, x);
    UseReturns(c, k, x, fr, sub, ret, d);
  }

  lemma UseCarries(ts: Trees, huge: bool, c: Call, k: Cursor, x: nat, d: nat, fr: Frames,
                   sub: Frames)
    requires InnerLoop(ts.start, ts.now, huge, c, k) && k.b >= c.Start() && LoopUse(c, k.b, fr)
    requires SubFrames(fr, sub) && Sub(c, k, x).Levels()
    requires MapPost(ts.ready, ts.after, huge, Sub(c, k, x), Continue, d) && FrameUse(Sub(c, k, x), sub, Continue, d)
    ensures LoopUse(c, k.b + Carry(k.b + (c.virt - c.Start()), c.lv), After(fr, sub))
    ensures FrameUse(c, After(fr, sub), Continue, k.b - c.Start() + d)
  {
    hide WellFormed, Overlay, Block, Span, LeafFrom, Base, Under, Region, AtSlot, Left, FrameUse, LoopUse, Carry;
    InnerPlace(c, k, x);
    InnerCarry(c, k.idx, k.b);
    UseContinues(c, k, x, fr, sub, d, NextAt(c, k.idx));
  }

  // ----- One turn of the loop that descends -----

  /** What one turn leaves: the call is over, or the loop stands in the next slot. */
  ghost predicate SlotPost(t0: Tree, t: Tree, huge: bool, c: Call, k: Cursor, fr: Frames, ret: Status, done: nat) {
    && c.Levels() && c.lv < c.leaf && k.b >= c.Start()
    && if ret == Continue && k.idx + 1 < 512 then
         var iSz := Carry(k.b + (c.virt - c.Start()), c.lv);
         && InnerLoop(t0, t, huge, c, Cursor(k.idx + 1, k.b + iSz, (k.size - iSz) % WORD))
         && LoopUse(c, k.b + iSz, fr)
       else MapPost(t0, t, huge, c, ret, done) && FrameUse(c, fr, ret, done)
  }

  lemma SlotMeans(t0: Tree, t: Tree, huge: bool, c: Call, k: Cursor, fr: Frames, ret: Status, done: nat)
    requires SlotPost(t0, t, huge, c, k, fr, ret, done)
    ensures c.lv <= 2
    ensures if ret == Continue && k.idx + 1 < 512 then
        var iSz := Carry(k.b + (c.virt - c.Start()), c.lv);
        && InnerLoop(t0, t, huge, c, Cursor(k.idx + 1, k.b + iSz, (k.size - iSz) % WORD))
        && LoopUse(c, k.b + iSz, fr)
      else MapPost(t0, t, huge, c, ret, done) && FrameUse(c, fr, ret, done)
  {
    hide MapPost, InnerLoop, FrameUse, LoopUse, Carry, Base;
  }

  lemma SlotPanics(t0: Tree, t: Tree, t': Tree, huge: bool, c: Call, k: Cursor, fr: Frames, left: nat)
    requires c.Levels() && c.lv < c.leaf && k.b >= c.Start() && left <= fr.left
    requires InnerLoop(t0, t, huge, c, k) && k.size > 0 && LoopUse(c, k.b, fr) && Prepared(t, t', huge, c, k.b)
    requires fr.seen ==> left == fr.left == 0
    ensures SlotPost(t0, t', huge, c, k, Frames(fr.had, left, fr.seen), Panicked, k.b - c.Start())
  {
    hide MapPost, InnerLoop, FrameUse, LoopUse, Base, SlotPost;
    InnerPanics(t0, t, t', huge, c, k);
    UsePanics(c, k.b, fr, left);
    SlotOver(t0, t', huge, c, k, Frames(fr.had, left, fr.seen), Panicked, k.b - c.Start());
  }

  lemma SlotTaken(t0: Tree, t: Tree, huge: bool, c: Call, k: Cursor, fr: Frames)
    requires c.Levels() && c.lv < c.leaf && k.b >= c.Start()
    requires InnerLoop(t0, t, huge, c, k) && k.size > 0 && LoopUse(c, k.b, fr)
    requires k.idx < 512 && c.f in t.mem && |t.mem[c.f]| == 512
    requires t.mem[c.f][k.idx].large && t.mem[c.f][k.idx].frame != 0
    ensures SlotPost(t0, t, huge, c, k, fr, AlreadyMapped, k.b - c.Start())
  {
    hide MapPost, InnerLoop, FrameUse, LoopUse, Base, SlotPost;
    InnerMeets(t0, t, huge, c, k);
    UseStops(c, k.b, fr);
    SlotOver(t0, t, huge, c, k, fr, AlreadyMapped, k.b - c.Start());
  }

  /** The recursive call has ended the call. */
  lemma SlotReturns(ts: Trees, huge: bool, c: Call, k: Cursor, x: nat, ret: Status, d: nat,
                    fr: Frames, sub: Frames)
    requires c.Levels() && c.lv < c.leaf && k.b >= c.Start() && Sub(c, k, x).Levels()
    requires InnerLoop(ts.start, ts.now, huge, c, k) && k.size > 0 && Prepared(ts.now, ts.ready, huge, c, k.b)
    requires LoopUse(c, k.b, fr) && SubFrames(fr, sub) && ret != Continue
    requires MapPost(ts.ready, ts.after, huge, Sub(c, k, x), ret, d) && FrameUse(Sub(c, k, x), sub, ret, d)
    ensures SlotPost(ts.start, ts.after, huge, c, k, After(fr, sub), ret, k.b - c.Start() + d)
  {
    hide MapPost, InnerLoop, FrameUse, LoopUse, Prepared, Base, Carry, Sub, SlotPost, SubFrames;
    InnerReturns(ts, huge, c, k, x, ret, d);
    UseOfSub(ts, huge, c, k, x, ret, d, fr, sub);
    SlotOver(ts.start, ts.after, huge, c, k, After(fr, sub), ret, k.b - c.Start() + d);
  }

  /** The recursive call has run off the end of its table. */
  lemma SlotRunsOff(ts: Trees, huge: bool, c: Call, k: Cursor, x: nat, d: nat, fr: Frames,
                    sub: Frames)
    requires c.Levels() && c.lv < c.leaf && k.b >= c.Start() && Sub(c, k, x).Levels()
    requires InnerLoop(ts.start, ts.now, huge, c, k) && k.size > 0 && Prepared(ts.now, ts.ready, huge, c, k.b)
    requires LoopUse(c, k.b, fr) && SubFrames(fr, sub)
    requires MapPost(ts.ready, ts.after, huge, Sub(c, k, x), Continue, d) && FrameUse(Sub(c, k, x), sub, Continue, d)
    ensures SlotPost(ts.start, ts.after, huge, c, k, After(fr, sub), Continue, k.b - c.Start() + d)
  {
    hide MapPost, InnerLoop, FrameUse, LoopUse, Prepared, Base, Carry, Sub, SlotPost, SubFrames;
    InnerCarries(ts, huge, c, k, x, d);
    UseCarries(ts, huge, c, k, x, d, fr, sub);
    SlotGoesOn(ts.start, ts.after, huge, c, k, After(fr, sub), k.b - c.Start() + d);
  }

  lemma SlotOver(t0: Tree, t: Tree, huge: bool, c: Call, k: Cursor, fr: Frames, ret: Status, done: nat)
    requires c.Levels() && c.lv < c.leaf && k.b >= c.Start() && ret != Continue
    requires MapPost(t0, t, huge, c, ret, done) && FrameUse(c, fr, ret, done)
    ensures SlotPost(t0, t, huge, c, k, fr, ret, done)
  {
    hide MapPost, FrameUse, InnerLoop, LoopUse, Carry, Base;
  }

  lemma SlotGoesOn(t0: Tree, t: Tree, huge: bool, c: Call, k: Cursor, fr: Frames, done: nat)
    requires c.Levels() && c.lv < c.leaf && k.b >= c.Start()
    requires var iSz := Carry(k.b + (c.virt - c.Start()), c.lv);
      && LoopUse(c, k.b + iSz, fr) && FrameUse(c, fr, Continue, done)
      && if k.idx + 1 < 512 then InnerLoop(t0, t, huge, c, Cursor(k.idx + 1, k.b + iSz, (k.size - iSz) % WORD))
         else MapPost(t0, t, huge, c, Continue, done)
    ensures SlotPost(t0, t, huge, c, k, fr, Continue, done)
  {
    hide MapPost, FrameUse, InnerLoop, LoopUse, Carry, Base;
  }

  // ----- Pages at physical 0 -----

  /** No page at physical 0 is in the way of any of these addresses. */
  ghost predicate NoZeroPage(t: Tree, j: Job, got: iset<nat>)
    requires j.leaf <= 3
  {
    forall va: nat {:trigger See(t, j.sp, va, j.leaf, 0)} :: va in got ==> !ZeroPage(See(t, j.sp, va, j.leaf, 0))
  }

  /** All addresses under a page that is in the way see that page. */
  lemma {:induction false} PageSeenByAll(t: Tree, sp: nat, va: nat, w: nat, leaf: nat, lv: nat)
    requires lv <= leaf <= 3 && See(t, sp, va, leaf, lv).Larger?
    requires See(t, sp, va, leaf, lv).at <= 3
    requires Block(w, See(t, sp, va, leaf, lv).at + 1) == Block(va, See(t, sp, va, leaf, lv).at + 1)
    ensures See(t, sp, w, leaf, lv) == See(t, sp, va, leaf, lv)
    decreases leaf - lv
  {
    hide Block;
    LargerIsMet(t, sp, va, leaf, lv);
    SameBlockAbove(w, va, See(t, sp, va, leaf, lv).at + 1, lv + 1);
    if lv < leaf && !Met(t, sp, va, lv).large {
      PageSeenByAll(t, sp, va, w, leaf, lv + 1);
    }
  }

  /** Where no page at physical 0 is in the way of a visited address, none is struck. */
  lemma NothingStruck(t: Tree, j: Job, hit: iset<nat>, va: nat)
    requires j.leaf <= 3 && NoZeroPage(t, j, hit)
    ensures !Struck(See(t, j.sp, va, j.leaf, 0), hit, va)
  {
    hide Block, See;
    if Struck(See(t, j.sp, va, j.leaf, 0), hit, va) {
      var w := StruckMeets(t, j.sp, va, j.leaf, hit);
      PageSeenByAll(t, j.sp, va, w, j.leaf, 0);
    }
  }
}
