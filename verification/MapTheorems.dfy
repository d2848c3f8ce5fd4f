/** What a mapping call means for its caller, and where its conditions are needed. */
module MapTheorems {
  import opened Paging
  import opened MapEffects
  import opened PageTables
  import opened Holes
  import opened MapSteps
  import opened UnmapSteps
  import opened UnmapStalls

  /** A call of vmem_map_st from the root of a space. */
  predicate FromRoot(c: Call) { c.Levels() && c.lv == 0 && c.virt < VA_LIMIT && c.size > 0 }

  /** The space translates virt+k to phys+k for every offset below `size`. */
  ghost predicate MapsTo(t: Tree, sp: nat, virt: nat, phys: nat, size: nat) {
    forall va: nat {:trigger Look(t, sp, va, 0)} :: virt <= va < virt + size ==>
      Look(t, sp, va, 0) == Some(phys + (va - virt))
  }

  /** Nothing is in the way of pages of level `leaf` anywhere in the range. */
  ghost predicate AllOpen(t: Tree, sp: nat, base: nat, size: nat, leaf: nat)
    requires leaf <= 3
  {
    forall va: nat {:trigger See(t, sp, va, leaf, 0)} :: base <= va < base + size ==> See(t, sp, va, leaf, 0).Open?
  }

  /** The physical range is of whole pages that an entry can name. */
  predicate Nameable(c: Call) { c.phys % PAGE == 0 && c.phys + c.size <= PHYS_LIMIT }

  lemma TargetInRange(c: Call, va: nat)
    requires c.Levels() && Nameable(c) && c.Start() <= va < c.Goal()
    requires Block(va, c.leaf + 1) * Span(c.leaf + 1) >= c.Start() && c.Start() % PAGE == 0
    ensures Target(c.Work(), va) == c.phys + (va - c.Start())
  {
    hide Block, Base, Span;
    BlockBounds(va, c.leaf + 1);
    BlockStartAligned(Block(va, c.leaf + 1), c.leaf + 1, 4);
    var first := Block(va, c.leaf + 1) * Span(c.leaf + 1);
    PageNamed(c.phys, first, c.Start());
  }

  /** A page that an entry can name is named by its frame number. */
  lemma PageNamed(phys: nat, first: nat, start: nat)
    requires phys % PAGE == 0 && first % Span(4) == 0 && start % PAGE == 0 && start <= first
    requires phys + (first - start) < PHYS_LIMIT
    ensures (phys - start + first) / PAGE % FRAME_LIMIT * PAGE == phys + (first - start)
  {
    var x := phys + (first - start);
    assert x % PAGE == 0;
  }

  lemma TargetIs(c: Call, va: nat)
    requires c.Levels() && Nameable(c) && c.Start() <= va < c.Goal()
    ensures Target(c.Work(), va) == c.phys + (va - c.Start())
  {
    hide Block, Base, Target;
    StartInTable(c);
    BlockMonotone(c.Start(), va, c.leaf + 1);
    BlockBounds(c.Start(), c.leaf + 1);
    BlocksOrdered(Block(c.Start(), c.leaf + 1), Block(va, c.leaf + 1), c.leaf + 1);
    AlignedUp(c.Start(), c.leaf + 1, 4);
    TargetInRange(c, va);
  }

  lemma BlocksOrdered(m: nat, n: nat, k: nat)
    requires k <= 4 && m <= n
    ensures m * Span(k) <= n * Span(k)
  {
    if k == 0 {} else if k == 1 {} else if k == 2 {} else if k == 3 {} else {}
  }

  /** What a successful call does to one address of its range, if nothing was in the way. */
  lemma MappedAt(t0: Tree, t: Tree, huge: bool, c: Call, done: nat, va: nat)
    requires FromRoot(c) && Nameable(c) && MapPost(t0, t, huge, c, Done, done) && c.Start() <= va < c.Goal()
    requires AllOpen(t0, c.sp, c.Start(), c.size, c.leaf)
    ensures Look(t, c.sp, va, 0) == if Hole(c.Start(), va) then None else Some(c.phys + (va - c.Start()))
  {
    hide Look, WellFormed, Base, Hole, Target, See;
    var got := Region(c.Start(), c.Goal());
    assert Effect(t0, t, c.Work(), got, got, c.sp, va);
    SeenAndLooked(t0, c.sp, va, c.leaf, 0);
    assert See(t0, c.sp, va, c.leaf, 0).Open?;
    TargetIs(c, va);
  }

  /** An unaligned start is translated to the wrong place. */
  lemma UnalignedStart(t0: Tree, t: Tree, huge: bool, c: Call, done: nat)
    requires MapPre(t0, huge, c) && FromRoot(c) && Nameable(c) && MapPost(t0, t, huge, c, Done, done)
    requires AllOpen(t0, c.sp, c.Start(), c.size, c.leaf) && c.virt % Span(c.leaf + 1) != 0
    ensures !MapsTo(t, c.sp, c.virt, c.phys, c.size)
  {
    hide See, Look, WellFormed, MapPost, Hole, Span, AllOpen, Nameable;
    LeafFacts(c.size, huge, 0);
    WholePagesLeft(c.size, c.leaf);
    StartOffset(c);
    assert c.virt != c.Start();
    hide Base, LeafFrom;
    MappedAt(t0, t, huge, c, done, c.virt);
    assert Look(t, c.sp, c.virt, 0) != Some(c.phys + (c.virt - c.virt));
  }

  lemma AlignedStart(c: Call)
    requires c.Levels() && c.virt % Span(c.leaf + 1) == 0
    ensures c.Start() == c.virt && c.Goal() == c.virt + c.size
  {
  }

  /** With an aligned start, the holes are what is missing. */
  lemma HolesAreMissing(t0: Tree, t: Tree, huge: bool, c: Call, done: nat)
    requires FromRoot(c) && Nameable(c) && MapPost(t0, t, huge, c, Done, done)
    requires AllOpen(t0, c.sp, c.Start(), c.size, c.leaf) && c.Start() == c.virt
    ensures MapsTo(t, c.sp, c.virt, c.phys, c.size) <==> forall va: nat :: c.virt <= va < c.virt + c.size ==>
      !Hole(c.virt, va)
  {
    hide See, Look, WellFormed, MapPost, Hole, AllOpen, Base, Span, Nameable;
    forall va: nat | c.virt <= va < c.virt + c.size
      ensures Look(t, c.sp, va, 0) == if Hole(c.virt, va) then None else Some(c.phys + (va - c.virt))
    {
      MappedAt(t0, t, huge, c, done, va);
    }
    if MapsTo(t, c.sp, c.virt, c.phys, c.size) {
      forall va: nat | c.virt <= va < c.virt + c.size ensures !Hole(c.virt, va) {
        assert Look(t, c.sp, va, 0) == Some(c.phys + (va - c.virt));
      }
    }
  }

  /** A call that succeeds on a free range maps virt+k to phys+k for every offset of the range, if and only if
      virt is a multiple of the page size the call has chosen and every carry of the range is exact. */
  lemma MapRefinesFlatMapIff(t0: Tree, t: Tree, huge: bool, c: Call, done: nat)
    requires MapPre(t0, huge, c) && FromRoot(c) && Nameable(c) && MapPost(t0, t, huge, c, Done, done)
    requires AllOpen(t0, c.sp, c.Start(), c.size, c.leaf)
    ensures MapsTo(t, c.sp, c.virt, c.phys, c.size) <==> c.virt % Span(c.leaf + 1) == 0 && CarryOk(c.virt, c.size)
  {
    hide See, Look, WellFormed, MapPost, Hole, CarryOk, MapsTo, AllOpen, Nameable, MapPre;
    if c.virt % Span(c.leaf + 1) != 0 {
      UnalignedStart(t0, t, huge, c, done);
    } else {
      AlignedStart(c);
      HolesAreMissing(t0, t, huge, c, done);
      NoHolesIffCarryOk(c.virt, c.size);
    }
  }

  /** The same in bytes. With pages of P bytes, the largest size of page that divides the size of the range, a call that
      succeeds on a free range maps from virt rounded down to P on, as many bytes as it was asked for, to the physical
      range, but for holes; so it maps what it was asked to if and only if virt is a multiple of P and every carry is
      exact. */
  lemma MapInBytes(t0: Tree, t: Tree, huge: bool, c: Call, done: nat)
    requires MapPre(t0, huge, c) && FromRoot(c) && Nameable(c) && MapPost(t0, t, huge, c, Done, done)
    requires AllOpen(t0, c.sp, c.Start(), c.size, c.leaf)
    ensures var first := c.virt - c.virt % PageBytes(c.size, huge);
      forall va: nat {:trigger Look(t, c.sp, va, 0)} :: first <= va < first + c.size ==>
        Look(t, c.sp, va, 0) == if Hole(first, va) then None else Some(c.phys + (va - first))
    ensures MapsTo(t, c.sp, c.virt, c.phys, c.size)
       <==> c.virt % PageBytes(c.size, huge) == 0 && CarryOk(c.virt, c.size)
  {
    hide See, Look, WellFormed, MapPost, Hole, CarryOk, MapsTo, AllOpen, Nameable, MapPre, LeafFrom, PageBytes, Span;
    RoundedToPage(t0, huge, c);
    PageSizeChosen(c.size, huge);
    MapRefinesFlatMapIff(t0, t, huge, c, done);
    hide Base;
    forall va: nat | c.Start() <= va < c.Goal()
      ensures Look(t, c.sp, va, 0) == if Hole(c.Start(), va) then None else Some(c.phys + (va - c.Start()))
    {
      MappedAt(t0, t, huge, c, done, va);
    }
  }

  /** Unless it runs out of frames, a call succeeds if and only if its range lies in the 48-bit space and does
      not end in a hole, and the code finds room at every address of the range that is not in one. When it
      reports an existing mapping, exactly a prefix of those addresses is newly mapped, and the next one was
      not free. */
  lemma MapSucceedsIff(t0: Tree, t: Tree, huge: bool, c: Call, ret: Status, done: nat)
    requires FromRoot(c) && MapPost(t0, t, huge, c, ret, done) && ret != Panicked
    ensures ret == Done <==>
      && c.Goal() <= VA_LIMIT && !Under(c.Start(), c.Goal())
      && AllPassable(t0, c.sp, Region(c.Start(), c.Goal()), c.leaf)
    ensures ret == AlreadyMapped ==>
      && !Passable(See(t0, c.sp, c.Start() + done, c.leaf, 0))
      && AllPassable(t0, c.sp, Region(c.Start(), c.Start() + done), c.leaf)
  {
    hide See, Look, WellFormed, Base, Hole, Under, Overlay;
    SpaceEndsAt(c);
    var got := Region(c.Start(), c.Start() + done);
    MappedWasPassable(t0, t, c.Work(), got);
    if ret == AlreadyMapped {
      assert !Passable(See(t0, c.sp, c.Start() + done, c.leaf, 0));
      if !Under(c.Start(), c.Goal()) {
        assert c.Start() + done in Region(c.Start(), c.Goal());
      }
    }
  }

  // ----- Staying inside the range -----

  /** A call whose range does not end in a hole maps nothing outside it. */
  lemma MapStaysInRange(t0: Tree, t: Tree, huge: bool, c: Call, ret: Status, done: nat)
    requires c.Levels() && MapPost(t0, t, huge, c, ret, done) && !Under(c.Start(), c.Goal())
    ensures done <= c.size && Region(c.Start(), c.Start() + done) <= Range(c.Start(), c.size)
  {
    hide WellFormed, Overlay, See, Hole, Base, Under;
  }

  lemma UnderIsHole(a: nat, goal: nat)
    requires Under(a, goal)
    ensures Hole(a, goal)
  {
    hide SkippedAt, Span;
    var j :| 0 <= j <= 2 && SkippedAt(a, goal, j) && goal % Span(j + 1) > 0;
  }

  /** A call that finds room in its range, and returns, goes on behind the end of the range if and only if the
      range ends in a hole. */
  lemma MapOverrunsIff(t0: Tree, t: Tree, huge: bool, c: Call, ret: Status, done: nat)
    requires FromRoot(c) && MapPost(t0, t, huge, c, ret, done) && ret != Panicked && c.Goal() <= VA_LIMIT
    requires AllPassable(t0, c.sp, Region(c.Start(), c.Goal()), c.leaf)
    ensures done > c.size <==> Under(c.Start(), c.Goal())
  {
    hide WellFormed, Overlay, See, Hole, Base, Under;
    SpaceEndsAt(c);
    if Under(c.Start(), c.Goal()) {
      UnderIsHole(c.Start(), c.Goal());
      SpaceEndNotUnder(c);
      if ret == AlreadyMapped {
        assert !Passable(See(t0, c.sp, c.Start() + done, c.leaf, 0));
      }
    } else {
      MapStaysInRange(t0, t, huge, c, ret, done);
    }
  }

  lemma SpaceEndNotUnder(c: Call)
    requires FromRoot(c)
    ensures !Under(c.Start(), VA_LIMIT)
  {
    hide Base;
    assert c.Start() <= c.virt;
    TableEndNotUnder(c.Start(), VA_LIMIT, 0);
  }

  /** The last page of the space is in no hole. */
  lemma LastIsNoHole(a: nat, va: nat)
    requires VA_LIMIT - PAGE <= va < VA_LIMIT
    ensures !Hole(a, va) && !Under(a, va)
  {
    hide SkippedAt;
    forall j | 0 <= j <= 2 ensures !SkippedAt(a, va, j) {
      LastIsNotSkipped(a, va, j);
    }
  }

  lemma LastIsNotSkipped(a: nat, va: nat, j: nat)
    requires j <= 2 && VA_LIMIT - PAGE <= va < VA_LIMIT
    ensures !SkippedAt(a, va, j)
  {
    if j == 0 {} else if j == 1 {} else {}
  }

  /** With room up to the end of the space, a call that returns has mapped something outside its range if and
      only if the range ends in a hole. It has then mapped all up to the end of the space that is in no hole.
      (The space is a root of 512 slots. A process has only the lower 256, and behind the last page of its half the
      code would go on past its record.) */
  lemma MapLeavesRangeIff(t0: Tree, t: Tree, huge: bool, c: Call, ret: Status, done: nat)
    requires FromRoot(c) && MapPost(t0, t, huge, c, ret, done) && ret != Panicked && c.Goal() <= VA_LIMIT
    requires AllPassable(t0, c.sp, Region(c.Start(), VA_LIMIT), c.leaf)
    ensures Under(c.Start(), c.Goal()) <==> !(Region(c.Start(), c.Start() + done) <= Range(c.Start(), c.size))
    ensures Under(c.Start(), c.Goal()) ==> ret == Continue && c.Start() + done == VA_LIMIT
  {
    hide WellFormed, Overlay, See, Hole, Base, Under;
    SpaceEndsAt(c);
    if Under(c.Start(), c.Goal()) {
      LastIsNoHole(c.Start(), VA_LIMIT - PAGE);
      WrappedGoal(c);
      assert VA_LIMIT - PAGE in Region(c.Start(), c.Start() + done);
      assert VA_LIMIT - PAGE !in Range(c.Start(), c.size);
    } else {
      MapStaysInRange(t0, t, huge, c, ret, done);
    }
  }

  /** A range that ends in a hole ends a page or more before the space does. */
  lemma WrappedGoal(c: Call)
    requires FromRoot(c) && Under(c.Start(), c.Goal()) && c.Goal() <= VA_LIMIT
    ensures c.Goal() <= VA_LIMIT - PAGE
  {
    hide Base, Under;
    SpaceEndNotUnder(c);
    if VA_LIMIT - PAGE < c.Goal() < VA_LIMIT {
      LastIsNoHole(c.Start(), c.Goal());
    }
  }

  // ----- What unmapping sees of a mapping -----

  /** The frame named by the last page of the range. */
  function LastFrame(c: Call): nat
    requires c.Levels() && c.size >= Span(c.leaf + 1)
  {
    (c.phys + c.size - Span(c.leaf + 1)) / PAGE
  }

  /** The slot of a mapped address names the frame of its page. */
  lemma MappedFrame(t0: Tree, t1: Tree, huge: bool, c: Call, va: nat)
    requires FromRoot(c) && Nameable(c) && InOneTable(c.virt, c.size, c.leaf) && WellFormed(t1, huge)
    requires Overlay(t0, t1, c.Work(), Region(c.virt, c.virt + c.size), Region(c.virt, c.virt + c.size))
    requires Reaches(t1, c.sp, c.virt, c.leaf) && va in TouchedSet(c.virt, c.size, c.leaf)
    ensures InRange(c.virt, c.size, va)
    ensures Met(t1, c.sp, va, c.leaf).frame * PAGE == c.phys + (va - c.virt) - va % Span(c.leaf + 1)
  {
    hide Look, See, WellFormed, Block, Span, Region, Target, Touched, Nameable, EntryAt, Base;
    var got := Region(c.virt, c.virt + c.size);
    PagesStart(c);
    OneTableTouches(c.virt, c.size, c.leaf, va);
    OneTableTouchesRange(c.virt, c.size, c.leaf, va);
    assert Effect(t0, t1, c.Work(), got, got, c.sp, va);
    TouchedReaches(t1, c.sp, c.virt, c.size, c.leaf, va);
    TakenIsMet(t1, c.sp, va, c.leaf, 0);
    LookFrom(t1, huge, c.sp, va, c.leaf, c.leaf);
    LookAtPage(t1, c.sp, va, c.leaf);
    TargetIs(c, va);
  }

  lemma LookAtPage(t: Tree, sp: nat, va: nat, leaf: nat)
    requires leaf <= 3 && Met(t, sp, va, leaf).present && (Met(t, sp, va, leaf).large || leaf == 3)
    ensures Look(t, sp, va, leaf) == Some(Met(t, sp, va, leaf).frame * PAGE + va % Span(leaf + 1))
  {
    hide EntryAt;
  }

  /** After mapping a range inside one table, every slot of it is in sight if and only if the last one is. */
  lemma InSightIffLast(t0: Tree, t1: Tree, huge: bool, c: Call, mapSize: nat)
    requires FromRoot(c) && Nameable(c) && InOneTable(c.virt, c.size, c.leaf) && WellFormed(t1, huge)
    requires Overlay(t0, t1, c.Work(), Region(c.virt, c.virt + c.size), Region(c.virt, c.virt + c.size))
    requires Reaches(t1, c.sp, c.virt, c.leaf)
    ensures c.size >= Span(c.leaf + 1)
    ensures InSight(t1, c.sp, TouchedSet(c.virt, c.size, c.leaf), c.leaf, mapSize) <==> Shown(LastFrame(c), mapSize)
  {
    hide WellFormed, Overlay, Region, Block, Met, Span, EntryAt;
    WholePagesLeft(c.size, c.leaf);
    var last := c.virt + (c.size - Span(c.leaf + 1));
    LastPage(c, last);
    MappedFrame(t0, t1, huge, c, last);
    forall va: nat | va in TouchedSet(c.virt, c.size, c.leaf)
      ensures Met(t1, c.sp, va, c.leaf).frame <= Met(t1, c.sp, last, c.leaf).frame
    {
      MappedFrame(t0, t1, huge, c, va);
      PagesBefore(c, va, last);
    }
    assert Met(t1, c.sp, last, c.leaf).frame == LastFrame(c);
  }

  lemma LastPage(c: Call, last: nat)
    requires c.Levels() && InOneTable(c.virt, c.size, c.leaf) && c.size >= Span(c.leaf + 1)
    requires last == c.virt + (c.size - Span(c.leaf + 1))
    ensures last in TouchedSet(c.virt, c.size, c.leaf) && last % Span(c.leaf + 1) == 0
  {
    hide Block, Span, Touched;
    OneTableTouchesRange(c.virt, c.size, c.leaf, last);
    WholePagesLeft(c.size, c.leaf);
    SumOfPages(c.virt, c.size - Span(c.leaf + 1), c.leaf);
  }

  lemma PagesBefore(c: Call, va: nat, last: nat)
    requires c.Levels() && last % Span(c.leaf + 1) == 0 && va < last + Span(c.leaf + 1)
    ensures va - va % Span(c.leaf + 1) <= last
  {
    hide Block;
    BlockBounds(va, c.leaf + 1);
    BlockBounds(last, c.leaf + 1);
    BlockMonotone(va, last + Span(c.leaf + 1) - 1, c.leaf + 1);
    BlockUnique(last + Span(c.leaf + 1) - 1, c.leaf + 1, Block(last, c.leaf + 1));
    BlocksOrdered(Block(va, c.leaf + 1), Block(last, c.leaf + 1), c.leaf + 1);
  }

  /** With all tables in sight, so is the way down to one of them. */
  lemma WayIsInSight(t: Tree, huge: bool, sp: nat, virt: nat, leaf: nat, mapSize: nat)
    requires WellFormed(t, huge) && leaf <= 3 && Reaches(t, sp, virt, leaf)
    requires forall n :: Frame(n) in t.mem ==> Shown(n, mapSize)
    ensures WayInSight(t, sp, virt, 0, leaf, mapSize)
  {
    PathAbove(t, huge, sp, virt, leaf);
    hide Block, EntryAt;
    forall j | 0 <= j < leaf ensures Shown(Met(t, sp, virt, j).frame, mapSize) {
      assert EntryOk(t, huge, sp, j, Block(virt, j + 1));
      assert Reaches(t, sp, virt, j + 1);
      assert Frame(Met(t, sp, virt, j).frame) in t.mem;
    }
  }

  /** What a call has mapped it cannot unmap again if the size is that of a table of pages or more, wherever the range
      starts: the slot above the first page then points at a table, and unmapping from the root is never reported as
      done. */
  lemma LongMapStalls(t0: Tree, t: Tree, huge: bool, c: Call, ret: Status, done: nat, mapSize: nat, turns: nat)
    requires MapPre(t0, huge, c) && FromRoot(c) && MapPost(t0, t, huge, c, ret, done) && ret != Panicked
    requires done > 0 && c.size >= Span(c.leaf)
    ensures var r := Unmap(mapSize, t.mem, c.f, c.virt, c.size, 0, turns); r.Ended? ==> r.status != Done
  {
    hide MapPre, MapPost, Unmap, Span, Block, WellFormed;
    FirstIsMapped(t0, t, huge, c, ret, done);
    assert Pointer(Met(t, c.sp, c.virt, c.leaf - 1));
    StallsFromRoot(mapSize, t, huge, c.sp, c.virt, c.size, c.leaf - 1, 0, turns);
  }

  /** After a call that has mapped something, the walk of its address comes down to the table of its pages. */
  lemma FirstIsMapped(t0: Tree, t: Tree, huge: bool, c: Call, ret: Status, done: nat)
    requires MapPre(t0, huge, c) && FromRoot(c) && MapPost(t0, t, huge, c, ret, done) && ret != Panicked && done > 0
    ensures WellFormed(t, huge) && Reaches(t, c.sp, c.virt, 0) && t.dir[Pos(c.sp, 0, Block(c.virt, 0))] == c.f
    ensures Reaches(t, c.sp, c.virt, c.leaf - 1)
    ensures Met(t, c.sp, c.virt, c.leaf - 1).present && !Met(t, c.sp, c.virt, c.leaf - 1).large
  {
    hide See, Look, WellFormed, Block, Hole, Under, Target, Base, EntryAt, Span;
    var a, got := c.Start(), Region(c.Start(), c.Start() + done);
    NoHoleAtStart(a);
    assert Effect(t0, t, c.Work(), got, got, c.sp, a);
    SameBlocksAsStart(c);
    OverlayKeepsPlaces(t0, t, c.Work(), got, got, Pos(c.sp, 0, Block(c.virt, 0)));
    TakenReaches(t, huge, c.sp, a, c.leaf, 0);
    assert Reaches(t, c.sp, c.virt, c.leaf);
    PathAbove(t, huge, c.sp, c.virt, c.leaf);
  }

  lemma SameBlocksAsStart(c: Call)
    requires c.Levels()
    ensures forall k :: 0 <= k <= c.leaf + 1 ==> Block(c.Start(), k) == Block(c.virt, k)
  {
    hide Base, Block;
    forall k | 0 <= k <= c.leaf + 1 ensures Block(c.Start(), k) == Block(c.virt, k) {
      BaseFacts(c.virt, c.leaf, k);
    }
  }

  /** A call and the one from its rounded address do the same. */
  lemma RoundedCall(c: Call)
    requires c.Levels()
    ensures var a := c.(virt := c.Start());
      && a.Levels() && a.Start() == c.Start() && a.Goal() == c.Goal() && a.End() == c.End() && a.Work() == c.Work()
  {
    hide Base, Block;
    SameBlocksAsStart(c);
    BaseFacts(c.virt, c.leaf, 0);
    BaseOfBase(c.virt, c.leaf);
  }

  lemma BaseOfBase(virt: nat, leaf: nat)
    requires leaf <= 3
    ensures Base(Base(virt, leaf), leaf) == Base(virt, leaf)
  {
    BaseFacts(virt, leaf, leaf + 1);
    hide Block;
  }

  lemma RoundedPost(t0: Tree, t: Tree, huge: bool, c: Call, ret: Status, done: nat, fr: Frames)
    requires c.Levels() && MapPost(t0, t, huge, c, ret, done) && FrameUse(c, fr, ret, done)
    ensures c.(virt := c.Start()).Levels() && MapPost(t0, t, huge, c.(virt := c.Start()), ret, done)
    ensures FrameUse(c.(virt := c.Start()), fr, ret, done)
  {
    hide WellFormed, Overlay, See, Base, Block, Hole, Under, Slots;
    RoundedCall(c);
  }

  // ----- Frames -----

  /** The blocks of `k` bytes that the addresses from `first` to `last` lie in. */
  function BlocksOf(first: nat, last: nat, k: nat): int
    requires k > 0
  {
    last / k - first / k + 1
  }

  /** The frames that a range needs at most, with pages of `page` bytes: a table for each 512GiB it touches, one more
      for each 1GiB with smaller pages than that, and one more for each 2MiB with pages of 4KiB. */
  function FramesFor(first: nat, last: nat, page: nat): int {
    BlocksOf(first, last, 0x80_0000_0000)
    + (if page < 0x4000_0000 then BlocksOf(first, last, 0x4000_0000) else 0)
    + (if page < 0x20_0000 then BlocksOf(first, last, 0x20_0000) else 0)
  }

  lemma TablesInBytes(size: nat, huge: bool, first: nat, last: nat)
    ensures Tables(0, LeafFrom(size, huge, 0), first, last) == FramesFor(first, last, PageBytes(size, huge))
  {
    PageSizeChosen(size, huge);
    var leaf := LeafFrom(size, huge, 0);
    hide LeafFrom, PageBytes;
    assert Slots(first, leaf, leaf) == 0 && Slots(last, leaf, leaf) == 0;
    if leaf >= 2 {
      assert Slots(first, 1, leaf) == Block(first, 2) + Slots(first, 2, leaf);
      assert Slots(last, 1, leaf) == Block(last, 2) + Slots(last, 2, leaf);
    }
    if leaf == 3 {
      assert Slots(first, 2, 3) == Block(first, 3) && Slots(last, 2, 3) == Block(last, 3);
    }
    assert Slots(first, 0, leaf) == Block(first, 1) + Slots(first, 1, leaf);
    assert Slots(last, 0, leaf) == Block(last, 1) + Slots(last, 1, leaf);
  }

  /** Where a call starts, in bytes. */
  lemma RoundedToPage(t: Tree, huge: bool, c: Call)
    requires MapPre(t, huge, c) && c.lv == 0
    ensures c.leaf == LeafFrom(c.size, huge, 0) && c.Start() == c.virt - c.virt % PageBytes(c.size, huge)
  {
    hide LeafFrom, PageBytes, Span, WellFormed;
    PageSizeChosen(c.size, huge);
  }

  /** The same bound in bytes: with that many frames, all in sight, a call whose range does not end in a hole does not
      panic. */
  lemma FramesInBytes(t0: Tree, t: Tree, huge: bool, c: Call, fr: Frames, ret: Status, done: nat)
    requires MapPre(t0, huge, c) && FromRoot(c) && MapPost(t0, t, huge, c, ret, done) && FrameUse(c, fr, ret, done)
    requires !Under(c.Start(), c.Goal()) && fr.seen
    requires var first := c.virt - c.virt % PageBytes(c.size, huge);
      fr.had >= FramesFor(first, first + c.size - 1, PageBytes(c.size, huge))
    ensures ret != Panicked
  {
    hide MapPost, FrameUse, Slots, Tables, Under, FramesFor, LeafFrom, PageBytes, Span, WellFormed, MapPre, Base;
    RoundedToPage(t0, huge, c);
    TablesInBytes(c.size, huge, c.Start(), c.Goal() - 1);
    FramesSuffice(t0, t, huge, c, fr, ret, done);
  }

  /** A call never runs out of frames if it has one for every table that the addresses of its range need, and does
      not panic if vmem_phystovirt shows them and the tables there are. */
  lemma FramesSuffice(t0: Tree, t: Tree, huge: bool, c: Call, fr: Frames, ret: Status, done: nat)
    requires FromRoot(c) && MapPost(t0, t, huge, c, ret, done) && FrameUse(c, fr, ret, done)
    requires !Under(c.Start(), c.Goal()) && fr.seen && fr.had >= Tables(0, c.leaf, c.Start(), c.Goal() - 1)
    ensures ret != Panicked
  {
    hide See, Look, WellFormed, Base, Hole, Under, Overlay, Slots;
    if ret == Panicked {
      SlotsMonotone(c.Start() + done, c.Goal() - 1, 0, c.leaf);
    }
  }

  /** Every address that is not mapped, in every space, translates as before, if no page at physical 0 is in
      the way of a mapped one. */
  lemma MapLeavesTheRest(t0: Tree, t: Tree, huge: bool, c: Call, ret: Status, done: nat, s: nat, va: nat)
    requires c.Levels() && MapPost(t0, t, huge, c, ret, done) && ret != Panicked
    requires NoZeroPage(t0, c.Work(), Region(c.Start(), c.Start() + done))
    requires s != c.sp || va !in Region(c.Start(), c.Start() + done)
    ensures Look(t, s, va, 0) == Look(t0, s, va, 0)
  {
    hide See, Look, WellFormed, Base, Region, Struck;
    var got := Region(c.Start(), c.Start() + done);
    assert Effect(t0, t, c.Work(), got, got, s, va);
    NothingStruck(t0, c.Work(), got, va);
  }

  /** The tables form a tree: no frame is named by two slots. */
  lemma OneParentSlot(t: Tree, huge: bool, s: nat, l: nat, m: nat, s': nat, l': nat, m': nat)
    requires WellFormed(t, huge) && l < 3 && l' < 3
    requires EntryAt(t, s, l, m).present && !EntryAt(t, s, l, m).large
    requires EntryAt(t, s', l', m').present && !EntryAt(t, s', l', m').large
    requires EntryAt(t, s, l, m).frame == EntryAt(t, s', l', m').frame
    ensures s == s' && l == l' && m == m'
  {
    hide EntryAt;
    assert EntryOk(t, huge, s, l, m) && EntryOk(t, huge, s', l', m');
    assert Pos(s, l + 1, m) == Pos(s', l' + 1, m');
  }

  /** A call that maps an address under a page at physical 0 takes that page for an absent table: all other
      addresses of the page lose their translations, unless the call maps them too. */
  lemma ZeroPageIsLost(t0: Tree, t: Tree, huge: bool, c: Call, ret: Status, done: nat, w: nat, va: nat)
    requires c.Levels() && MapPost(t0, t, huge, c, ret, done) && ret != Panicked
    requires w in Region(c.Start(), c.Start() + done) && ZeroPage(See(t0, c.sp, w, c.leaf, 0))
    requires See(t0, c.sp, w, c.leaf, 0).at <= 3
    requires Block(va, See(t0, c.sp, w, c.leaf, 0).at + 1) == Block(w, See(t0, c.sp, w, c.leaf, 0).at + 1)
    requires va !in Region(c.Start(), c.Start() + done)
    ensures Look(t0, c.sp, va, 0) == Some(va % Span(See(t0, c.sp, w, c.leaf, 0).at + 1))
    ensures Look(t, c.sp, va, 0) == None
  {
    hide See, Look, WellFormed, Base, Region, Block;
    var got := Region(c.Start(), c.Start() + done);
    PageSeenByAll(t0, c.sp, w, va, c.leaf, 0);
    SeenAndLooked(t0, c.sp, va, c.leaf, 0);
    assert Effect(t0, t, c.Work(), got, got, c.sp, va);
    assert Near(got, va, See(t0, c.sp, va, c.leaf, 0).at + 1);
  }

  // ----- An input that fails -----

  const FAILING_VIRT := 0x3fff_f000
  const FAILING_SIZE := 0x40_1000

  lemma FailingHoles(va: nat)
    requires 0x4000_0000 <= va < 0x401f_f000
    ensures Hole(FAILING_VIRT, va)
  {
    assert SkippedAt(FAILING_VIRT, va, 1);
  }

  lemma FailingGoal()
    ensures !Under(FAILING_VIRT, FAILING_VIRT + FAILING_SIZE)
  {
    var goal := FAILING_VIRT + FAILING_SIZE;
    forall j | 0 <= j <= 2 ensures !SkippedAt(FAILING_VIRT, goal, j) {
      if j == 0 {} else if j == 1 {} else {}
    }
  }

  /** 0x401000 bytes from 0x3ffff000 on, in a space that is free there: the address is a multiple of the page
      size, the call succeeds unless frames run out, and the two megabytes less a page from 1GiB on stay
      untranslated. */
  lemma MisalignedCarryFails(t0: Tree, t: Tree, huge: bool, c: Call, ret: Status, done: nat)
    requires MapPre(t0, huge, c) && FromRoot(c) && Nameable(c) && c.virt == FAILING_VIRT && c.size == FAILING_SIZE
    requires MapPost(t0, t, huge, c, ret, done) && ret != Panicked
    requires AllOpen(t0, c.sp, c.Start(), c.size, c.leaf)
    ensures c.leaf == 3 && c.virt % Span(c.leaf + 1) == 0 && ret == Done
    ensures forall va: nat {:trigger Look(t, c.sp, va, 0)} :: 0x4000_0000 <= va < 0x401f_f000 ==>
      Look(t, c.sp, va, 0) == None
  {
    hide See, Look, WellFormed, Hole, Under, AllOpen, MapPost;
    assert c.leaf == 3 && c.Start() == FAILING_VIRT;
    FailingGoal();
    OpenIsPassable(t0, c.sp, c.Start(), c.size, c.leaf);
    MapSucceedsIff(t0, t, huge, c, ret, done);
    forall va: nat | 0x4000_0000 <= va < 0x401f_f000 ensures Look(t, c.sp, va, 0) == None {
      FailingHoles(va);
      MappedAt(t0, t, huge, c, done, va);
    }
  }

  lemma OpenIsPassable(t: Tree, sp: nat, base: nat, size: nat, leaf: nat)
    requires leaf <= 3 && AllOpen(t, sp, base, size, leaf)
    ensures AllPassable(t, sp, Region(base, base + size), leaf)
  {
    hide See, Hole;
  }

  const WRAPPING_OFFSET := 0x3fff_f000
  const WRAPPING_SIZE := 0x2000

  lemma WrappingEndsInHole(half: nat)
    requires half == 0 || half == HALF
    ensures Under(half + WRAPPING_OFFSET, half + WRAPPING_OFFSET + WRAPPING_SIZE)
    ensures !Hole(half + WRAPPING_OFFSET, half + 0x401f_f000) && !Hole(half + WRAPPING_OFFSET, half + 0x7fff_ffff_f000)
  {
    var a, x, y := half + WRAPPING_OFFSET, half + 0x401f_f000, half + 0x7fff_ffff_f000;
    assert SkippedAt(a, a + WRAPPING_SIZE, 1);
    forall j | 0 <= j <= 2 ensures !SkippedAt(a, x, j) && !SkippedAt(a, y, j) {
      NotInWrappedHole(half, j);
    }
  }

  lemma NotInWrappedHole(half: nat, j: nat)
    requires (half == 0 || half == HALF) && j <= 2
    ensures !SkippedAt(half + WRAPPING_OFFSET, half + 0x401f_f000, j)
    ensures !SkippedAt(half + WRAPPING_OFFSET, half + 0x7fff_ffff_f000, j)
  {
    var a := half + WRAPPING_OFFSET;
    if j == 0 {
      FarFromStart(a, half + 0x7fff_ffff_f000);
      assert Block(half + 0x401f_f000, 1) == Block(a, 1);
    } else {
      hide Block, Span;
      OffsetsInSlots(half);
    }
  }

  lemma FarFromStart(a: nat, va: nat)
    requires va % 0x80_0000_0000 >= 0x4000_0000
    ensures !SkippedAt(a, va, 0)
  {
  }

  lemma OffsetsInSlots(half: nat)
    requires half == 0 || half == HALF
    ensures (half + WRAPPING_OFFSET) % Span(3) == 0x1f_f000 && (half + WRAPPING_OFFSET) % Span(4) == 0
    ensures (half + 0x401f_f000) % Span(2) == 0x1f_f000 && (half + 0x7fff_ffff_f000) % Span(2) == 0x3fff_f000
  {
  }

  /** 0x2000 bytes from 0x3ffff000 on, in either half of a space that is free from there on: the range ends in a
      hole, the size wraps, and unless the call panics it runs on to the end of the space, a root of 512 slots. (In
      a process's space the last page of the lower half is the last that has a slot.) */
  lemma WrappedSizeMapsOn(t0: Tree, t: Tree, huge: bool, c: Call, ret: Status, done: nat, half: nat)
    requires MapPre(t0, huge, c) && FromRoot(c) && MapPost(t0, t, huge, c, ret, done) && ret != Panicked
    requires (half == 0 || half == HALF) && c.virt == half + WRAPPING_OFFSET && c.size == WRAPPING_SIZE
    requires AllOpen(t0, c.sp, c.virt, VA_LIMIT - c.virt, c.leaf)
    ensures Under(c.virt, c.virt + c.size) && ret == Continue && c.virt + done == VA_LIMIT
    ensures Look(t, c.sp, half + 0x401f_f000, 0) == Some(Target(c.Work(), half + 0x401f_f000))
    ensures Look(t, c.sp, half + 0x7fff_ffff_f000, 0) == Some(Target(c.Work(), half + 0x7fff_ffff_f000))
  {
    hide See, Look, WellFormed, Hole, Under, AllOpen, Target;
    assert c.leaf == 3 && c.Start() == c.virt;
    WrappingEndsInHole(half);
    OpenIsPassable(t0, c.sp, c.virt, VA_LIMIT - c.virt, c.leaf);
    MapLeavesRangeIff(t0, t, huge, c, ret, done);
    var got := Region(c.virt, VA_LIMIT);
    assert Effect(t0, t, c.Work(), got, got, c.sp, half + 0x401f_f000);
    assert Effect(t0, t, c.Work(), got, got, c.sp, half + 0x7fff_ffff_f000);
  }
}
