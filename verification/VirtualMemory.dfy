/** Address spaces on one core: mapping into them, switching between them, and the physical windows. */
module VirtualMemory {
  import opened Paging
  import opened MapEffects
  import opened PageTables
  import opened Holes
  import opened MapSteps
  import opened UnmapSteps
  import opened UnmapStalls
  import opened MapTheorems
  import opened PageTableManager
  import opened LiveTable
  import opened AccessRights

  const GIB := 0x4000_0000
  const KERN_TOP_BASE := 0xffff_ffff_8000_0000
  const KERN_PHYSMAP_BASE := 0xffff_8000_0000_0000
  const KERN_PHYSMAP_BASE_UC := KERN_PHYSMAP_BASE + 512 * GIB
  const PHYS_MAP_SIZE := 256 * GIB

  /** The 48 bits of an address that the tables translate. */
  function Low48(virt: int): nat { virt % VA_LIMIT }

  /** intptr_t from its 64 bits. */
  function Signed(w: int): int { if w % WORD < WORD / 2 then w % WORD else w % WORD - WORD }

  // ----- Mapping into the active space -----

  /** What an address reads after a mapping into the active space and a save: the mapping's target only if the live
      table has its root slot; nothing if it lies under a page at physical 0 that was in the way; otherwise what it
      read before. */
  ghost function ReadsAfterSave(t0: Tree, live: seq<Entry>, c: Call, got: iset<nat>, s: nat, va: nat): Option<nat>
    requires c.Levels() && |live| == 512
  {
    if s == c.sp && va < HALF && !live[Index(va, 0)].present then None
    else if s == c.sp && va in got then Some(Target(c.Work(), va))
    else if s == c.sp && Struck(See(t0, s, va, c.leaf, 0), got, va) then None
    else Look(t0, s, va, 0)
  }

  /** A mapping made directly into the active space, and then a save, which copies the lagging lower half of the live
      table over the space's own: what every address of every space reads afterwards. If the live table did not lag
      before the call, the root slots it lacks are those that were not in use. */
  lemma ActiveMapSurvivesIffSlotInUse(t0: Tree, t1: Tree, huge: bool, live: seq<Entry>, c: Call, ret: Status, done: nat,
                                      s: nat, va: nat)
    requires WellFormed(t0, huge) && Pos(c.sp, 0, 0) in t0.dir && LiveOk(t0, live, Some(c.sp))
    requires c.Levels() && MapPost(t0, t1, huge, c, ret, done) && ret != Panicked
    requires HasRoots(t1.mem, live, Some(c.sp)) && va < VA_LIMIT
    ensures Look(Saved(t1, live, Some(c.sp)), s, va, 0)
         == ReadsAfterSave(t0, live, c, Region(c.Start(), c.Start() + done), s, va)
    ensures Mirrors(t0.mem, live, Some(c.sp)) && va < HALF ==> live[Index(va, 0)] == Met(t0, c.sp, va, 0)
  {
    hide Look, See, Target, Base, Region, Struck, Saved, EntryAt, Block, Index, LiveOk, WellFormed, Under, Mirrors;
    RootSlot(va);
    LiveSlotIsRoots(t0, huge, live, c.sp, va);
    var got := Region(c.Start(), c.Start() + done);
    assert Effect(t0, t1, c.Work(), got, got, s, va);
    LiveOutlivesMap(t0, t1, live, Some(c.sp), c.sp);
    SavedTranslations(t1, huge, live, Some(c.sp), s, va);
  }

  lemma LiveSlotIsRoots(t: Tree, huge: bool, live: seq<Entry>, sp: nat, va: nat)
    requires WellFormed(t, huge) && Pos(sp, 0, 0) in t.dir && va < VA_LIMIT
    ensures Mirrors(t.mem, live, Some(sp)) && va < HALF ==> live[Index(va, 0)] == Met(t, sp, va, 0)
  {
    RootSlot(va);
    RootEntry(t, huge, sp, va);
  }

  lemma LiveHasRoots(t: Tree, live: seq<Entry>, cur: Option<nat>)
    requires LiveOk(t, live, cur)
    ensures HasRoots(t.mem, live, cur)
  {
  }

  lemma RootsAreSaved(t: Tree, live: seq<Entry>, cur: Option<nat>, sp: nat)
    requires LiveOk(t, live, cur) && Pos(sp, 0, 0) in t.dir
    ensures HasRoots(t.mem, live, cur) && Pos(sp, 0, 0) in Saved(t, live, cur).dir
  {
  }

  /** No save drops a root. */
  lemma RootsStay(t: Tree, live: seq<Entry>, cur: Option<nat>)
    requires LiveOk(t, live, cur)
    ensures HasRoots(t.mem, live, cur)
    ensures forall sp :: Pos(sp, 0, 0) in t.dir ==> Pos(sp, 0, 0) in Saved(t, live, cur).dir
  {
  }

  /** A mapping in one space leaves what the next save makes of another as it was, in its lower half. */
  lemma OtherSpaceSettles(t0: Tree, t1: Tree, huge: bool, c: Call, ret: Status, done: nat, live0: seq<Entry>,
                          live: seq<Entry>, cur: Option<nat>, s: nat, va: nat)
    requires WellFormed(t0, huge) && LiveOk(t0, live0, cur) && (cur.Some? ==> Pos(cur.value, 0, 0) in t0.dir)
    requires LiveOk(t1, live, cur) && (cur.Some? ==> Pos(cur.value, 0, 0) in t1.dir)
    requires |live0| == 512 && |live| == 512 && live[..256] == live0[..256]
    requires c.Levels() && MapPost(t0, t1, huge, c, ret, done) && s != c.sp && va < HALF
    ensures Look(Saved(t1, live, cur), s, va, 0) == Look(Saved(t0, live0, cur), s, va, 0)
  {
    hide Look, See, Target, Base, Region, Struck, Saved, EntryAt, Block, Index, LiveOk, WellFormed, Under;
    var got := Region(c.Start(), c.Start() + done);
    if ret == Panicked {
      var hit := got + iset{c.Start() + done};
      assert Effect(t0, t1, c.Work(), got, got, s, va) || Effect(t0, t1, c.Work(), got, hit, s, va);
    } else {
      assert Effect(t0, t1, c.Work(), got, got, s, va);
    }
    RootSlot(va);
    var i := Index(va, 0);
    assert live[i] == live[..256][i] == live0[..256][i] == live0[i];
    SavedTranslations(t0, huge, live0, cur, s, va);
    SavedTranslations(t1, huge, live, cur, s, va);
  }

  lemma RootEntry(t: Tree, huge: bool, sp: nat, va: nat)
    requires WellFormed(t, huge) && Pos(sp, 0, 0) in t.dir && va < VA_LIMIT
    ensures Root(sp) in t.mem && |t.mem[Root(sp)]| == 512 && Met(t, sp, va, 0) == t.mem[Root(sp)][Index(va, 0)]
  {
    assert t.dir[Pos(sp, 0, 0)] == Root(sp);
    BlockNest(va, 0);
    assert Block(va, 0) == 0;
  }

  // ----- Mapping calls at the root -----

  /** vmem_map's call of vmem_map_st. */
  function RootCall(huge: bool, sp: nat, virt: int, phys: nat, size: nat, perms: Perms): Call {
    Call(sp, Root(sp), Low48(virt), phys, size, perms, 0, LeafFrom(size, huge, 0))
  }

  /** The size is of whole pages. A range in the lower half stays there, and does not end in a hole: a space has
      root slots only for that half, which the code indexes unchecked. */
  ghost predicate Mappable(huge: bool, virt: int, size: nat) {
    var base := Base(Low48(virt), LeafFrom(size, huge, 0));
    && -HALF <= virt < HALF && size % PAGE == 0 && size < WORD
    && (virt >= 0 ==> base + size <= HALF && !Under(base, base + size))
  }

  lemma LeafOfRoot(size: nat, huge: bool)
    ensures 1 <= LeafFrom(size, huge, 0) <= 3
  {
  }

  lemma MappableFromRoot(t: Tree, huge: bool, sp: nat, virt: int, phys: nat, size: nat, perms: Perms)
    requires Mappable(huge, virt, size) && WellFormed(t, huge) && Pos(sp, 0, 0) in t.dir
    ensures MapPre(t, huge, RootCall(huge, sp, virt, phys, size, perms))
  {
    LeafOfRoot(size, huge);
    assert Block(Low48(virt), 0) == 0;
    assert t.dir[Pos(sp, 0, 0)] == Root(sp);
    hide Base, Under, LeafFrom;
  }

  /** A call in the lower half never runs off the end of the space. */
  lemma NeverRunsOffRoot(t0: Tree, t: Tree, huge: bool, sp: nat, virt: int, phys: nat, size: nat, perms: Perms,
                         ret: Status, done: nat)
    requires Mappable(huge, virt, size) && virt >= 0
    requires var c := RootCall(huge, sp, virt, phys, size, perms); c.Levels() && MapPost(t0, t, huge, c, ret, done)
    ensures ret != Continue
  {
    LowerGoal(huge, sp, virt, phys, size, perms);
    var c := RootCall(huge, sp, virt, phys, size, perms);
    hide Mappable, RootCall, Base, Under, Overlay, WellFormed, See, Region, Hole;
  }

  lemma LowerGoal(huge: bool, sp: nat, virt: int, phys: nat, size: nat, perms: Perms)
    requires Mappable(huge, virt, size) && virt >= 0
    ensures var c := RootCall(huge, sp, virt, phys, size, perms);
      c.Levels() && c.Goal() <= HALF < c.End() && !Under(c.Start(), c.Goal())
  {
    LeafOfRoot(size, huge);
    LowHalf(virt);
    SpaceEndsAt(RootCall(huge, sp, virt, phys, size, perms));
    hide Base, Under, LeafFrom, Low48;
  }

  /** What a mapping call keeps of the places and roots. */
  lemma MapKeepsRoots(t0: Tree, t: Tree, huge: bool, c: Call, ret: Status, done: nat)
    requires c.Levels() && MapPost(t0, t, huge, c, ret, done)
    ensures WellFormed(t, huge) && Extends(t0, t, c.sp)
    ensures forall r :: r in t0.mem ==> |t.mem[r]| == 512
  {
    hide Effect, Region;
  }

  /** What a call does to the rest of the memory, for every address of every space at once. */
  ghost predicate RestUntouched(t0: Tree, t: Tree, sp: nat, got: iset<nat>) {
    forall s: nat, va: nat {:trigger Look(t, s, va, 0)} :: s != sp || va !in got ==>
      Look(t, s, va, 0) == Look(t0, s, va, 0)
  }

  lemma MapUntouched(t0: Tree, t: Tree, huge: bool, c: Call, ret: Status, done: nat)
    requires c.Levels() && MapPost(t0, t, huge, c, ret, done) && ret != Panicked
    ensures NoZeroPage(t0, c.Work(), Region(c.Start(), c.Start() + done)) ==>
      RestUntouched(t0, t, c.sp, Region(c.Start(), c.Start() + done))
  {
    hide Look, MapPost, Base, Region, NoZeroPage;
    var got := Region(c.Start(), c.Start() + done);
    if NoZeroPage(t0, c.Work(), got) {
      forall s: nat, va: nat | s != c.sp || va !in got ensures Look(t, s, va, 0) == Look(t0, s, va, 0) {
        MapLeavesTheRest(t0, t, huge, c, ret, done, s, va);
      }
    }
  }

  lemma RootTable(t: Tree, huge: bool, sp: nat)
    requires WellFormed(t, huge) && Pos(sp, 0, 0) in t.dir
    ensures Root(sp) in t.mem && |t.mem[Root(sp)]| == 512
  {
    assert t.dir[Pos(sp, 0, 0)] == Root(sp);
  }

  // ----- A new space -----

  function WithSpace(t: Tree, id: nat): Tree {
    Tree(t.mem[Root(id) := NewTable()], t.dir[Pos(id, 0, 0) := Root(id)])
  }

  /** A new, empty space translates nothing and changes no other space. */
  lemma NewSpaceIsEmpty(t: Tree, huge: bool, id: nat)
    requires WellFormed(t, huge) && Pos(id, 0, 0) !in t.dir && Root(id) !in t.mem
    ensures WellFormed(WithSpace(t, id), huge)
    ensures forall sp: nat, va: nat {:trigger Look(WithSpace(t, id), sp, va, 0)} ::
      Look(WithSpace(t, id), sp, va, 0) == if sp == id then None else Look(t, sp, va, 0)
  {
    var t' := WithSpace(t, id);
    forall s: nat, l: nat, k: nat ensures EntryAt(t', s, l, k) == EntryAt(t, s, l, k) {
      NothingAtRoot(t, huge, id, k);
    }
    forall s: nat, l: nat, k: nat ensures EntryOk(t', huge, s, l, k) {
      assert EntryOk(t, huge, s, l, k);
    }
    forall sp: nat, va: nat ensures Look(t', sp, va, 0) == if sp == id then None else Look(t, sp, va, 0) {
      if sp == id {
        NothingAtRoot(t, huge, id, Block(va, 1));
        assert Met(t', sp, va, 0) == EMPTY;
      } else {
        SameLook(t, t', sp, va, 0);
      }
    }
  }

  lemma NothingAtRoot(t: Tree, huge: bool, id: nat, k: nat)
    requires WellFormed(t, huge) && Pos(id, 0, 0) !in t.dir
    ensures EntryAt(t, id, 0, k) == EMPTY
  {
  }

  lemma NewRoot(t: Tree, id: nat)
    ensures WithSpace(t, id).mem == t.mem[Root(id) := NewTable()]
    ensures WithSpace(t, id).dir == t.dir[Pos(id, 0, 0) := Root(id)]
  {
  }

  /** A new space is in nobody's way, nor in that of the live table. */
  lemma CreateKeeps(t: Tree, huge: bool, live: seq<Entry>, cur: Option<nat>, id: nat)
    requires WellFormed(t, huge) && LiveOk(t, live, cur) && Pos(id, 0, 0) !in t.dir && Root(id) !in t.mem
    requires Pos(KERNEL, 0, 0) in t.dir
    ensures WellFormed(WithSpace(t, id), huge) && LiveOk(WithSpace(t, id), live, cur)
    ensures Mirrors(t.mem, live, cur) ==> Mirrors(WithSpace(t, id).mem, live, cur)
  {
    hide LiveOk, Mirrors, Look;
    NewSpaceIsEmpty(t, huge, id);
    TablesStay(t, huge, id);
    hide WellFormed, WithSpace;
    LiveHasRoots(t, live, cur);
    MirrorsWithSpace(t, live, cur, id);
    LiveOutlivesMap(t, WithSpace(t, id), live, cur, id);
  }

  lemma TablesStay(t: Tree, huge: bool, id: nat)
    requires WellFormed(t, huge) && Pos(id, 0, 0) !in t.dir && Root(id) !in t.mem && Pos(KERNEL, 0, 0) in t.dir
    ensures Extends(t, WithSpace(t, id), id) && id != KERNEL
  {
  }

  lemma MirrorsWithSpace(t: Tree, live: seq<Entry>, cur: Option<nat>, id: nat)
    requires HasRoots(t.mem, live, cur) && Root(id) !in t.mem
    ensures HasRoots(WithSpace(t, id).mem, live, cur)
    ensures Mirrors(t.mem, live, cur) ==> Mirrors(WithSpace(t, id).mem, live, cur)
  {
  }

  // ----- A single page -----

  lemma PageStaysInBlock(a: nat, k: nat)
    requires a % PAGE == 0 && k <= 4
    ensures Block(a + PAGE - 1, k) == Block(a, k)
  {
    BaseShift(a, PAGE - 1, 3);
  }

  /** A page has no holes, and needs one table on each level. */
  lemma PageFacts(a: nat)
    requires a % PAGE == 0
    ensures Region(a, a + PAGE) == Range(a, PAGE) && !Under(a, a + PAGE) && Tables(0, 3, a, a + PAGE - 1) == 3
  {
    hide Block, Hole, Under;
    forall k | 0 <= k <= 4 ensures Block(a + PAGE - 1, k) == Block(a, k) {
      PageStaysInBlock(a, k);
    }
    assert CarryOk(a, PAGE);
    NoHolesIffCarryOk(a, PAGE);
    SameSlots(a + PAGE - 1, a, 0, 3);
  }

  lemma {:induction false} SameSlots(x: nat, y: nat, lv: nat, leaf: nat)
    requires lv <= leaf <= 3 && forall k :: 0 <= k <= 4 ==> Block(x, k) == Block(y, k)
    ensures Slots(x, lv, leaf) == Slots(y, lv, leaf)
    decreases leaf - lv
  {
    hide Block;
    if lv < leaf {
      SameSlots(x, y, lv + 1, leaf);
    }
  }

  lemma LeafOfPage(huge: bool)
    ensures LeafFrom(PAGE, huge, 0) == 3
  {
    assert LeafFrom(PAGE, huge, 2) == 3 && LeafFrom(PAGE, huge, 1) == 3;
  }

  /** A mapped page of 4KiB hangs from a table, so the slot above it that holds two megabytes is a pointer, and
      unmapping these from the root is never reported as done. */
  lemma PageStalls(t: Tree, huge: bool, sp: nat, a: nat, virt: nat, size: nat, mapSize: nat, turns: nat)
    requires WellFormed(t, huge) && Pos(sp, 0, 0) in t.dir && a < VA_LIMIT && See(t, sp, a, 3, 0).Taken?
    requires Block(virt, 3) == Block(a, 3) && size >= Span(3)
    ensures var r := Unmap(mapSize, t.mem, Root(sp), virt, size, 0, turns); r.Ended? ==> r.status != Done
  {
    hide Unmap, See;
    assert Block(a, 0) == 0;
    TakenReaches(t, huge, sp, a, 3, 0);
    PathAbove(t, huge, sp, a, 3);
    forall k | 0 <= k <= 3 ensures Block(virt, k) == Block(a, k) {
      SameBlockAbove(virt, a, 3, k);
    }
    assert t.dir[Pos(sp, 0, 0)] == Root(sp);
    assert Reaches(t, sp, a, 2) && Reaches(t, sp, virt, 2) && Met(t, sp, virt, 2) == Met(t, sp, a, 2);
    hide WellFormed, Block;
    StallsFromRoot(mapSize, t, huge, sp, virt, size, 2, 0, turns);
  }

  lemma PageIsMappable(huge: bool, virt: int)
    requires -HALF <= virt < HALF && virt % PAGE == 0
    ensures Mappable(huge, virt, PAGE) && Low48(virt) % PAGE == 0 && (virt >= 0 ==> Low48(virt) == virt)
  {
    hide Under, LeafFrom, Low48, Region, Tables;
    LeafOfPage(huge);
    LowPage(virt);
    PageFacts(Low48(virt));
    PageBase(Low48(virt));
  }

  lemma LowPage(virt: int)
    requires -HALF <= virt < HALF && virt % PAGE == 0
    ensures Low48(virt) % PAGE == 0 && Low48(virt) == if virt >= 0 then virt else virt + VA_LIMIT
    ensures virt >= 0 ==> virt + PAGE <= HALF
  {
  }

  lemma PageBase(a: nat)
    requires a % PAGE == 0
    ensures Base(a, 3) == a
  {
  }

  /** Three frames are enough for a page. */
  lemma PageHasFrames(t0: Tree, t: Tree, huge: bool, c: Call, fr: Frames, ret: Status, done: nat)
    requires FromRoot(c) && c.virt % PAGE == 0 && c.size == PAGE && c.leaf == 3 && fr.seen && fr.had >= 3
    requires MapPost(t0, t, huge, c, ret, done) && FrameUse(c, fr, ret, done)
    ensures ret != Panicked
  {
    hide MapPost, FrameUse, Under, Slots;
    AlignedStart(c);
    PageFacts(c.virt);
    FramesSuffice(t0, t, huge, c, fr, ret, done);
  }

  // ----- The physical windows -----

  /** `len` bytes from `base` on translate to physical memory from 0 on. */
  ghost predicate Window(t: Tree, base: nat, len: nat) {
    forall va: nat {:trigger Look(t, KERNEL, va, 0)} :: base <= va < base + len && va < VA_LIMIT ==>
      Look(t, KERNEL, va, 0) == Some(va - base)
  }

  /** Nothing is in the way of mapping `len` bytes from `base` on with pages of level `leaf`. */
  ghost predicate Unused(t: Tree, leaf: nat, base: nat, len: nat)
    requires leaf <= 3
  {
    forall va: nat {:trigger See(t, KERNEL, va, leaf, 0)} :: base <= va < base + len && va < VA_LIMIT ==>
      See(t, KERNEL, va, leaf, 0).Open?
  }

  lemma BlankIsUnused(t: Tree, leaf: nat, base: nat, len: nat)
    requires leaf <= 3 && t == Tree(map[Root(0) := NewTable()], map[Pos(0, 0, 0) := Root(0)])
    ensures Unused(t, leaf, base, len)
  {
  }

  /** From a whole gigabyte on there are no holes. */
  lemma GigabyteHasNoHoles(a: nat, size: nat)
    requires a % Span(2) == 0
    ensures Region(a, a + size) == Range(a, size) && !Under(a, a + size)
  {
    AlignedUp(a, 2, 3);
    AlignedUp(a, 2, 4);
    assert CarryOk(a, size);
    hide Block, Span, Hole, CarryOk;
    NoHolesIffCarryOk(a, size);
  }

  /** A window of whole gigabytes inside one 512GiB block. */
  predicate IsWindow(virt: int, base: nat, size: nat) {
    && base == Low48(virt) && -HALF <= virt < 0 && base % Span(2) == 0 && size % Span(2) == 0
    && 0 < size <= PHYS_LIMIT && base + size <= VA_LIMIT && HALF <= base && !Crosses(base, size, 1)
  }

  /** The three windows of vmem_init are such windows, and apart. */
  lemma ThreeWindows()
    ensures IsWindow(KERN_TOP_BASE - WORD, KERN_TOP_BASE % VA_LIMIT, 2 * GIB)
    ensures IsWindow(KERN_PHYSMAP_BASE - WORD, KERN_PHYSMAP_BASE % VA_LIMIT, PHYS_MAP_SIZE)
    ensures IsWindow(KERN_PHYSMAP_BASE_UC - WORD, KERN_PHYSMAP_BASE_UC % VA_LIMIT, PHYS_MAP_SIZE)
    ensures KERN_PHYSMAP_BASE % VA_LIMIT + PHYS_MAP_SIZE <= KERN_PHYSMAP_BASE_UC % VA_LIMIT
    ensures KERN_PHYSMAP_BASE_UC % VA_LIMIT + PHYS_MAP_SIZE <= KERN_TOP_BASE % VA_LIMIT
  {
  }

  lemma WindowFits(virt: int, base: nat, size: nat)
    requires IsWindow(virt, base, size)
    ensures base % Span(2) == 0 && base + size <= VA_LIMIT
  {
  }

  /** Mapping it, from physical address 0 on. */
  function WindowJob(base: nat, leaf: nat, perms: Perms): Job { Job(KERNEL, 0 - base, leaf, FlagsOf(perms)) }

  /** The tables such a window needs: one, and without 1GiB pages one more for each gigabyte. */
  function WindowTables(huge: bool, size: nat): nat { if huge then 1 else 1 + size / GIB }

  lemma WindowLeaf(size: nat, huge: bool)
    requires 0 < size && size % Span(2) == 0
    ensures LeafFrom(size, huge, 0) == (if huge then 1 else 2) && size % PAGE == 0
  {
    AlignedUp(size, 2, 3);
    AlignedUp(size, 2, 4);
    assert LeafFrom(size, huge, 1) == if huge then 1 else 2;
  }

  lemma WindowStart(base: nat, leaf: nat)
    requires base % Span(2) == 0 && 1 <= leaf <= 2
    ensures Base(base, leaf) == base
  {
    AlignedUp(base, 2, leaf + 1);
  }

  lemma TablesOfWindow(base: nat, size: nat, huge: bool)
    requires base % Span(2) == 0 && size % Span(2) == 0 && 0 < size && !Crosses(base, size, 1)
    ensures Tables(0, if huge then 1 else 2, base, base + size - 1) == WindowTables(huge, size)
  {
    var last := base + size - 1;
    assert Slots(last, 0, 1) == Block(last, 1) && Slots(base, 0, 1) == Block(base, 1);
    assert Slots(last, 1, 2) == Block(last, 2) && Slots(base, 1, 2) == Block(base, 2);
    assert Slots(last, 0, 2) == Block(last, 1) + Slots(last, 1, 2)
      && Slots(base, 0, 2) == Block(base, 1) + Slots(base, 1, 2);
    assert Block(last, 2) - Block(base, 2) == size / GIB - 1;
  }

  /** The first page of a window, with pages of level `leaf`. */
  ghost predicate FirstPage(t: Tree, leaf: nat, base: nat)
    requires leaf <= 3
  {
    TakenByPage(See(t, KERNEL, base, leaf, 0), leaf)
  }

  /** The window is made of pages of level `leaf` with these bits. */
  ghost predicate MadeOf(t: Tree, leaf: nat, base: nat, len: nat, flags: Flags)
    requires leaf <= 3
  {
    forall va: nat {:trigger See(t, KERNEL, va, leaf, 0)} :: base <= va < base + len && va < VA_LIMIT ==>
      TakenByPage(See(t, KERNEL, va, leaf, 0), leaf) && See(t, KERNEL, va, leaf, 0).e.flags == flags
  }

  /** Mapping a window opens it, and leaves other windows and unused ranges as they are. */
  lemma WindowMapped(t: Tree, t': Tree, leaf: nat, base: nat, size: nat, perms: Perms, other: nat, len: nat,
                     flags: Flags)
    requires 1 <= leaf <= 2 && Overlay(t, t', WindowJob(base, leaf, perms), Range(base, size), Range(base, size))
    requires base % Span(2) == 0 && base + size <= VA_LIMIT && Unused(t, leaf, base, size)
    requires other + len <= base || base + size <= other
    ensures Window(t', base, size) && MadeOf(t', leaf, base, size, FlagsOf(perms))
    ensures Window(t, other, len) ==> Window(t', other, len)
    ensures MadeOf(t, leaf, other, len, flags) ==> MadeOf(t', leaf, other, len, flags)
    ensures Unused(t, leaf, other, len) ==> Unused(t', leaf, other, len)
  {
    hide Look, See, Target, Overlay;
    forall va: nat | base <= va < base + size
      ensures Look(t', KERNEL, va, 0) == Some(va - base)
      ensures TakenByPage(See(t', KERNEL, va, leaf, 0), leaf) && See(t', KERNEL, va, leaf, 0).e.flags == FlagsOf(perms)
    {
      WindowOpens(t, t', leaf, base, size, perms, va);
    }
    forall va: nat | va !in Range(base, size) && va < VA_LIMIT
      ensures Look(t', KERNEL, va, 0) == Look(t, KERNEL, va, 0)
      ensures See(t', KERNEL, va, leaf, 0) == See(t, KERNEL, va, leaf, 0)
    {
      WindowMisses(t, t', leaf, base, size, perms, va);
    }
  }

  lemma WindowOpens(t: Tree, t': Tree, leaf: nat, base: nat, size: nat, perms: Perms, va: nat)
    requires 1 <= leaf <= 2 && Overlay(t, t', WindowJob(base, leaf, perms), Range(base, size), Range(base, size))
    requires base % Span(2) == 0 && base + size <= VA_LIMIT && base <= va < base + size
    ensures Look(t', KERNEL, va, 0) == Some(va - base)
    ensures TakenByPage(See(t', KERNEL, va, leaf, 0), leaf) && See(t', KERNEL, va, leaf, 0).e.flags == FlagsOf(perms)
  {
    hide Look, See, Target, Span, Base, Struck;
    var j := WindowJob(base, leaf, perms);
    assert Effect(t, t', j, Range(base, size), Range(base, size), KERNEL, va);
    WindowTarget(leaf, base, size, perms, va);
  }

  lemma WindowTarget(leaf: nat, base: nat, size: nat, perms: Perms, va: nat)
    requires 1 <= leaf <= 2 && base % Span(2) == 0 && base + size <= VA_LIMIT && base <= va < base + size
    ensures Target(WindowJob(base, leaf, perms), va) == va - base
  {
    hide Target, Base, Span;
    var c := Call(KERNEL, Root(KERNEL), base, 0, size, perms, 0, leaf);
    WindowStart(base, leaf);
    TargetIs(c, va);
  }

  lemma WindowMisses(t: Tree, t': Tree, leaf: nat, base: nat, size: nat, perms: Perms, va: nat)
    requires 1 <= leaf <= 2 && Overlay(t, t', WindowJob(base, leaf, perms), Range(base, size), Range(base, size))
    requires base + size <= VA_LIMIT && Unused(t, leaf, base, size) && va !in Range(base, size)
    ensures Look(t', KERNEL, va, 0) == Look(t, KERNEL, va, 0)
    ensures See(t', KERNEL, va, leaf, 0) == See(t, KERNEL, va, leaf, 0)
  {
    hide Look, See, Target, Struck;
    var j := WindowJob(base, leaf, perms);
    assert Effect(t, t', j, Range(base, size), Range(base, size), KERNEL, va);
    NothingStruck(t, j, Range(base, size), va);
  }

  /** The first page of a window is at physical 0, and in the way of smaller pages. */
  lemma FirstPageIsZero(t: Tree, huge: bool, leaf: nat, base: nat)
    requires WellFormed(t, huge) && 1 <= leaf <= 2 && base < VA_LIMIT && base % Span(2) == 0
    requires Pos(KERNEL, 0, 0) in t.dir
    requires FirstPage(t, leaf, base) && Look(t, KERNEL, base, 0) == Some(0)
    ensures ZeroPage(See(t, KERNEL, base, 3, 0)) && See(t, KERNEL, base, 3, 0).at == leaf
  {
    assert Block(base, 0) == 0;
    hide WellFormed, Block, EntryAt;
    TakenReaches(t, huge, KERNEL, base, leaf, 0);
    TakenIsMet(t, KERNEL, base, leaf, 0);
    LookFrom(t, huge, KERNEL, base, leaf, leaf);
    LookFrom(t, huge, KERNEL, base, 3, leaf);
    LookAtPage(t, KERNEL, base, leaf);
  }

  /** A page of 4KiB mapped at the start of a window: the call finds room, and the rest of the window's first
      page is no longer translated. */
  lemma PageTakesWindow(t0: Tree, t: Tree, huge: bool, c: Call, len: nat, leaf: nat, ret: Status, done: nat)
    requires WellFormed(t0, huge) && Pos(KERNEL, 0, 0) in t0.dir && FromRoot(c) && 1 <= leaf <= 2
    requires c.sp == KERNEL && c.virt % Span(2) == 0 && c.size == PAGE && c.leaf == 3
    requires len >= Span(2) && c.virt + len <= VA_LIMIT
    requires Window(t0, c.virt, len) && FirstPage(t0, leaf, c.virt)
    requires MapPost(t0, t, huge, c, ret, done) && ret != Panicked
    ensures ret == Done && c.Start() == c.virt
    ensures forall va: nat {:trigger Look(t, KERNEL, va, 0)} ::
      c.virt + PAGE <= va < c.virt + Span(leaf + 1) ==>
        Look(t, KERNEL, va, 0) == None && Look(t0, KERNEL, va, 0) == Some(va - c.virt)
  {
    hide WellFormed, Look, See, MapPost, Under, Hole, Block, Region, FirstPage, Window, Base;
    AlignedUp(c.virt, 2, 4);
    AlignedStart(c);
    PageFacts(c.virt);
    assert Look(t0, KERNEL, c.virt, 0) == Some(0) by { WindowReads(t0, c.virt, len, c.virt); }
    PageFindsRoom(t0, huge, leaf, c.virt);
    MapSucceedsIff(t0, t, huge, c, ret, done);
    PostFacts(t0, t, huge, c, ret, done);
    forall va: nat | c.virt + PAGE <= va < c.virt + Span(leaf + 1)
      ensures Look(t, KERNEL, va, 0) == None && Look(t0, KERNEL, va, 0) == Some(va - c.virt)
    {
      WindowReads(t0, c.virt, len, va);
      FirstPageLost(t0, t, huge, c, leaf, ret, done, va);
    }
  }

  lemma WindowReads(t: Tree, base: nat, len: nat, va: nat)
    requires Window(t, base, len) && base <= va < base + len <= VA_LIMIT
    ensures Look(t, KERNEL, va, 0) == Some(va - base)
  {
    hide Look;
  }

  /** Every address of the window's first page sees it. */
  lemma FirstPageSeen(t: Tree, huge: bool, leaf: nat, base: nat, va: nat)
    requires WellFormed(t, huge) && 1 <= leaf <= 2 && base < VA_LIMIT && base % Span(2) == 0
    requires Pos(KERNEL, 0, 0) in t.dir
    requires FirstPage(t, leaf, base) && Look(t, KERNEL, base, 0) == Some(0) && base <= va < base + Span(leaf + 1)
    ensures ZeroPage(See(t, KERNEL, va, 3, 0)) && See(t, KERNEL, va, 3, 0).at == leaf
    ensures Block(va, leaf + 1) == Block(base, leaf + 1)
  {
    hide WellFormed, Look, See, Block, FirstPage;
    AlignedUp(base, 2, leaf + 1);
    FirstPageIsZero(t, huge, leaf, base);
    InFirstPage(base, leaf, va);
    PageSeenByAll(t, KERNEL, base, va, 3, 0);
  }

  lemma PageFindsRoom(t: Tree, huge: bool, leaf: nat, base: nat)
    requires WellFormed(t, huge) && 1 <= leaf <= 2 && base < VA_LIMIT && base % Span(2) == 0
    requires Pos(KERNEL, 0, 0) in t.dir
    requires FirstPage(t, leaf, base) && Look(t, KERNEL, base, 0) == Some(0)
    ensures AllPassable(t, KERNEL, Range(base, PAGE), 3)
  {
    hide WellFormed, Look, See, Block, FirstPage;
    forall va: nat | va in Range(base, PAGE) ensures Passable(See(t, KERNEL, va, 3, 0)) {
      FirstPageSeen(t, huge, leaf, base, va);
    }
  }

  lemma FirstPageLost(t0: Tree, t: Tree, huge: bool, c: Call, leaf: nat, ret: Status, done: nat, va: nat)
    requires WellFormed(t0, huge) && Pos(KERNEL, 0, 0) in t0.dir && 1 <= leaf <= 2 && c.Levels() && c.leaf == 3
    requires c.sp == KERNEL && c.virt < VA_LIMIT && c.virt % Span(2) == 0 && c.Start() == c.virt && done == PAGE
    requires FirstPage(t0, leaf, c.virt) && Look(t0, KERNEL, c.virt, 0) == Some(0)
    requires MapPost(t0, t, huge, c, ret, done) && ret != Panicked
    requires Region(c.virt, c.virt + PAGE) == Range(c.virt, PAGE) && c.virt + PAGE <= va < c.virt + Span(leaf + 1)
    ensures Look(t, KERNEL, va, 0) == None
  {
    hide WellFormed, Look, See, Block, FirstPage, MapPost, Region, Base;
    FirstPageSeen(t0, huge, leaf, c.virt, va);
    FirstPageSeen(t0, huge, leaf, c.virt, c.virt);
    assert c.virt in Range(c.virt, PAGE) && va !in Range(c.virt, PAGE);
    ZeroPageIsLost(t0, t, huge, c, ret, done, c.virt, va);
  }

  lemma InFirstPage(base: nat, leaf: nat, va: nat)
    requires leaf <= 3 && base % Span(leaf + 1) == 0 && base <= va < base + Span(leaf + 1)
    ensures Block(va, leaf + 1) == Block(base, leaf + 1)
  {
    BlockBounds(base, leaf + 1);
    BlockUnique(va, leaf + 1, Block(base, leaf + 1));
  }

  /** Over an unused range a window is opened completely, unless there is no frame for one of its tables. */
  lemma WindowGoesThrough(t0: Tree, t: Tree, huge: bool, virt: int, base: nat, size: nat, perms: Perms, fr: Frames,
                          ret: Status, done: nat)
    requires IsWindow(virt, base, size) && Unused(t0, if huge then 1 else 2, base, size)
    requires var c := RootCall(huge, KERNEL, virt, 0, size, perms);
      c.Levels() && MapPost(t0, t, huge, c, ret, done) && FrameUse(c, fr, ret, done)
    ensures ret == Panicked && fr.seen ==> fr.left == 0 && fr.had < WindowTables(huge, size)
    ensures ret != Panicked ==>
      && ret == Done && fr.had - fr.left <= WindowTables(huge, size)
      && Overlay(t0, t, WindowJob(base, if huge then 1 else 2, perms), Range(base, size), Range(base, size))
  {
    hide WellFormed, MapPost, FrameUse, Block, Under, Region, Slots, Tables, LeafFrom, Span, Base, Unused;
    WindowLeaf(size, huge);
    WindowStart(base, if huge then 1 else 2);
    WindowPost(t0, t, huge, RootCall(huge, KERNEL, virt, 0, size, perms), ret, done);
    WindowUse(huge, RootCall(huge, KERNEL, virt, 0, size, perms), fr, ret, done);
  }

  /** A call for a window. */
  ghost predicate IsWindowCall(c: Call, huge: bool) {
    && FromRoot(c) && c.sp == KERNEL && c.phys == 0 && c.leaf == (if huge then 1 else 2) && c.Start() == c.virt
    && c.virt % Span(2) == 0 && c.size % Span(2) == 0 && c.Goal() <= VA_LIMIT && !Crosses(c.virt, c.size, 1)
  }

  lemma WindowPost(t0: Tree, t: Tree, huge: bool, c: Call, ret: Status, done: nat)
    requires IsWindowCall(c, huge) && Unused(t0, c.leaf, c.virt, c.size) && MapPost(t0, t, huge, c, ret, done)
    ensures ret != Panicked ==> ret == Done && Overlay(t0, t, c.Work(), Range(c.virt, c.size), Range(c.virt, c.size))
    ensures ret == Panicked ==> c.virt + done < c.Goal()
    ensures ret == Done ==> done == c.size
  {
    hide Look, See, WellFormed, Overlay, Block, Under, Region, Span, Base;
    GigabyteHasNoHoles(c.virt, c.size);
    if ret != Panicked {
      UnusedIsPassable(t0, c.leaf, c.virt, c.size);
      MapSucceedsIff(t0, t, huge, c, ret, done);
    }
  }

  lemma WindowUse(huge: bool, c: Call, fr: Frames, ret: Status, done: nat)
    requires IsWindowCall(c, huge) && FrameUse(c, fr, ret, done) && (ret == Panicked || ret == Done)
    requires if ret == Panicked then c.virt + done < c.Goal() else done == c.size
    ensures ret == Panicked && fr.seen ==> fr.left == 0 && fr.had < WindowTables(huge, c.size)
    ensures ret == Done ==> fr.had - fr.left <= WindowTables(huge, c.size)
  {
    hide Block, Slots, Span, Base, Tables;
    TablesOfWindow(c.virt, c.size, huge);
    if ret == Panicked {
      MoreTables(c.leaf, c.virt, c.virt + done, c.virt + c.size - 1);
    }
  }

  lemma MoreTables(leaf: nat, a: nat, x: nat, y: nat)
    requires leaf <= 3 && x <= y
    ensures Tables(0, leaf, a, x) <= Tables(0, leaf, a, y)
  {
    SlotsMonotone(x, y, 0, leaf);
  }

  lemma UnusedIsPassable(t: Tree, leaf: nat, base: nat, size: nat)
    requires leaf <= 3 && Unused(t, leaf, base, size) && base + size <= VA_LIMIT
    ensures AllPassable(t, KERNEL, Range(base, size), leaf)
  {
    hide See;
  }

  /** The three windows of vmem_init: 2GiB at the top of the address space and 256GiB twice, cached and
      uncached, all onto physical memory from 0 on. */
  ghost predicate Windows(t: Tree) {
    && Window(t, KERN_TOP_BASE % VA_LIMIT, 2 * GIB)
    && Window(t, KERN_PHYSMAP_BASE % VA_LIMIT, PHYS_MAP_SIZE)
    && Window(t, KERN_PHYSMAP_BASE_UC % VA_LIMIT, PHYS_MAP_SIZE)
  }

  /** What vmem_init asks for: all three may be written, and only the first executed. */
  const TOP_PERMS := Perms(true, true, false, false, false, false)
  const PHYSMAP_PERMS := Perms(true, false, false, false, false, false)
  const PHYSMAP_UC_PERMS := Perms(true, false, false, false, true, false)

  ghost predicate WindowsMadeOf(t: Tree, huge: bool) {
    var leaf := if huge then 1 else 2;
    && MadeOf(t, leaf, KERN_TOP_BASE % VA_LIMIT, 2 * GIB, FlagsOf(TOP_PERMS))
    && MadeOf(t, leaf, KERN_PHYSMAP_BASE % VA_LIMIT, PHYS_MAP_SIZE, FlagsOf(PHYSMAP_PERMS))
    && MadeOf(t, leaf, KERN_PHYSMAP_BASE_UC % VA_LIMIT, PHYS_MAP_SIZE, FlagsOf(PHYSMAP_UC_PERMS))
  }

  datatype CacheFlags = CacheFlags(writeback: bool, uncached: bool)

  /** vmem_phystovirt, with phys_map_sz; None is the panic. */
  function PhysToVirt(phys: int, sz: nat, mapSize: nat, flags: CacheFlags): Option<int>
    requires -WORD / 2 <= phys < WORD / 2
  {
    var end := (phys + sz) % WORD;
    if flags.writeback then
      if phys < 2 * GIB && end < 2 * GIB then Some(Signed(phys + KERN_TOP_BASE))
      else if phys < mapSize && end < mapSize then Some(Signed(phys + KERN_PHYSMAP_BASE))
      else None
    else if flags.uncached then
      if phys < mapSize && end < mapSize then Some(Signed(phys + KERN_PHYSMAP_BASE_UC)) else None
    else None
  }

  /** The windows are a round trip: for a physical range below 256GiB, with either kind of caching, the
      virtual address is found, and every byte of it translates back. */
  lemma WindowRoundTrip(t: Tree, p: nat, sz: nat, flags: CacheFlags, k: nat)
    requires Windows(t) && p + sz < 0x40_0000_0000 && k < sz && (flags.writeback || flags.uncached)
    ensures PhysToVirt(p, sz, PHYS_MAP_SIZE, flags).Some?
    ensures var v := PhysToVirt(p, sz, PHYS_MAP_SIZE, flags).value + k;
      -HALF <= v < 0 && Look(t, KERNEL, Low48(v), 0) == Some(p + k)
  {
    hide Look, Low48, Signed;
    if flags.writeback && p + sz < 2 * GIB {
      WindowAddress(p, k, KERN_TOP_BASE, 2 * GIB);
    } else if flags.writeback {
      WindowAddress(p, k, KERN_PHYSMAP_BASE, PHYS_MAP_SIZE);
    } else {
      WindowAddress(p, k, KERN_PHYSMAP_BASE_UC, PHYS_MAP_SIZE);
    }
  }

  /** An address is found exactly for ranges that end below 256GiB, with a kind of caching given. Which window it is in,
      as 64 bits: for uncached flags the 256GiB at 0xffff808000000000; for writeback
      the 2GiB at 0xffffffff80000000 if the range ends below 2GiB, and else the 256GiB at 0xffff800000000000. */
  lemma WindowOfFlags(p: nat, sz: nat, flags: CacheFlags)
    requires p < WORD / 2 && p + sz < WORD
    ensures PhysToVirt(p, sz, PHYS_MAP_SIZE, flags) == None <==>
      p + sz >= 0x40_0000_0000 || (!flags.writeback && !flags.uncached)
    ensures p + sz < 0x40_0000_0000 && (flags.writeback || flags.uncached) ==>
      PhysToVirt(p, sz, PHYS_MAP_SIZE, flags)
         == Some(p - 0x1_0000_0000_0000_0000
                 + if !flags.writeback then 0xffff_8080_0000_0000
                   else if p + sz < 0x8000_0000 then 0xffff_ffff_8000_0000 else 0xffff_8000_0000_0000)
  {
    hide Low48;
    if flags.writeback && p + sz < 2 * GIB {
      SignedUpper(p + KERN_TOP_BASE);
    } else if p + sz < PHYS_MAP_SIZE {
      SignedUpper(p + if flags.writeback then KERN_PHYSMAP_BASE else KERN_PHYSMAP_BASE_UC);
    }
  }

  lemma SignedUpper(w: nat)
    requires WORD / 2 <= w < WORD
    ensures Signed(w) == w - WORD
  {
  }

  /** And what is allowed there: every byte may be written by the kernel and by nobody else; it may be executed only
      in the first window; it is cached for writeback, and not for uncached flags. */
  lemma WindowAccess(t: Tree, huge: bool, p: nat, sz: nat, flags: CacheFlags, k: nat)
    requires WellFormed(t, huge) && WindowsMadeOf(t, huge)
    requires p + sz < 0x40_0000_0000 && k < sz && (flags.writeback || flags.uncached)
    ensures PhysToVirt(p, sz, PHYS_MAP_SIZE, flags).Some?
    ensures Access(t, KERNEL, Low48(PhysToVirt(p, sz, PHYS_MAP_SIZE, flags).value + k), 0)
         == Some(Rights(true, flags.writeback && p + sz < 0x8000_0000, false,
                        if flags.writeback then WriteBack else Uncached))
  {
    hide See, Access, Low48, Signed, WellFormed;
    var leaf := if huge then 1 else 2;
    var va := Low48(PhysToVirt(p, sz, PHYS_MAP_SIZE, flags).value + k);
    if flags.writeback && p + sz < 2 * GIB {
      WindowAddress(p, k, KERN_TOP_BASE, 2 * GIB);
    } else if flags.writeback {
      WindowAddress(p, k, KERN_PHYSMAP_BASE, PHYS_MAP_SIZE);
    } else {
      WindowAddress(p, k, KERN_PHYSMAP_BASE_UC, PHYS_MAP_SIZE);
    }
    assert TakenByPage(See(t, KERNEL, va, leaf, 0), leaf);
    PageDecides(t, huge, KERNEL, va, leaf, 0);
  }

  /** vmem_virttophys_st, which reads each table through vmem_phystovirt: None where that panics on the next
      table. */
  function WalkThroughWindow(mapSize: nat, mem: map<Ref, seq<Entry>>, huge: bool, r: Ref, va: nat,
                             lv: nat): Option<Option<nat>>
    requires lv <= 3
    decreases 3 - lv
  {
    if r !in mem || |mem[r]| != 512 then Some(None)
    else
      var e := mem[r][Index(va, lv)];
      if !e.present then Some(None)
      else if (e.large && LargeAvail(lv, huge)) || lv == 3 then Some(Some(e.frame * PAGE + va % Span(lv + 1)))
      else if e.frame >= FRAME_LIMIT then None
      else if PhysToVirt(e.frame * PAGE, PAGE, mapSize, CacheFlags(true, false)) == None then None
      else WalkThroughWindow(mapSize, mem, huge, Frame(e.frame), va, lv + 1)
  }

  /** vmem_virttophys: the same from the live table on; no page is as large as a slot of it. */
  function WalkLive(mapSize: nat, mem: map<Ref, seq<Entry>>, huge: bool, live: seq<Entry>, va: nat): Option<Option<nat>>
    requires |live| == 512
  {
    var e := live[Index(va, 0)];
    if !e.present then Some(None)
    else if e.frame >= FRAME_LIMIT then None
    else if PhysToVirt(e.frame * PAGE, PAGE, mapSize, CacheFlags(true, false)) == None then None
    else WalkThroughWindow(mapSize, mem, huge, Frame(e.frame), va, 1)
  }

  /** Every table that the walk of an address reads from level `lv` on is shown. */
  ghost predicate PathShown(t: Tree, sp: nat, va: nat, lv: nat, mapSize: nat) {
    forall j :: lv <= j < 3 && Pointer(Met(t, sp, va, j)) ==> Shown(Met(t, sp, va, j).frame, mapSize)
  }

  lemma ShownByWindow(n: nat, mapSize: nat)
    ensures n < FRAME_LIMIT ==>
      (PhysToVirt(n * PAGE, PAGE, mapSize, CacheFlags(true, false)).Some? <==> Shown(n, mapSize))
  {
  }

  lemma {:induction false} PathShownStep(t: Tree, huge: bool, sp: nat, va: nat, lv: nat, mapSize: nat)
    requires WellFormed(t, huge) && lv <= 3 && Reaches(t, sp, va, lv)
    ensures var e := Met(t, sp, va, lv);
      PathShown(t, sp, va, lv, mapSize) <==>
        (lv < 3 && Pointer(e) ==> Shown(e.frame, mapSize) && PathShown(t, sp, va, lv + 1, mapSize))
  {
    if lv < 3 && !Pointer(Met(t, sp, va, lv)) {
      assert EntryOk(t, huge, sp, lv, Block(va, lv + 1));
      hide Block, EntryAt, WellFormed;
      NothingBelow(t, huge, sp, va, lv + 1);
    }
  }

  /** The code's walk panics if and only if it comes to a table out of sight, and otherwise reads the flat map. */
  lemma {:induction false} WalkThroughWindowIsLook(mapSize: nat, t: Tree, huge: bool, sp: nat, va: nat, lv: nat)
    requires WellFormed(t, huge) && lv <= 3 && Reaches(t, sp, va, lv)
    ensures WalkThroughWindow(mapSize, t.mem, huge, t.dir[Pos(sp, lv, Block(va, lv))], va, lv)
         == if PathShown(t, sp, va, lv, mapSize) then Some(Look(t, sp, va, lv)) else None
    decreases 3 - lv
  {
    hide PhysToVirt, PathShown, Shown;
    BlockNest(va, lv);
    PathShownStep(t, huge, sp, va, lv, mapSize);
    assert EntryOk(t, huge, sp, lv, Block(va, lv + 1));
    var e := EntryAt(t, sp, lv, Block(va, lv + 1));
    if e.present && !e.large && lv < 3 {
      ShownByWindow(e.frame, mapSize);
      WalkThroughWindowIsLook(mapSize, t, huge, sp, va, lv + 1);
    }
  }

  /** From a table of frame `x` on, a walk reads no root. */
  lemma {:induction false} WalkIgnoresRoots(mapSize: nat, mem: map<Ref, seq<Entry>>, mem': map<Ref, seq<Entry>>,
                                            huge: bool, x: nat, va: nat, lv: nat)
    requires lv <= 3 && forall n :: Frame(n) in mem <==> Frame(n) in mem'
    requires forall n :: Frame(n) in mem ==> mem'[Frame(n)] == mem[Frame(n)]
    ensures WalkThroughWindow(mapSize, mem', huge, Frame(x), va, lv)
      == WalkThroughWindow(mapSize, mem, huge, Frame(x), va, lv)
    decreases 3 - lv
  {
    hide PhysToVirt;
    if lv < 3 && Frame(x) in mem && |mem[Frame(x)]| == 512 {
      WalkIgnoresRoots(mapSize, mem, mem', huge, mem[Frame(x)][Index(va, lv)].frame, va, lv + 1);
    }
  }

  /** From the live table on the core reads what the spaces will be after the next save. */
  lemma LiveReadsSaved(mapSize: nat, t: Tree, huge: bool, live: seq<Entry>, cur: Option<nat>, sp: nat, va: nat)
    requires WellFormed(t, huge) && LiveOk(t, live, cur) && va < VA_LIMIT && Pos(sp, 0, 0) in t.dir
    requires (cur.Some? ==> Pos(cur.value, 0, 0) in t.dir) && if va < HALF then cur == Some(sp) else sp == KERNEL
    ensures WalkLive(mapSize, t.mem, huge, live, va)
         == if PathShown(Saved(t, live, cur), sp, va, 0, mapSize) then Some(Look(Saved(t, live, cur), sp, va, 0))
           else None
  {
    var u := Saved(t, live, cur);
    RootSlot(va);
    SavedIsTree(t, huge, live, cur);
    SavedRoots(t, live, cur);
    assert u.dir[Pos(sp, 0, 0)] == Root(sp);
    assert u.mem[Root(sp)][Index(va, 0)] == live[Index(va, 0)];
    hide WellFormed, LiveOk, Saved, SavedMem, PathShown, PhysToVirt, Mirrors, Index;
    LiveIsRoot(mapSize, u, huge, live, sp, va);
    WalkIgnoresRoots(mapSize, t.mem, u.mem, huge, live[Index(va, 0)].frame, va, 1);
  }

  /** The same where the live table has the slot of the space's own root. */
  lemma LiveIsRoot(mapSize: nat, t: Tree, huge: bool, live: seq<Entry>, sp: nat, va: nat)
    requires WellFormed(t, huge) && |live| == 512 && va < VA_LIMIT && Pos(sp, 0, 0) in t.dir
    requires live[Index(va, 0)] == t.mem[Root(sp)][Index(va, 0)]
    ensures WalkLive(mapSize, t.mem, huge, live, va)
         == if PathShown(t, sp, va, 0, mapSize) then Some(Look(t, sp, va, 0)) else None
  {
    hide PhysToVirt, PathShown, Shown;
    RootEntry(t, huge, sp, va);
    assert Block(va, 0) == 0 && t.dir[Pos(sp, 0, 0)] == Root(sp) && Reaches(t, sp, va, 0);
    NoLargeRoot(t, huge, sp, va);
    WalkThroughWindowIsLook(mapSize, t, huge, sp, va, 0);
  }

  lemma LiveIsEmpty(mapSize: nat, mem: map<Ref, seq<Entry>>, huge: bool, live: seq<Entry>, va: nat)
    requires |live| == 512 && live[Index(va, 0)] == EMPTY
    ensures WalkLive(mapSize, mem, huge, live, va) == Some(None)
  {
  }

  lemma LowHalf(virt: int)
    requires -HALF <= virt < HALF
    ensures 0 <= Low48(virt) < VA_LIMIT && (Low48(virt) < HALF <==> virt >= 0)
  {
  }

  lemma NoLargeRoot(t: Tree, huge: bool, sp: nat, va: nat)
    requires WellFormed(t, huge)
    ensures !Met(t, sp, va, 0).large
  {
    assert EntryOk(t, huge, sp, 0, Block(va, 1));
  }

  /** With all tables in sight no walk panics. */
  lemma ShownTablesShowPaths(t: Tree, huge: bool, sp: nat, va: nat, lv: nat, mapSize: nat)
    requires WellFormed(t, huge) && forall n :: Frame(n) in t.mem ==> Shown(n, mapSize)
    ensures PathShown(t, sp, va, lv, mapSize)
  {
    forall j | lv <= j < 3 && Pointer(Met(t, sp, va, j)) ensures Shown(Met(t, sp, va, j).frame, mapSize) {
      assert EntryOk(t, huge, sp, j, Block(va, j + 1));
      assert Frame(Met(t, sp, va, j).frame) in t.mem;
    }
  }

  /** An address in a window at `start`, and the 48 bits of it. */
  lemma WindowAddress(p: nat, k: nat, start: nat, len: nat)
    requires KERN_PHYSMAP_BASE <= start && p + k < len && start + len <= WORD
    ensures Signed(p + start) == p + start - WORD && -HALF <= Signed(p + start) + k < 0
    ensures Low48(Signed(p + start) + k) == start % VA_LIMIT + p + k
    ensures start % VA_LIMIT + p + k < start % VA_LIMIT + len <= VA_LIMIT
  {
    var r := start - 0xffff * VA_LIMIT;
    assert start % VA_LIMIT == r;
    assert (p + start) % WORD == p + start;
    assert p + start - WORD + k == -1 * VA_LIMIT + (r + p + k);
  }

  /** What is known of a window's start once the three are open. */
  lemma WindowStarts(t: Tree, huge: bool, start: int)
    requires start == KERN_TOP_BASE || start == KERN_PHYSMAP_BASE || start == KERN_PHYSMAP_BASE_UC
    requires Windows(t) && WindowsMadeOf(t, huge)
    ensures -HALF <= start - WORD < 0 && Low48(start - WORD) == start % VA_LIMIT && start % PAGE == 0
    ensures start % VA_LIMIT % Span(2) == 0 && start % VA_LIMIT + 2 * GIB <= VA_LIMIT
    ensures Window(t, start % VA_LIMIT, 2 * GIB) && FirstPage(t, if huge then 1 else 2, start % VA_LIMIT)
  {
    hide See, Look;
    ThreeWindows();
    assert TakenByPage(See(t, KERNEL, start % VA_LIMIT, if huge then 1 else 2, 0), if huge then 1 else 2);
  }

  /** The two trees translate the lower half of the space alike. */
  ghost predicate SameLower(t: Tree, u: Tree, a: nat) {
    forall va: nat {:trigger Look(u, a, va, 0)} :: va < HALF ==> Look(u, a, va, 0) == Look(t, a, va, 0)
  }

  lemma LowerSettles(t: Tree, t0: Tree, t1: Tree, huge: bool, c: Call, ret: Status, done: nat, live0: seq<Entry>,
                     live: seq<Entry>, cur: Option<nat>, s: nat)
    requires WellFormed(t0, huge) && LiveOk(t0, live0, cur) && (cur.Some? ==> Pos(cur.value, 0, 0) in t0.dir)
    requires LiveOk(t1, live, cur) && (cur.Some? ==> Pos(cur.value, 0, 0) in t1.dir)
    requires |live0| == 512 && |live| == 512 && live[..256] == live0[..256]
    requires c.Levels() && MapPost(t0, t1, huge, c, ret, done) && s != c.sp && SameLower(t, Saved(t0, live0, cur), s)
    ensures SameLower(t, Saved(t1, live, cur), s)
  {
    LiveHasRoots(t0, live0, cur);
    LiveHasRoots(t1, live, cur);
    hide WellFormed, LiveOk, Saved, Look, MapPost;
    forall va: nat | va < HALF ensures Look(Saved(t1, live, cur), s, va, 0) == Look(t, s, va, 0) {
      OtherSpaceSettles(t0, t1, huge, c, ret, done, live0, live, cur, s, va);
      assert Look(Saved(t0, live0, cur), s, va, 0) == Look(t, s, va, 0);
    }
  }

  lemma InStepIsSettled(t: Tree, huge: bool, live: seq<Entry>, cur: Option<nat>)
    requires WellFormed(t, huge) && Mirrors(t.mem, live, cur) && (cur.Some? ==> Pos(cur.value, 0, 0) in t.dir)
    ensures HasRoots(t.mem, live, cur) && Saved(t, live, cur) == t
  {
    hide Saved;
    SavingIsIdle(t, huge, live, cur);
  }

  /** A call that leaves space `a` alone, whatever space it is for. */
  datatype Request =
    | MapIn(vm: nat, virt: int, phys: nat, size: nat, perms: Perms)
    | Switch(vm: nat)
    | Save

  class AddressSpaces {
    const mgr: Manager
    /** The table at lcl->ktable. */
    var live: seq<Entry>
    /** lcl->cur_vmem. */
    var cur: Option<nat>

    /** vmem_init before its first mapping: an empty live table and no active space. */
    constructor (frames: seq<nat>, hugepages: bool)
      requires forall i :: 0 <= i < |frames| ==> 0 < frames[i] < FRAME_LIMIT
      requires forall i, j :: 0 <= i < j < |frames| ==> frames[i] != frames[j]
      ensures Valid() && InStep() && fresh(mgr) && cur == None
      ensures mgr.Value() == Tree(map[Root(0) := NewTable()], map[Pos(0, 0, 0) := Root(0)])
      ensures mgr.huge == hugepages && mgr.pool == frames && mgr.mapSize == 0
    {
      mgr := new Manager(frames, hugepages, 0);
      live := NewTable();
      cur := None;
    }

    ghost predicate Valid()
      reads this, mgr
    {
      && WellFormed(mgr.Value(), mgr.huge) && mgr.PoolOk()
      && Pos(KERNEL, 0, 0) in mgr.dir && (cur.Some? ==> Pos(cur.value, 0, 0) in mgr.dir)
      && LiveOk(mgr.Value(), live, cur)
    }

    /** The live table does not lag behind the active space. */
    ghost predicate InStep()
      reads this, mgr
    {
      Mirrors(mgr.mem, live, cur)
    }

    /** The spaces as the next save will leave them. */
    ghost function Settled(): Tree
      reads this, mgr
      requires Shaped()
    {
      Saved(mgr.Value(), live, cur)
    }

    /** What an address translates to in a space. */
    ghost function Translation(sp: nat, va: nat): Option<nat>
      reads mgr
    {
      Look(mgr.Value(), sp, va, 0)
    }

    /** The space that an address belongs to. */
    ghost function SpaceOf(virt: int): Option<nat>
      reads this
    {
      if virt < 0 then Some(KERNEL) else cur
    }

    /** vmem_virttophys reads the live table: the upper half is the kernel's map, the lower half what the next save
        will leave of the active space's, or nothing; it panics (None) exactly if it comes to a table that
        vmem_phystovirt does not show. */
    method VirtToPhys(virt: int) returns (phys: Option<Option<nat>>)
      requires Valid() && -HALF <= virt < HALF
      ensures match SpaceOf(virt) {
        case None => phys == Some(None)
        case Some(sp) =>
          phys == if PathShown(Settled(), sp, Low48(virt), 0, mgr.mapSize)
                  then Some(Look(Settled(), sp, Low48(virt), 0)) else None
      }
      ensures InStep() ==> Settled() == mgr.Value()
      ensures mgr.Visible() ==> phys.Some?
    {
      hide WellFormed, Look, PathShown, Shown, WalkLive, Low48, Saved, LowerOk;
      var va := Low48(virt);
      LowHalf(virt);
      RootSlot(va);
      SavedIsTree(mgr.Value(), mgr.huge, live, cur);
      if InStep() {
        SavingIsIdle(mgr.Value(), mgr.huge, live, cur);
      }
      if SpaceOf(virt).Some? {
        LiveReadsSaved(mgr.mapSize, mgr.Value(), mgr.huge, live, cur, SpaceOf(virt).value, va);
        if mgr.Visible() {
          ShownTablesShowPaths(Settled(), mgr.huge, SpaceOf(virt).value, va, 0, mgr.mapSize);
        }
      } else {
        LowerWithoutSpace(mgr.Value(), live, cur);
        LiveIsEmpty(mgr.mapSize, mgr.mem, mgr.huge, live, va);
      }
      phys := WalkLive(mgr.mapSize, mgr.mem, mgr.huge, live, va);
    }

    /** vmem_map: maps into the kernel's space for an upper-half address, which the live table then copies,
        and into space `vm` otherwise. No address it does not map changes its translation, in any space, if no
        page at physical 0 is in the way of a mapped one. */
    method Map(vm: nat, virt: int, phys: nat, size: nat, perms: Perms) returns (ret: Status, ghost done: nat)
      requires Valid() && Mappable(mgr.huge, virt, size)
      requires Pos(if virt < 0 then KERNEL else vm, 0, 0) in mgr.dir && (virt >= 0 ==> vm != KERNEL)
      modifies this`live, mgr`mem, mgr`pool, mgr`dir
      ensures mgr.PoolOk() && WellFormed(mgr.Value(), mgr.huge) && (old(mgr.Visible()) ==> mgr.Visible())
      ensures var c := RootCall(mgr.huge, if virt < 0 then KERNEL else vm, virt, phys, size, perms);
        && c.Levels() && MapPost(old(mgr.Value()), mgr.Value(), mgr.huge, c, ret, done)
        && FrameUse(c, Frames(old(|mgr.pool|), |mgr.pool|, old(mgr.Visible())), ret, done)
        && (ret != Panicked && NoZeroPage(old(mgr.Value()), c.Work(), Region(c.Start(), c.Start() + done)) ==>
              RestUntouched(old(mgr.Value()), mgr.Value(), c.sp, Region(c.Start(), c.Start() + done)))
      ensures virt >= 0 ==> ret != Continue
      ensures Extends(old(mgr.Value()), mgr.Value(), if virt < 0 then KERNEL else vm)
      ensures (virt >= 0 ==> live == old(live)) && |live| == 512 && live[..256] == old(live[..256])
      ensures Valid() && ((virt < 0 || cur != Some(vm)) && old(InStep()) ==> InStep())
    {
      hide WellFormed, MapPost, MapPre, Mappable, FrameUse, NoZeroPage, RestUntouched, Base, Region, LiveOk, Mirrors;
      ghost var t0, c := mgr.Value(), RootCall(mgr.huge, if virt < 0 then KERNEL else vm, virt, phys, size, perms);
      LeafOfRoot(size, mgr.huge);
      MappableFromRoot(t0, mgr.huge, c.sp, virt, phys, size, perms);
      ret, done := mgr.MapSt(Root(if virt < 0 then KERNEL else vm), Low48(virt), phys, size, perms, 0, c.sp, c.leaf);
      if virt >= 0 {
        NeverRunsOffRoot(t0, mgr.Value(), mgr.huge, vm, virt, phys, size, perms, ret, done);
      }
      MapKeepsRoots(t0, mgr.Value(), mgr.huge, c, ret, done);
      if ret != Panicked {
        MapUntouched(t0, mgr.Value(), mgr.huge, c, ret, done);
      }
      RootTable(mgr.Value(), mgr.huge, KERNEL);
      LiveHasRoots(t0, live, cur);
      ghost var was := live;
      if virt < 0 {
        live := live[..256] + mgr.mem[Root(KERNEL)][256..];
      }
      LiveAfterMap(t0, mgr.Value(), was, cur, c.sp, live);
    }

    /** vmem_create: a new space with no mappings, known by the address of its record, or -1 if there is no
        memory for the record. */
    method Create(id: nat, memory: bool) returns (status: int)
      requires Valid() && Pos(id, 0, 0) !in mgr.dir && Root(id) !in mgr.mem
      modifies mgr`mem, mgr`dir
      ensures Valid() && (old(InStep()) ==> InStep()) && status == if memory then 0 else -1
      ensures mgr.Value() == if memory then WithSpace(old(mgr.Value()), id) else old(mgr.Value())
    {
      hide WellFormed, LiveOk, Mirrors, WithSpace, NewTable;
      if !memory {
        return -1;
      }
      CreateKeeps(mgr.Value(), mgr.huge, live, cur, id);
      NewRoot(mgr.Value(), id);
      mgr.mem := mgr.mem[Root(id) := NewTable()];
      mgr.dir := mgr.dir[Pos(id, 0, 0) := Root(id)];
      return 0;
    }

    /** The tables that saving copies are there. */
    predicate Shaped()
      reads this, mgr
    {
      HasRoots(mgr.mem, live, cur)
    }

    /** vmem_savestate: the active space takes over the lower half of the live table. The tables below the slots that
        this lacks are in no place any more; their frames are lost. */
    method SaveState()
      requires Valid()
      modifies mgr`mem, mgr`dir
      ensures Valid() && InStep() && mgr.Value() == old(Settled()) && (old(mgr.Visible()) ==> mgr.Visible())
    {
      hide WellFormed, LiveOk;
      LiveHasRoots(mgr.Value(), live, cur);
      ghost var t := Settled();
      SavedIsTree(mgr.Value(), mgr.huge, live, cur);
      if cur.Some? {
        mgr.mem := mgr.mem[Root(cur.value) := live[..256] + mgr.mem[Root(cur.value)][256..]];
      }
      mgr.mem := mgr.mem[Root(KERNEL) := mgr.mem[Root(KERNEL)][..256] + live[256..]];
      mgr.dir := t.dir;
      MirrorsIsLive(mgr.Value(), mgr.huge, live, cur);
    }

    /** vmem_setactive: the spaces are saved, and the lower half of the live table becomes the new space's. */
    method SetActive(vm: nat)
      requires Valid() && vm != KERNEL && Pos(vm, 0, 0) in mgr.dir
      modifies this, mgr`mem, mgr`dir
      ensures Valid() && InStep() && cur == Some(vm) && mgr.Value() == old(Settled())
      ensures old(mgr.Visible()) ==> mgr.Visible()
    {
      hide WellFormed, LiveOk, Saved;
      RootsAreSaved(mgr.Value(), live, cur, vm);
      SaveState();
      RootTable(mgr.Value(), mgr.huge, vm);
      live := mgr.mem[Root(vm)][..256] + live[256..];
      cur := Some(vm);
      MirrorsIsLive(mgr.Value(), mgr.huge, live, cur);
    }

    /** vmem_getactive. */
    method GetActive() returns (vm: Option<nat>)
      requires Valid()
      modifies mgr`mem, mgr`dir
      ensures Valid() && InStep() && vm == cur && mgr.Value() == old(Settled())
    {
      SaveState();
      vm := cur;
    }

    /** Mapping, switching to the space and reading an address back: what a call has mapped, in the kernel's half or in
        that of a space that is not active, is what vmem_virttophys then answers. */
    method MapSwitchAndRead(vm: nat, virt: int, phys: nat, size: nat, perms: Perms, at: int)
      returns (ret: Status, ghost done: nat, read: Option<Option<nat>>)
      requires Valid() && vm != KERNEL && Pos(vm, 0, 0) in mgr.dir && Pos(KERNEL, 0, 0) in mgr.dir
      requires Mappable(mgr.huge, virt, size) && (virt < 0 || cur != Some(vm))
      requires -HALF <= at < HALF && (at < 0 <==> virt < 0)
      modifies this, mgr`mem, mgr`pool, mgr`dir
      ensures Valid() && InStep() && cur == Some(vm)
      ensures ret != Panicked && old(mgr.Visible()) ==> read.Some?
      ensures var c := RootCall(mgr.huge, if virt < 0 then KERNEL else vm, virt, phys, size, perms);
        && c.Levels() && (ret == Done ==> done == size)
        && (ret != Panicked && read.Some? && Low48(at) in Region(c.Start(), c.Start() + done) ==>
              && read.value == Some(Target(c.Work(), Low48(at)))
              && (Nameable(c) && Low48(at) < c.Goal() ==> read.value == Some(phys + (Low48(at) - c.Start()))))
    {
      hide WellFormed, LiveOk, Saved, Look, MapPost, FrameUse, RestUntouched, Mirrors, Mappable, Base, Region, Target,
        Nameable, PathShown, Low48, NoZeroPage, See, LeafFrom, Extends, HasRoots, FlagsOf;
      ghost var sp := if virt < 0 then KERNEL else vm;
      ghost var t0, c := mgr.Value(), RootCall(mgr.huge, sp, virt, phys, size, perms);
      ret, done := Map(vm, virt, phys, size, perms);
      ghost var t1 := mgr.Value();
      PostFacts(t0, t1, mgr.huge, c, ret, done);
      PlacesStay(t0, t1, sp, Pos(vm, 0, 0));
      RootsStay(t1, live, cur);
      LowHalf(at);
      SavedTranslations(t1, mgr.huge, live, cur, sp, Low48(at));
      SetActive(vm);
      InStepIsSettled(mgr.Value(), mgr.huge, live, cur);
      read := VirtToPhys(at);
      if ret != Panicked && Low48(at) in Region(c.Start(), c.Start() + done) {
        MappedReads(t0, t1, mgr.huge, c, ret, done, Low48(at));
      }
    }

    /** Switching from `a` to `b` and back leaves every translation of `a` as it was after the first save. */
    method SwitchAndBack(a: nat, b: nat, virt: int) returns (before: Option<Option<nat>>, after: Option<Option<nat>>)
      requires Valid() && a != KERNEL && b != KERNEL && Pos(a, 0, 0) in mgr.dir && Pos(b, 0, 0) in mgr.dir
      requires -HALF <= virt < HALF
      modifies this, mgr`mem, mgr`dir
      ensures Valid() && InStep() && before == after && (old(mgr.Visible()) ==> before.Some?)
      ensures before.Some? ==> before.value == Look(old(Settled()), if virt < 0 then KERNEL else a, Low48(virt), 0)
    {
      hide WellFormed, LiveOk, Saved, Look, PathShown, Low48, Mirrors;
      RootsAreSaved(mgr.Value(), live, cur, a);
      RootsAreSaved(mgr.Value(), live, cur, b);
      SetActive(a);
      before := VirtToPhys(virt);
      SetActive(b);
      SavingIsIdle(mgr.Value(), mgr.huge, live, cur);
      SetActive(a);
      after := VirtToPhys(virt);
    }

    /** What may happen while another space is active: a map, into any space but `a`; a switch, to any space; or a
        save. */
    ghost predicate Allowed(r: Request, a: nat)
      reads this, mgr
    {
      match r
      case MapIn(vm, virt, _, size, _) => virt < 0 || (vm != KERNEL && vm != a && Pos(vm, 0, 0) in mgr.dir)
      case Switch(vm) => vm != KERNEL && Pos(vm, 0, 0) in mgr.dir
      case Save => true
    }

    /** One of these calls keeps the lower half of `a`. */
    method Serve(r: Request, a: nat, ghost t: Tree) returns (ok: bool)
      requires Valid() && a != KERNEL && Pos(a, 0, 0) in mgr.dir && Allowed(r, a)
      requires r.MapIn? ==> Mappable(mgr.huge, r.virt, r.size)
      requires SameLower(t, Settled(), a)
      modifies this, mgr`mem, mgr`pool, mgr`dir
      ensures Valid() && Shaped() && SameLower(t, Settled(), a)
      ensures forall sp {:trigger Pos(sp, 0, 0) in mgr.dir} ::
        Pos(sp, 0, 0) in old(mgr.dir) ==> Pos(sp, 0, 0) in mgr.dir
    {
      hide WellFormed, LiveOk, Saved, SameLower, MapPost, FrameUse, RestUntouched, Mirrors, Mappable, Base, Region;
      ok := true;
      ghost var t0, live0 := mgr.Value(), live;
      RootsStay(t0, live, cur);
      match r {
        case MapIn(vm, virt, phys, size, perms) =>
          var ret;
          ghost var done;
          ret, done := Map(vm, virt, phys, size, perms);
          ok := ret != Panicked;
          ghost var c := RootCall(mgr.huge, if virt < 0 then KERNEL else vm, virt, phys, size, perms);
          RootsStay(mgr.Value(), live, cur);
          LowerSettles(t, t0, mgr.Value(), mgr.huge, c, ret, done, live0, live, cur, a);
        case Switch(vm) =>
          SetActive(vm);
          InStepIsSettled(mgr.Value(), mgr.huge, live, cur);
        case Save =>
          SaveState();
          InStepIsSettled(mgr.Value(), mgr.huge, live, cur);
      }
    }

    /** Switching from `a` to `b`, any sequence of maps into the kernel's space and into spaces other than `a`, of
        switches and of saves, and then back to `a`: no translation of the lower half has changed. */
    method SwitchServeAndBack(a: nat, b: nat, requests: seq<Request>, virt: int)
      returns (ok: bool, before: Option<Option<nat>>, after: Option<Option<nat>>)
      requires Valid() && a != KERNEL && b != KERNEL && Pos(a, 0, 0) in mgr.dir && Pos(b, 0, 0) in mgr.dir
      requires forall i :: 0 <= i < |requests| ==> Allowed(requests[i], a)
      requires forall i :: 0 <= i < |requests| && requests[i].MapIn? ==>
        Mappable(mgr.huge, requests[i].virt, requests[i].size)
      requires 0 <= virt < HALF
      modifies this, mgr`mem, mgr`pool, mgr`dir
      ensures ok ==> Valid() && InStep() && cur == Some(a)
      ensures ok ==> SameLower(old(Settled()), mgr.Value(), a)
      ensures ok && before.Some? && after.Some? ==> before == after
    {
      hide WellFormed, LiveOk, Saved, Look, Mirrors, Mappable, PathShown, Low48;
      RootsStay(mgr.Value(), live, cur);
      ghost var t, dir := Settled(), mgr.dir;
      SetActive(a);
      InStepIsSettled(mgr.Value(), mgr.huge, live, cur);
      after := None;
      before := VirtToPhys(virt);
      RootsStay(mgr.Value(), live, cur);
      SetActive(b);
      InStepIsSettled(mgr.Value(), mgr.huge, live, cur);
      var i := 0;
      while i < |requests|
        invariant i <= |requests| && Valid() && Shaped() && SameLower(t, Settled(), a)
        invariant forall sp {:trigger Pos(sp, 0, 0) in mgr.dir} :: Pos(sp, 0, 0) in dir ==> Pos(sp, 0, 0) in mgr.dir
      {
        ok := Serve(requests[i], a, t);
        if !ok {
          return;
        }
        i := i + 1;
      }
      SetActive(a);
      InStepIsSettled(mgr.Value(), mgr.huge, live, cur);
      after := VirtToPhys(virt);
      LowHalf(virt);
      ok := true;
    }

    /** Mapping into the active space, and the save that the next switch begins with: a mapped address still
        has its translation if and only if the live table has its root slot, and what every other address of every
        space reads. */
    method MapActiveThenSave(virt: int, phys: nat, size: nat, perms: Perms) returns (ret: Status, ghost done: nat)
      requires Valid() && cur.Some? && 0 <= virt && Mappable(mgr.huge, virt, size)
      modifies this`live, mgr`mem, mgr`pool, mgr`dir
      ensures Valid() && InStep()
      ensures var c := RootCall(mgr.huge, cur.value, virt, phys, size, perms);
        && c.Levels() && ret != Continue && ret != NoMapping
        && FrameUse(c, Frames(old(|mgr.pool|), |mgr.pool|, old(mgr.Visible())), ret, done)
        && (ret != Panicked ==> forall s: nat, va: nat {:trigger Translation(s, va)} :: va < VA_LIMIT ==>
              var got := Region(c.Start(), c.Start() + done);
              Translation(s, va) == ReadsAfterSave(old(mgr.Value()), old(live), c, got, s, va))
        && (ret == Done ==> done == size)
        && (ret == AlreadyMapped ==> !Passable(See(old(mgr.Value()), c.sp, c.Start() + done, c.leaf, 0)))
    {
      hide WellFormed, MapPost, Mappable, FrameUse, NoZeroPage, RestUntouched, Base, Region, See, LiveOk,
        ReadsAfterSave, Look, Saved, Mirrors;
      ghost var t0, c := mgr.Value(), RootCall(mgr.huge, cur.value, virt, phys, size, perms);
      LiveHasRoots(t0, live, cur);
      ret, done := Map(cur.value, virt, phys, size, perms);
      ghost var t1 := mgr.Value();
      LiveHasRoots(t1, live, cur);
      SaveState();
      PostFacts(t0, t1, mgr.huge, c, ret, done);
      if ret != Panicked {
        forall s: nat, va: nat | va < VA_LIMIT
          ensures Translation(s, va) == ReadsAfterSave(t0, live, c, Region(c.Start(), c.Start() + done), s, va)
        {
          ActiveMapSurvivesIffSlotInUse(t0, t1, mgr.huge, live, c, ret, done, s, va);
        }
      }
    }

    /** An input that fails: in a new space that has been made active, every address of a successful mapping
        has lost its translation after the next save: the lower half is as empty as it was. */
    method FreshSpaceLosesItsMap(id: nat, virt: int, phys: nat, size: nat, perms: Perms) returns (ret: Status)
      requires Valid() && id != KERNEL && Pos(id, 0, 0) !in mgr.dir && Root(id) !in mgr.mem
      requires 0 <= virt && Mappable(mgr.huge, virt, size)
      modifies this, mgr`mem, mgr`pool, mgr`dir
      ensures Valid() && InStep() && cur == Some(id)
      ensures ret == Panicked && old(mgr.Visible()) ==> mgr.pool == []
      ensures ret == Panicked || ret == Done
      ensures ret == Done ==> forall va: nat {:trigger Translation(id, va)} :: va < HALF ==> Translation(id, va) == None
    {
      hide WellFormed, Mappable, FrameUse, Base, Region, Target, See, Look, Mirrors, LiveOk, Saved;
      ghost var t := mgr.Value();
      var _ := Create(id, true);
      SavedSpaceIsOpen(t, mgr.huge, live, cur, id);
      SetActive(id);
      ghost var c, fr := RootCall(mgr.huge, id, virt, phys, size, perms), Frames(|mgr.pool|, |mgr.pool|, mgr.Visible());
      ghost var done;
      NewLiveIsEmpty(mgr.Value(), live, id);
      ret, done := MapActiveThenSave(virt, phys, size, perms);
      PanicMeansNoFrames(c, fr.(left := |mgr.pool|), ret, done);
      forall va: nat | va < HALF ensures Index(va, 0) < 256 {
        RootSlot(va);
      }
    }

    /** An input on which unmapping fails: a page of 4KiB mapped in a new space, and an unmapping, from the root, of
        two megabytes or more that starts in the same two megabytes. After no number of turns has it succeeded. */
    method UnmapAroundPage(id: nat, virt: int, phys: nat, perms: Perms, from: nat, size: nat) returns (ret: Status)
      requires Valid() && id != KERNEL && Pos(id, 0, 0) !in mgr.dir && Root(id) !in mgr.mem
      requires 0 <= virt < HALF && virt % PAGE == 0 && Block(from, 3) == Block(virt, 3) && size >= Span(3)
      modifies this`live, mgr`mem, mgr`pool, mgr`dir
      ensures ret == Done || ret == Panicked
      ensures old(mgr.Visible()) && old(|mgr.pool|) >= 3 ==> ret == Done
      ensures ret == Done ==> forall turns: nat ::
        var r := Unmap(mgr.mapSize, mgr.mem, Root(id), from, size, 0, turns); r.Ended? ==> r.status != Done
    {
      hide WellFormed, MapPost, Mappable, FrameUse, NoZeroPage, RestUntouched, Region, See, Block, Unmap, Mirrors;
      ghost var t := mgr.Value();
      var _ := Create(id, true);
      LeafOfPage(mgr.huge);
      PageIsMappable(mgr.huge, virt);
      ghost var c := RootCall(mgr.huge, id, virt, phys, PAGE, perms);
      ghost var fr, done := Frames(|mgr.pool|, |mgr.pool|, mgr.Visible()), 0;
      ret, done := Map(id, virt, phys, PAGE, perms);
      PageInNewSpace(t, mgr.Value(), mgr.huge, c, ret, done, fr.(left := |mgr.pool|));
      if ret == Done {
        forall turns: nat
          ensures var r := Unmap(mgr.mapSize, mgr.mem, Root(id), from, size, 0, turns); r.Ended? ==> r.status != Done
        {
          PageStalls(mgr.Value(), mgr.huge, id, virt, from, size, mgr.mapSize, turns);
        }
      }
    }

    /** An input on which a window is lost: vmem_init, and then a mapping of one page of 4KiB at the start of a
        window. It succeeds, and the rest of the window's first page (1GiB, or 2MiB) is no longer translated. */
    method WindowLosesItsFirstPage(start: int, phys: nat, perms: Perms)
      returns (ok: bool, ret: Status, ghost before: Tree)
      requires Valid() && mgr.mapSize == 0
      requires mgr.Value() == Tree(map[Root(0) := NewTable()], map[Pos(0, 0, 0) := Root(0)])
      requires start == KERN_TOP_BASE || start == KERN_PHYSMAP_BASE || start == KERN_PHYSMAP_BASE_UC
      modifies this`live, mgr`mem, mgr`pool, mgr`dir, mgr`mapSize
      ensures old(mgr.Visible()) && old(|mgr.pool|) >= (if mgr.huge then 6 else 520) ==> ok && ret == Done
      ensures ok ==> Windows(before) && (ret == Done || ret == Panicked)
      ensures ok && ret == Done ==> forall va: nat {:trigger Translation(KERNEL, va)} ::
        start % VA_LIMIT + PAGE <= va < start % VA_LIMIT + Span(if mgr.huge then 2 else 3) ==>
          Translation(KERNEL, va) == None && Look(before, KERNEL, va, 0) == Some(va - start % VA_LIMIT)
    {
      hide WellFormed, MapPost, Mappable, FrameUse, NoZeroPage, RestUntouched, Region, See, Look, Block, Mirrors,
        Windows, WindowsMadeOf, Base;
      ret := Panicked;
      ok := MapWindows();
      before := mgr.Value();
      if !ok {
        return;
      }
      WindowStarts(before, mgr.huge, start);
      LeafOfPage(mgr.huge);
      PageIsMappable(mgr.huge, start - WORD);
      ghost var fr, done := Frames(|mgr.pool|, |mgr.pool|, mgr.Visible()), 0;
      ghost var c := RootCall(mgr.huge, KERNEL, start - WORD, phys, PAGE, perms);
      ret, done := Map(KERNEL, start - WORD, phys, PAGE, perms);
      if ret != Panicked {
        PageTakesWindow(before, mgr.Value(), mgr.huge, c, 2 * GIB, if mgr.huge then 1 else 2, ret, done);
      } else if fr.seen && fr.had >= 3 {
        PageHasFrames(before, mgr.Value(), mgr.huge, c, fr.(left := |mgr.pool|), ret, done);
      }
    }

    /** The maps of vmem_init, which sets phys_map_sz after the first. The code ignores their results. With the
        frames for tables below 2GiB, the only way one of them does not succeed is the panic when no frame is
        left, which cannot happen with 3 frames, or 517 without 1GiB pages. */
    method MapWindows() returns (ok: bool)
      requires Valid() && mgr.mapSize == 0
      requires mgr.Value() == Tree(map[Root(0) := NewTable()], map[Pos(0, 0, 0) := Root(0)])
      modifies this`live, mgr`mem, mgr`pool, mgr`dir, mgr`mapSize
      ensures old(mgr.Visible()) ==> mgr.Visible()
      ensures ok ==> Valid() && mgr.mapSize == PHYS_MAP_SIZE
      ensures ok ==> Windows(mgr.Value()) && WindowsMadeOf(mgr.Value(), mgr.huge)
      ensures ok ==> old(|mgr.pool|) - |mgr.pool| <= if mgr.huge then 3 else 517
      ensures !ok && old(mgr.Visible()) ==> mgr.pool == [] && old(|mgr.pool|) < if mgr.huge then 3 else 517
    {
      hide WellFormed, MapPost, MapPre, Mappable, Windows, Window, Unused, Overlay, Mirrors, Range, IsWindow, Span,
        MadeOf, FlagsOf;
      ghost var top, wb, uc := KERN_TOP_BASE % VA_LIMIT, KERN_PHYSMAP_BASE % VA_LIMIT, KERN_PHYSMAP_BASE_UC % VA_LIMIT;
      ThreeWindows();
      WindowFits(KERN_TOP_BASE - WORD, top, 2 * GIB);
      WindowFits(KERN_PHYSMAP_BASE - WORD, wb, PHYS_MAP_SIZE);
      WindowFits(KERN_PHYSMAP_BASE_UC - WORD, uc, PHYS_MAP_SIZE);
      ghost var topFlags, wbFlags, ucFlags := FlagsOf(TOP_PERMS), FlagsOf(PHYSMAP_PERMS), FlagsOf(PHYSMAP_UC_PERMS);
      ghost var leaf, t0 := if mgr.huge then 1 else 2, mgr.Value();
      BlankIsUnused(t0, leaf, top, 2 * GIB);
      BlankIsUnused(t0, leaf, wb, PHYS_MAP_SIZE);
      BlankIsUnused(t0, leaf, uc, PHYS_MAP_SIZE);
      ok := MapWindow(KERN_TOP_BASE - WORD, 2 * GIB, TOP_PERMS, top);
      if !ok {
        return false;
      }
      ghost var t1 := mgr.Value();
      WindowMapped(t0, t1, leaf, top, 2 * GIB, TOP_PERMS, wb, PHYS_MAP_SIZE, wbFlags);
      WindowMapped(t0, t1, leaf, top, 2 * GIB, TOP_PERMS, uc, PHYS_MAP_SIZE, ucFlags);
      mgr.mapSize := PHYS_MAP_SIZE;
      ok := MapWindow(KERN_PHYSMAP_BASE - WORD, PHYS_MAP_SIZE, PHYSMAP_PERMS, wb);
      if !ok {
        return false;
      }
      ghost var t2 := mgr.Value();
      WindowMapped(t1, t2, leaf, wb, PHYS_MAP_SIZE, PHYSMAP_PERMS, top, 2 * GIB, topFlags);
      WindowMapped(t1, t2, leaf, wb, PHYS_MAP_SIZE, PHYSMAP_PERMS, uc, PHYS_MAP_SIZE, ucFlags);
      ok := MapWindow(KERN_PHYSMAP_BASE_UC - WORD, PHYS_MAP_SIZE, PHYSMAP_UC_PERMS, uc);
      if !ok {
        return false;
      }
      WindowMapped(t2, mgr.Value(), leaf, uc, PHYS_MAP_SIZE, PHYSMAP_UC_PERMS, top, 2 * GIB, topFlags);
      WindowMapped(t2, mgr.Value(), leaf, uc, PHYS_MAP_SIZE, PHYSMAP_UC_PERMS, wb, PHYS_MAP_SIZE, wbFlags);
      AllWindows(mgr.Value());
    }

    /** One of those maps. */
    method MapWindow(virt: int, size: nat, perms: Perms, ghost base: nat) returns (ok: bool)
      requires Valid() && IsWindow(virt, base, size) && Unused(mgr.Value(), if mgr.huge then 1 else 2, base, size)
      modifies this`live, mgr`mem, mgr`pool, mgr`dir
      ensures old(mgr.Visible()) ==> mgr.Visible()
      ensures ok ==>
        && Valid() && old(|mgr.pool|) - |mgr.pool| <= WindowTables(mgr.huge, size)
        && Overlay(old(mgr.Value()), mgr.Value(), WindowJob(base, if mgr.huge then 1 else 2, perms),
                   Range(base, size), Range(base, size))
      ensures !ok && old(mgr.Visible()) ==> mgr.pool == [] && old(|mgr.pool|) < WindowTables(mgr.huge, size)
    {
      hide WellFormed, MapPost, MapPre, Unused, Overlay, Mirrors, Span, FrameUse, RestUntouched, Region, Base, LeafFrom;
      ghost var t0, fr := mgr.Value(), Frames(|mgr.pool|, |mgr.pool|, mgr.Visible());
      WindowLeaf(size, mgr.huge);
      var ret;
      ghost var done;
      ret, done := Map(KERNEL, virt, 0, size, perms);
      WindowGoesThrough(t0, mgr.Value(), mgr.huge, virt, base, size, perms, fr.(left := |mgr.pool|), ret, done);
      ok := ret != Panicked;
    }
  }

  /** What a mapping of one page in an empty space leaves. */
  lemma PageInNewSpace(t: Tree, t': Tree, huge: bool, c: Call, ret: Status, done: nat, fr: Frames)
    requires WellFormed(t, huge) && Pos(c.sp, 0, 0) !in t.dir && Root(c.sp) !in t.mem
    requires FromRoot(c) && c.virt % PAGE == 0 && c.size == PAGE && c.leaf == 3
    requires MapPost(WithSpace(t, c.sp), t', huge, c, ret, done) && FrameUse(c, fr, ret, done)
    ensures ret == Done || ret == Panicked
    ensures fr.seen && fr.had >= 3 ==> ret == Done
    ensures ret == Done ==> See(t', c.sp, c.virt, 3, 0).Taken?
  {
    hide WellFormed, Look, See, Under, Hole, Block, Region, EntryAt, FrameUse, Slots;
    AlignedStart(c);
    PageFacts(c.virt);
    PageWithin(c.virt);
    forall va: nat ensures See(WithSpace(t, c.sp), c.sp, va, 3, 0).Open? {
      NewSpaceIsOpen(t, huge, c.sp, va);
    }
    if ret != Panicked {
      MapSucceedsIff(WithSpace(t, c.sp), t', huge, c, ret, done);
      var got := Region(c.virt, c.virt + done);
      assert c.virt in Range(c.virt, PAGE);
      assert Effect(WithSpace(t, c.sp), t', c.Work(), got, got, c.sp, c.virt);
    } else if fr.seen && fr.had >= 3 {
      PageHasFrames(WithSpace(t, c.sp), t', huge, c, fr, ret, done);
    }
  }

  lemma PageWithin(a: nat)
    requires a % PAGE == 0 && a < VA_LIMIT
    ensures a + PAGE <= VA_LIMIT
  {
  }

  lemma PostFacts(t0: Tree, t1: Tree, huge: bool, c: Call, ret: Status, done: nat)
    requires c.Levels() && MapPost(t0, t1, huge, c, ret, done)
    ensures ret != NoMapping && (ret == Done ==> done == c.size)
    ensures ret == AlreadyMapped ==> !Passable(See(t0, c.sp, c.Start() + done, c.leaf, 0))
  {
    hide WellFormed, Overlay, Region, See, Base;
  }

  lemma PlacesStay(t0: Tree, t1: Tree, sp: nat, p: Pos)
    requires Extends(t0, t1, sp) && p in t0.dir
    ensures p in t1.dir
  {
  }

  /** What a call has mapped, in the flat map. */
  lemma MappedReads(t0: Tree, t1: Tree, huge: bool, c: Call, ret: Status, done: nat, va: nat)
    requires c.Levels() && MapPost(t0, t1, huge, c, ret, done) && ret != Panicked
    requires va in Region(c.Start(), c.Start() + done)
    ensures Look(t1, c.sp, va, 0) == Some(Target(c.Work(), va))
    ensures Nameable(c) && va < c.Goal() ==> Target(c.Work(), va) == c.phys + (va - c.Start())
  {
    hide WellFormed, Look, See, Base, Target, Hole, Nameable;
    var got := Region(c.Start(), c.Start() + done);
    assert Effect(t0, t1, c.Work(), got, got, c.sp, va);
    if Nameable(c) && va < c.Goal() {
      TargetIs(c, va);
    }
  }

  lemma PanicMeansNoFrames(c: Call, fr: Frames, ret: Status, done: nat)
    requires c.Levels() && FrameUse(c, fr, ret, done)
    ensures ret == Panicked && fr.seen ==> fr.left == 0
  {
  }

  /** In a new space nothing is in the way, and no root slot is in use. */
  lemma NewSpaceIsOpen(t: Tree, huge: bool, id: nat, va: nat)
    requires WellFormed(t, huge) && Pos(id, 0, 0) !in t.dir && Root(id) !in t.mem
    ensures !Met(WithSpace(t, id), id, va, 0).present
    ensures forall leaf {:trigger See(WithSpace(t, id), id, va, leaf, 0)} :: 0 <= leaf <= 3 ==>
      See(WithSpace(t, id), id, va, leaf, 0).Open?
  {
    NothingAtRoot(t, huge, id, Block(va, 1));
    assert EntryAt(WithSpace(t, id), id, 0, Block(va, 1)) == EMPTY;
  }

  /** The same after a save. */
  lemma SavedSpaceIsOpen(t: Tree, huge: bool, live: seq<Entry>, cur: Option<nat>, id: nat)
    requires WellFormed(t, huge) && Pos(id, 0, 0) !in t.dir && Root(id) !in t.mem
    requires WellFormed(WithSpace(t, id), huge) && LiveOk(WithSpace(t, id), live, cur)
    requires cur.Some? ==> Pos(cur.value, 0, 0) in t.dir
    ensures var u := Saved(WithSpace(t, id), live, cur);
      && Pos(id, 0, 0) in u.dir && Root(id) in u.mem && u.mem[Root(id)] == NewTable()
      && forall va: nat, leaf: nat {:trigger See(u, id, va, leaf, 0)} :: leaf <= 3 ==> See(u, id, va, leaf, 0).Open?
  {
    var u := Saved(WithSpace(t, id), live, cur);
    SavedRoots(WithSpace(t, id), live, cur);
    hide LiveOk, Saved, WellFormed, LowerOk;
    forall va: nat, leaf: nat | leaf <= 3 ensures See(u, id, va, leaf, 0).Open? {
      NothingAtRoot(t, huge, id, Block(va, 1));
      assert EntryAt(WithSpace(t, id), id, 0, Block(va, 1)) == EMPTY;
      SavedEntry(WithSpace(t, id), huge, live, cur, id, 0, Block(va, 1));
      assert Met(u, id, va, 0) == EMPTY;
    }
  }

  lemma NewLiveIsEmpty(t: Tree, live: seq<Entry>, id: nat)
    requires Mirrors(t.mem, live, Some(id)) && t.mem[Root(id)] == NewTable()
    ensures forall i :: 0 <= i < 256 ==> !live[i].present
  {
  }

  lemma AllWindows(t: Tree)
    requires Window(t, KERN_TOP_BASE % VA_LIMIT, 2 * GIB) && Window(t, KERN_PHYSMAP_BASE % VA_LIMIT, PHYS_MAP_SIZE)
    requires Window(t, KERN_PHYSMAP_BASE_UC % VA_LIMIT, PHYS_MAP_SIZE)
    ensures Windows(t)
  {
  }
}
