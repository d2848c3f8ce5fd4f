/** The page-table manager's state and its recursive calls. */
module PageTableManager {
  import opened Paging
  import opened MapEffects
  import opened PageTables
  import opened Holes
  import opened MapSteps
  import opened UnmapSteps
  import opened UnmapStalls
  import opened MapTheorems

  class Manager {
    /** The tables, by root or frame. */
    var mem: map<Ref, seq<Entry>>
    /** The frames pmem_allocpage will return. */
    var pool: seq<nat>
    /** largepage_avail[1]: 1GiB pages. */
    var huge: bool
    /** phys_map_sz: what vmem_phystovirt shows. */
    var mapSize: nat
    ghost var dir: map<Pos, Ref>

    ghost function Value(): Tree
      reads this
    {
      Tree(mem, dir)
    }

    /** Frames yet to be handed out are distinct, not in use as tables, and fit the address field. */
    ghost predicate PoolOk()
      reads this
    {
      && (forall i :: 0 <= i < |pool| ==> 0 < pool[i] < FRAME_LIMIT && Frame(pool[i]) !in mem)
      && (forall i, j :: 0 <= i < j < |pool| ==> pool[i] != pool[j])
    }

    /** All tables, and all frames that may become one, are shown. */
    ghost predicate Visible()
      reads this
    {
      && (forall n :: Frame(n) in mem ==> Shown(n, mapSize))
      && (forall i :: 0 <= i < |pool| ==> Shown(pool[i], mapSize))
    }

    /** The kernel's empty table, before any mapping; the frames to come are distinct. */
    constructor (frames: seq<nat>, hugepages: bool, shown: nat)
      requires forall i :: 0 <= i < |frames| ==> 0 < frames[i] < FRAME_LIMIT
      requires forall i, j :: 0 <= i < j < |frames| ==> frames[i] != frames[j]
      ensures Value() == Tree(map[Root(0) := NewTable()], map[Pos(0, 0, 0) := Root(0)])
      ensures WellFormed(Value(), huge) && PoolOk() && huge == hugepages && pool == frames && mapSize == shown
    {
      mem := map[Root(0) := NewTable()];
      dir := map[Pos(0, 0, 0) := Root(0)];
      pool := frames;
      huge := hugepages;
      mapSize := shown;
    }

    /** The branch of vmem_map_st that writes pages: stores entries from `idx` on until the range or the
        table ends, or a slot is taken. */
    method MapLeaves(f: Ref, virt: nat, phys0: nat, size0: nat, perms: Perms, lv: nat, ghost sp: nat)
      returns (ret: Status, ghost done: nat)
      requires MapPre(Value(), huge, Call(sp, f, virt, phys0, size0, perms, lv, lv)) && PoolOk()
      modifies this`mem
      ensures PoolOk() && mem.Keys == old(mem.Keys) && (old(Visible()) ==> Visible())
      ensures ret != Panicked
      ensures MapPost(old(Value()), Value(), huge, Call(sp, f, virt, phys0, size0, perms, lv, lv), ret, done)
      ensures ret == Continue ==> done > 0
    {
      hide MapPre, MapPost, LeafLoop, LeafEntry, Met;
      ghost var t0, c := Value(), Call(sp, f, virt, phys0, size0, perms, lv, lv);
      CallLevels(t0, huge, c);
      var idx := Index(virt, lv);
      var phys, size := phys0, size0;
      done := 0;
      LeafLoopStarts(t0, huge, c);
      while size > 0
        invariant 0 <= size && size + done == size0 && phys == phys0 + done && 0 <= idx <= 512
        invariant LeafLoop(t0, Value(), huge, c, done, idx)
        invariant mem.Keys == old(mem.Keys)
        decreases size
      {
        if idx >= 512 {
          LeafLoopRunsOff(t0, Value(), huge, c, done);
          return Continue, done;
        }
        LeafLoopSlot(t0, Value(), huge, c, done, idx);
        if mem[f][idx].present {
          return AlreadyMapped, done;
        }
        LeafLoopStores(t0, Value(), huge, c, done, idx);
        mem := mem[f := mem[f][idx := LeafEntry(phys, perms, lv)]];
        phys := phys + Span(lv + 1);
        idx := idx + 1;
        size := size - Span(lv + 1);
        done := done + Span(lv + 1);
      }
      LeafLoopEnds(t0, Value(), huge, c, idx);
      return Done, done;
    }

    /** pmem_allocpage: the next free frame, or 0 when there is none, which the caller answers by PANIC. */
    method AllocPage() returns (x: nat)
      requires PoolOk()
      modifies this`pool
      ensures PoolOk()
      ensures if old(pool) == [] then x == 0 && pool == [] else x == old(pool)[0] && pool == old(pool)[1..]
    {
      if pool == [] {
        return 0;
      }
      x := pool[0];
      pool := pool[1..];
    }

    /** The frame of the table below slot `idx`, hanging a cleared one if the slot names none. None is a panic:
        no frame is left, or vmem_phystovirt does not show the new one. */
    method EnsureTable(f: Ref, idx: nat, ghost t0: Tree, ghost c: Call, ghost k: Cursor) returns (nLv: Option<nat>)
      requires PoolOk() && f == c.f && InnerLoop(t0, Value(), huge, c, k) && k.size > 0 && k.idx == idx
      modifies this`mem, this`pool, this`dir
      ensures PoolOk() && (old(Visible()) ==> Visible()) && |pool| <= old(|pool|) <= |pool| + 1
      ensures c.Levels() && Prepared(old(Value()), Value(), huge, c, k.b)
      ensures nLv == None ==> Value() == old(Value()) && (old(Visible()) ==> old(pool) == [])
      ensures nLv.Some? ==> f in mem && |mem[f]| == 512 && idx < 512
      ensures nLv.Some? && mem[f][idx].large ==>
        Value() == old(Value()) && pool == old(pool) && mem[f][idx].frame != 0
      ensures nLv.Some? && !mem[f][idx].large ==> Below(Value(), c.sp, k.b, c.lv, nLv.value)
    {
      hide MapPost, InnerLoop, Below, Met, NewTable, Overlay, WellFormed, See;
      InnerLevels(t0, Value(), huge, c, k);
      InnerPosition(t0, Value(), huge, c, k);
      var frame := mem[f][idx].frame;
      if frame == 0 {
        frame := AllocPage();
        if frame == 0 || !Shown(frame, mapSize) {
          return None;
        }
        InnerHangs(t0, Value(), huge, c, k, frame);
        mem := mem[Frame(frame) := NewTable()];
        mem := mem[f := mem[f][idx := Entry(frame, true, false, TABLE_FLAGS)]];
        dir := dir[Pos(c.sp, c.lv + 1, Block(k.b, c.lv + 1)) := Frame(frame)];
      } else {
        InnerMeets(t0, Value(), huge, c, k);
      }
      return Some(frame);
    }

    /** One turn of the loop that descends, up to the carry: finds or hangs the table of slot `idx` and maps
        there what it can. The call is over unless the table ran off its end; then the loop goes on in the next
        slot, or the call's own table has ended. */
    method MapSlot(f: Ref, idx: nat, virt: nat, phys: nat, size: nat, perms: Perms, lv: nat, ghost t0: Tree,
                   ghost c: Call, ghost k: Cursor, ghost fr: Frames)
      returns (ret: Status, ghost done: nat)
      requires PoolOk() && InnerLoop(t0, Value(), huge, c, k) && k.b >= c.Start()
      requires LoopUse(c, k.b, fr) && fr.left == |pool| && (fr.seen ==> Visible())
      requires perms == c.perms && f == c.f && lv == c.lv && idx == k.idx && size == k.size && size > 0
      requires virt == k.b + (c.virt - c.Start()) && phys == c.phys + (k.b - c.Start())
      modifies this`mem, this`pool, this`dir
      ensures PoolOk() && (fr.seen ==> Visible())
      ensures SlotPost(t0, Value(), huge, c, k, Frames(fr.had, |pool|, fr.seen), ret, done)
      decreases 4 - lv, 0
    {
      hide MapPre, MapPost, InnerLoop, Below, Met, NewTable, Prepared, LoopUse, FrameUse, Base, Block, Span;
      hide WellFormed, Overlay, See, LeafFrom, Reaches, PoolOk, SlotPost;
      ghost var t := Value();
      InnerLevels(t0, t, huge, c, k);
      InnerPosition(t0, t, huge, c, k);
      var nLv := EnsureTable(f, idx, t0, c, k);
      ghost var t', sub := Value(), |pool|;
      if nLv == None {
        SlotPanics(t0, t, t', huge, c, k, fr, sub);
        return Panicked, k.b - c.Start();
      }
      if mem[f][idx].large {
        SlotTaken(t0, t, huge, c, k, fr);
        return AlreadyMapped, k.b - c.Start();
      }
      if !Shown(nLv.value, mapSize) {
        BelowInMem(t, t', huge, c, k.b, nLv.value);
        SlotPanics(t0, t, t', huge, c, k, fr, sub);
        return Panicked, k.b - c.Start();
      }
      InnerDescends(t0, t, t', huge, c, k, nLv.value);
      CallLevels(t', huge, Sub(c, k, nLv.value));
      ghost var d, seen := 0, Visible();
      ret, d := MapSt(Frame(nLv.value), virt, phys, size, perms, lv + 1, c.sp, c.leaf);
      ghost var ts, subFrames := Trees(t0, t, t', Value()), Frames(sub, |pool|, seen);
      if ret == Continue {
        SlotRunsOff(ts, huge, c, k, nLv.value, d, fr, subFrames);
      } else {
        SlotReturns(ts, huge, c, k, nLv.value, ret, d, fr, subFrames);
      }
      return ret, k.b - c.Start() + d;
    }

    /** vmem_map_st: maps `size` bytes from `virt` on in table `f` of level `lv`. A level that is not the
        leaf level descends slot by slot, hanging new tables where none is, and carries on behind a table
        that ran off its end; the size wraps like uint64_t. */
    method MapSt(f: Ref, virt0: nat, phys0: nat, size0: nat, perms: Perms, lv: nat, ghost sp: nat, ghost leaf: nat)
      returns (ret: Status, ghost done: nat)
      requires MapPre(Value(), huge, Call(sp, f, virt0, phys0, size0, perms, lv, leaf)) && PoolOk()
      modifies this`mem, this`pool, this`dir
      ensures PoolOk() && (old(Visible()) ==> Visible())
      ensures MapPost(old(Value()), Value(), huge, Call(sp, f, virt0, phys0, size0, perms, lv, leaf), ret, done)
      ensures FrameUse(Call(sp, f, virt0, phys0, size0, perms, lv, leaf), Frames(old(|pool|), |pool|, old(Visible())),
                       ret, done)
      decreases 4 - lv
    {
      hide MapPre, MapPost, InnerLoop, LoopUse, FrameUse, Base, Block, Span, SlotPost, PoolOk, Carry, Visible;
      ghost var t0, c, had, seen := Value(), Call(sp, f, virt0, phys0, size0, perms, lv, leaf), |pool|, Visible();
      CallLevels(t0, huge, c);
      LeafHere(t0, huge, c);
      if size0 % Span(lv + 1) == 0 && LargeAvail(lv, huge) {
        ret, done := MapLeaves(f, virt0, phys0, size0, perms, lv, sp);
        UseOfLeaves(c, had, seen, ret, done);
        return;
      }
      InnerStarts(t0, huge, c);
      UseStarts(c, had, seen);
      var idx := Index(virt0, lv);
      var virt, phys, size := virt0, phys0, size0;
      ghost var b := c.Start();
      while size > 0
        invariant PoolOk() && 0 <= size && b >= c.Start() && (seen ==> Visible())
        invariant virt == b + (virt0 - c.Start()) && phys == phys0 + (b - c.Start())
        invariant 0 <= idx < 512
        invariant InnerLoop(t0, Value(), huge, c, Cursor(idx, b, size)) && LoopUse(c, b, Frames(had, |pool|, seen))
        decreases 512 - idx
      {
        ghost var k := Cursor(idx, b, size);
        ret, done := MapSlot(f, idx, virt, phys, size, perms, lv, t0, c, k, Frames(had, |pool|, seen));
        SlotMeans(t0, Value(), huge, c, k, Frames(had, |pool|, seen), ret, done);
        if ret != Continue {
          return;
        }
        CarryIs(virt, lv);
        var lIdx := Index(virt, lv + 1);
        var iSz := (512 - lIdx) * Span(lv + 2);
        size := (size - iSz) % WORD;
        virt := virt + iSz;
        phys := phys + iSz;
        idx := idx + 1;
        if idx >= 512 {
          return;
        }
        b := b + iSz;
      }
      InnerEnds(t0, Value(), huge, c, idx, b);
      UseEnds(c, b, Frames(had, |pool|, seen));
      return Done, size0;
    }

    /** vmem_unmap_st on whole pages, fewer than one table of them, from any address in the first: clears the touched
        slots of the table that the range starts in, if it is there, up to the first that names a frame out of
        sight. The outcome is that of the turns of its loop. */
    method UnmapSt(f: Ref, virt0: nat, size0: nat, lv: nat, ghost sp: nat, ghost leaf: nat)
      returns (ret: Status, ghost done: nat, ghost turns: nat)
      requires lv <= leaf <= 3 && UnmapPre(Value(), huge, sp, f, Base(virt0, leaf), size0, lv, leaf) && PoolOk()
      modifies this`mem
      ensures PoolOk()
      ensures UnmapPost(old(Value()), Value(), huge, sp, Base(virt0, leaf), size0, lv, leaf, mapSize, ret, done)
      ensures Unmap(mapSize, old(mem), f, virt0, size0, lv, turns) == Ended(ret, mem)
      decreases 4 - lv
    {
      hide UnmapPre, UnmapPost, ClearLoop, Met, WholePages, Span, WellFormed, EntryAt, Block, Index, Unmap, Tracks,
        Shown, Base;
      ghost var t0, s0, base := Value(), State(mem, virt0, size0), Base(virt0, leaf);
      TracksStart(mapSize, f, lv, s0);
      UnmapStarts(t0, huge, sp, f, base, size0, lv, leaf, mapSize);
      var virt, size := virt0, size0;
      ghost var gone := 0;
      done := 0;
      while size > 0
        invariant 0 <= size && size + done == size0 && virt == virt0 + done && mem.Keys == t0.mem.Keys && PoolOk()
        invariant if lv == leaf then ClearLoop(t0, Value(), huge, sp, f, base, size0, leaf, mapSize, done)
                  else Value() == t0 && done == 0
        invariant Tracks(mapSize, f, lv, s0, State(mem, virt, size), gone)
        decreases size
      {
        if lv < leaf {
          NoBytes(leaf);
          UnmapInner(t0, huge, sp, f, base, size, lv, leaf, mapSize);
        } else {
          ClearLoopPages(t0, Value(), huge, sp, f, base, size0, leaf, mapSize, done);
          ClearLoopSlot(t0, Value(), huge, sp, f, base, size0, leaf, mapSize, done);
        }
        IndexFits(virt, lv);
        IndexFromBase(virt0, done, lv, leaf);
        var sz := Span(lv + 1);
        var idx := Index(virt, lv);
        var lvEnt := mem[f][idx];
        ghost var s := State(mem, virt, size);
        LastTurn(mapSize, f, lv, s, Running, 0);
        TracksEnd(mapSize, f, lv, s0, s, gone, 1);
        if !Shown(lvEnt.frame, mapSize) {
          if lv == leaf {
            ClearLoopPanics(t0, Value(), huge, sp, f, base, size0, leaf, mapSize, done);
          }
          return Panicked, done, gone + 1;
        }
        if lvEnt.present {
          if size >= sz && (lvEnt.large || lv == 3) {
            ClearLoopClears(t0, Value(), huge, sp, f, base, size0, leaf, mapSize, done);
            TracksTurn(mapSize, f, lv, s0, s, gone);
            mem := mem[f := mem[f][idx := EMPTY]];
            size := size - sz;
            virt := virt + sz;
            done := done + sz;
          } else if size >= sz && !lvEnt.large {
            assert false;
          } else if size < sz && !lvEnt.large {
            ret, done, turns := UnmapSt(Frame(lvEnt.frame), virt, size, lv + 1, sp, leaf);
            UnmapReturns(t0, Value(), huge, sp, base, size, lv, leaf, mapSize, ret, done);
            LastTurn(mapSize, f, lv, s, Ended(ret, mem), turns);
            TracksEnd(mapSize, f, lv, s0, s, gone, turns + 1);
            turns := gone + (turns + 1);
            return;
          } else {
            return Panicked, done, gone + 1;
          }
        } else if size >= sz {
          ClearLoopSkips(t0, Value(), huge, sp, f, base, size0, leaf, mapSize, done);
          TracksTurn(mapSize, f, lv, s0, s, gone);
          size := size - sz;
          virt := virt + sz;
          done := done + sz;
        } else {
          return NoMapping, done, gone + 1;
        }
        gone := gone + 1;
      }
      if lv == leaf {
        ClearLoopEnds(t0, Value(), huge, sp, f, base, size0, leaf, mapSize);
      } else {
        UnmapNothing(t0, huge, sp, f, base, lv, leaf, mapSize);
      }
      NothingLeft(mapSize, f, lv, State(mem, virt, size));
      TracksEnd(mapSize, f, lv, s0, State(mem, virt, size), gone, 1);
      return Done, done, gone + 1;
    }

    /** Mapping whole pages, fewer than one table of them, and unmapping them again, from any address in the first.
        The mapping goes through exactly if the code finds room for the whole range, given frames for its tables that
        vmem_phystovirt shows and a range that does not end in a hole. If the unmapping goes through too, every
        translation of every space is restored if and only if the range lies in one table and no page at physical 0
        was in the way. In one table it goes through if and only if vmem_phystovirt shows the last page of the
        physical range. */
    method MapThenUnmap(sp: nat, virt: nat, phys: nat, size: nat, perms: Perms, ghost c: Call)
      returns (mapped: bool, unmapped: bool)
      requires var leaf := LeafFrom(size, huge, 0);
        PoolOk() && c == Call(sp, Root(sp), Base(virt, leaf), phys, size, perms, 0, leaf)
      requires virt < VA_LIMIT && PagesCall(Value(), huge, c) && NoTablesAround(Value(), sp, c.virt, size, c.leaf)
      modifies this`mem, this`pool, this`dir
      ensures var got, goal := Region(c.virt, c.virt + size), c.virt + size;
        && (mapped ==> AllPassable(old(Value()), sp, got, c.leaf) && goal <= VA_LIMIT && !Under(c.virt, goal))
        && (mapped && unmapped ==>
              (SameTranslations(old(Value()), Value()) <==>
                 !Crosses(c.virt, size, c.leaf) && NoZeroPage(old(Value()), c.Work(), got)))
        && (mapped && old(Visible()) && !Crosses(c.virt, size, c.leaf) && Nameable(c) && size >= Span(c.leaf + 1) ==>
              (unmapped <==> Shown(LastFrame(c), mapSize)))
        && (!mapped && old(Visible()) && old(|pool|) >= Tables(0, c.leaf, c.virt, goal - 1) ==>
              !AllPassable(old(Value()), sp, got, c.leaf) || goal > VA_LIMIT || Under(c.virt, goal))
    {
      hide MapPost, MapPre, UnmapPost, Look, See, Overlay, Cleared, WellFormed, Block, Span, FrameUse, Slots, LeafFrom;
      hide Base, Under, Region, NoTablesAround, Nameable, Shown;
      ghost var leaf, t0, fr, goal := c.leaf, Value(), Frames(|pool|, |pool|, Visible()), c.virt + size;
      ghost var asked := c.(virt := virt);
      AskedPre(t0, huge, asked);
      var ret;
      ghost var done, gone, turns;
      ret, done := MapSt(Root(sp), virt, phys, size, perms, 0, sp, leaf);
      RoundedPost(t0, Value(), huge, asked, ret, done, fr.(left := |pool|));
      if ret != Done {
        if !Under(c.virt, goal) && goal <= VA_LIMIT {
          MapNotThrough(t0, Value(), huge, c, fr.(left := |pool|), ret, done);
        }
        return false, false;
      }
      ghost var t1 := Value();
      MapReadyToUnmap(t0, t1, huge, c, done);
      PostWellFormed(t0, t1, huge, c, ret, done);
      if fr.seen && !Crosses(c.virt, size, leaf) && Nameable(c) {
        InSightIffLast(t0, t1, huge, c, mapSize);
        WayIsInSight(t1, huge, sp, c.virt, leaf, mapSize);
      }
      ret, gone, turns := UnmapSt(Root(sp), virt, size, 0, sp, leaf);
      UnmapOfReached(t1, Value(), huge, sp, c.virt, size, leaf, mapSize, ret, gone);
      if ret == Done {
        UnmapRestoresIff(t0, t1, Value(), c);
      }
      return true, ret == Done;
    }
  }

  /** A call may rely on the same things as the one from its rounded address. */
  lemma AskedPre(t: Tree, huge: bool, c: Call)
    requires c.Levels() && MapPre(t, huge, c.(virt := c.Start())) && c.virt < VA_LIMIT
    ensures MapPre(t, huge, c)
  {
    hide WellFormed, Base, Block, LeafFrom;
    SameBlocksAsStart(c);
  }

  lemma NoBytes(leaf: nat)
    requires leaf <= 3
    ensures 0 % Span(leaf + 1) == 0
  {
  }

  /** Whole pages on, an address is in the same slot as its page. */
  lemma IndexFromBase(virt: nat, done: nat, lv: nat, leaf: nat)
    requires lv <= leaf <= 3 && done % Span(leaf + 1) == 0
    ensures Index(virt + done, lv) == Index(Base(virt, leaf) + done, lv)
  {
    hide Block, Base;
    BaseFacts(virt, leaf, 0);
    OffsetFromBase(virt, leaf);
    SumOfPages(Base(virt, leaf), done, leaf);
    BaseShift(Base(virt, leaf) + done, virt - Base(virt, leaf), leaf);
  }

  lemma OffsetFromBase(virt: nat, leaf: nat)
    requires leaf <= 3
    ensures 0 <= virt - Base(virt, leaf) < Span(leaf + 1)
  {
  }

  lemma PostWellFormed(t0: Tree, t: Tree, huge: bool, c: Call, ret: Status, done: nat)
    requires c.Levels() && MapPost(t0, t, huge, c, ret, done)
    ensures WellFormed(t, huge)
  {
    hide Overlay, See, WellFormed, Under, Hole, Base;
  }

  /** An unmapping call whose table is there, from the root. */
  lemma UnmapOfReached(t0: Tree, t: Tree, huge: bool, sp: nat, virt: nat, size: nat, leaf: nat, mapSize: nat,
                       ret: Status, done: nat)
    requires leaf <= 3 && size > 0 && Reaches(t0, sp, virt, leaf)
    requires UnmapPost(t0, t, huge, sp, virt, size, 0, leaf, mapSize, ret, done)
    ensures ret == Done ==> Cleared(t0, t, sp, TouchedSet(virt, size, leaf))
    ensures WayInSight(t0, sp, virt, 0, leaf, mapSize) ==>
      (ret == Done <==> InSight(t0, sp, TouchedSet(virt, size, leaf), leaf, mapSize))
  {
    hide WellFormed, Cleared, InSight, WayInSight, See;
  }
}
