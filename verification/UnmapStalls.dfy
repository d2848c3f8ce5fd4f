/** vmem_unmap_st turn by turn: what its loop clears in a table of pages, and where it does not end. */
module UnmapStalls {
  import opened Paging
  import opened PageTables

  /** What a number of turns of the loop, here and in recursive calls, leads to. */
  datatype Outcome = Running | Ended(status: Status, mem: map<Ref, seq<Entry>>)

  predicate Pointer(e: Entry) { e.present && !e.large }

  /** vmem_unmap_st with `turns` turns to go; a table that is not in memory ends the run, and so does a slot that
      names a frame which vmem_phystovirt does not show. */
  function Unmap(mapSize: nat, mem: map<Ref, seq<Entry>>, f: Ref, virt: nat, size: nat, lv: nat, turns: nat): Outcome
    decreases turns
  {
    if turns == 0 then Running
    else if size == 0 then Ended(Done, mem)
    else if lv > 3 || f !in mem || |mem[f]| != 512 then Ended(Panicked, mem)
    else
      var sz, i := Span(lv + 1), Index(virt, lv);
      var e := mem[f][i];
      if !Shown(e.frame, mapSize) then Ended(Panicked, mem)
      else if e.present then
        if size >= sz && (e.large || lv == 3) then
          Unmap(mapSize, mem[f := mem[f][i := EMPTY]], f, virt + sz, size - sz, lv, turns - 1)
        else if size >= sz then
          var below := Unmap(mapSize, mem, Frame(e.frame), virt, size, lv + 1, turns - 1);
          if below.Ended? && below.status == Done then Unmap(mapSize, below.mem, f, virt, size, lv, turns - 1)
          else below
        else if !e.large then Unmap(mapSize, mem, Frame(e.frame), virt, size, lv + 1, turns - 1)
        else Ended(Panicked, mem)
      else if size >= sz then Unmap(mapSize, mem, f, virt + sz, size - sz, lv, turns - 1)
      else Ended(NoMapping, mem)
  }

  // ----- Turn by turn -----

  /** Where a loop stands. */
  datatype State = State(mem: map<Ref, seq<Entry>>, virt: nat, size: nat)

  function From(mapSize: nat, f: Ref, lv: nat, s: State, turns: nat): Outcome {
    Unmap(mapSize, s.mem, f, s.virt, s.size, lv, turns)
  }

  /** After `gone` turns from `s0` the loop stands at `s`. */
  ghost predicate Tracks(mapSize: nat, f: Ref, lv: nat, s0: State, s: State, gone: nat) {
    forall n: nat :: From(mapSize, f, lv, s0, gone + n) == From(mapSize, f, lv, s, n)
  }

  lemma TracksStart(mapSize: nat, f: Ref, lv: nat, s: State)
    ensures Tracks(mapSize, f, lv, s, s, 0)
  {
    hide From;
  }

  /** A turn over a page of whole size, or over an empty slot. */
  lemma TracksTurn(mapSize: nat, f: Ref, lv: nat, s0: State, s: State, gone: nat)
    requires Tracks(mapSize, f, lv, s0, s, gone) && lv <= 3 && f in s.mem && |s.mem[f]| == 512
    requires Index(s.virt, lv) < 512
    requires var e := s.mem[f][Index(s.virt, lv)]; Shown(e.frame, mapSize) && (!e.present || e.large || lv == 3)
    requires s.size >= Span(lv + 1)
    ensures var e, sz := s.mem[f][Index(s.virt, lv)], Span(lv + 1);
      var mem := if e.present then s.mem[f := s.mem[f][Index(s.virt, lv) := EMPTY]] else s.mem;
      Tracks(mapSize, f, lv, s0, State(mem, s.virt + sz, s.size - sz), gone + 1)
  {
    hide Index;
    var e, sz := s.mem[f][Index(s.virt, lv)], Span(lv + 1);
    var mem := if e.present then s.mem[f := s.mem[f][Index(s.virt, lv) := EMPTY]] else s.mem;
    var next := State(mem, s.virt + sz, s.size - sz);
    forall n: nat ensures From(mapSize, f, lv, s0, gone + 1 + n) == From(mapSize, f, lv, next, n) {
      assert From(mapSize, f, lv, s0, gone + (n + 1)) == From(mapSize, f, lv, s, n + 1);
    }
  }

  /** The loop has ended. */
  lemma TracksEnd(mapSize: nat, f: Ref, lv: nat, s0: State, s: State, gone: nat, n: nat)
    requires Tracks(mapSize, f, lv, s0, s, gone)
    ensures Unmap(mapSize, s0.mem, f, s0.virt, s0.size, lv, gone + n) == Unmap(mapSize, s.mem, f, s.virt, s.size, lv, n)
  {
    assert From(mapSize, f, lv, s0, gone + n) == From(mapSize, f, lv, s, n);
  }

  lemma NothingLeft(mapSize: nat, f: Ref, lv: nat, s: State)
    requires s.size == 0
    ensures Unmap(mapSize, s.mem, f, s.virt, s.size, lv, 1) == Ended(Done, s.mem)
  {
  }

  /** What the last turn leads to. */
  lemma LastTurn(mapSize: nat, f: Ref, lv: nat, s: State, below: Outcome, turns: nat)
    requires lv <= 3 && f in s.mem && |s.mem[f]| == 512 && Index(s.virt, lv) < 512
    ensures var e := s.mem[f][Index(s.virt, lv)];
      && (s.size > 0 && !Shown(e.frame, mapSize) ==>
        Unmap(mapSize, s.mem, f, s.virt, s.size, lv, 1) == Ended(Panicked, s.mem))
      && (0 < s.size < Span(lv + 1) && Shown(e.frame, mapSize) ==>
        && (!e.present ==> Unmap(mapSize, s.mem, f, s.virt, s.size, lv, 1) == Ended(NoMapping, s.mem))
        && (e.present && e.large ==> Unmap(mapSize, s.mem, f, s.virt, s.size, lv, 1) == Ended(Panicked, s.mem))
        && (Pointer(e) && Unmap(mapSize, s.mem, Frame(e.frame), s.virt, s.size, lv + 1, turns) == below ==>
              Unmap(mapSize, s.mem, f, s.virt, s.size, lv, turns + 1) == below))
  {
    hide Index, Span;
  }

  /** Every pointer leads one level down. */
  ghost predicate Leveled(mem: map<Ref, seq<Entry>>, depth: map<Ref, nat>) {
    forall r :: r in depth ==> r in mem && |mem[r]| == 512 && PointersDown(mem[r], depth[r], depth)
  }

  ghost predicate PointersDown(entries: seq<Entry>, lv: nat, depth: map<Ref, nat>) {
    lv < 3 ==> forall i :: 0 <= i < |entries| && Pointer(entries[i]) ==>
      Frame(entries[i].frame) in depth && depth[Frame(entries[i].frame)] == lv + 1
  }

  /** The tables of a tree, by the level they are at. */
  ghost function Depths(t: Tree, huge: bool): map<Ref, nat>
    requires WellFormed(t, huge)
  {
    map p | p in t.dir :: t.dir[p] := p.lv
  }

  lemma TreeIsLeveled(t: Tree, huge: bool)
    requires WellFormed(t, huge)
    ensures Leveled(t.mem, Depths(t, huge))
  {
    var depth := Depths(t, huge);
    forall p | p in t.dir ensures PointersDown(t.mem[t.dir[p]], p.lv, depth) {
      forall i | 0 <= i < 512 && p.lv < 3 && Pointer(t.mem[t.dir[p]][i])
        ensures Frame(t.mem[t.dir[p]][i].frame) in depth && depth[Frame(t.mem[t.dir[p]][i].frame)] == p.lv + 1
      {
        var m := p.n * 512 + i;
        assert m / 512 == p.n && m % 512 == i;
        assert Pos(p.space, p.lv, m / 512) == p;
        assert EntryOk(t, huge, p.space, p.lv, m);
        var below := Pos(p.space, p.lv + 1, m);
        assert below in t.dir && t.dir[below] == Frame(t.mem[t.dir[p]][i].frame);
      }
    }
  }

  lemma ClearKeepsLeveled(mem: map<Ref, seq<Entry>>, depth: map<Ref, nat>, f: Ref, i: nat)
    requires Leveled(mem, depth) && f in depth && i < 512
    ensures Leveled(mem[f := mem[f][i := EMPTY]], depth)
  {
    assert PointersDown(mem[f], depth[f], depth);
    assert PointersDown(mem[f][i := EMPTY], depth[f], depth);
  }

  /** A call on a table changes no table above it. */
  lemma {:induction false} UnmapStaysBelow(mapSize: nat, mem: map<Ref, seq<Entry>>, depth: map<Ref, nat>, f: Ref,
                                           virt: nat, size: nat, lv: nat, turns: nat)
    requires Leveled(mem, depth) && f in depth && depth[f] == lv
    ensures var r := Unmap(mapSize, mem, f, virt, size, lv, turns);
      r.Ended? ==> Leveled(r.mem, depth) && forall g :: g in depth && depth[g] < lv ==> r.mem[g] == mem[g]
    decreases turns
  {
    hide Leveled, PointersDown, Index, Span;
    if turns != 0 && size != 0 && lv <= 3 {
      LeveledTable(mem, depth, f);
      var sz, i := Span(lv + 1), Index(virt, lv);
      IndexFits(virt, lv);
      var e := mem[f][i];
      if !Shown(e.frame, mapSize) {
        return;
      }
      if e.present && size >= sz && (e.large || lv == 3) {
        ClearKeepsLeveled(mem, depth, f, i);
        UnmapStaysBelow(mapSize, mem[f := mem[f][i := EMPTY]], depth, f, virt + sz, size - sz, lv, turns - 1);
      } else if e.present && !e.large && lv < 3 {
        LeveledPointer(mem, depth, f, i);
        UnmapStaysBelow(mapSize, mem, depth, Frame(e.frame), virt, size, lv + 1, turns - 1);
        var below := Unmap(mapSize, mem, Frame(e.frame), virt, size, lv + 1, turns - 1);
        if size >= sz && below.Ended? {
          UnmapStaysBelow(mapSize, below.mem, depth, f, virt, size, lv, turns - 1);
        }
      } else if !e.present && size >= sz {
        UnmapStaysBelow(mapSize, mem, depth, f, virt + sz, size - sz, lv, turns - 1);
      } else if e.present && !e.large && lv == 3 {
        PastTheLast(mapSize, mem, Frame(e.frame), virt, size, turns - 1);
      }
    }
  }

  lemma PastTheLast(mapSize: nat, mem: map<Ref, seq<Entry>>, f: Ref, virt: nat, size: nat, turns: nat)
    ensures var r := Unmap(mapSize, mem, f, virt, size, 4, turns); r.Ended? ==> r.mem == mem
  {
  }

  lemma IndexFits(virt: nat, lv: nat)
    requires lv <= 3
    ensures Index(virt, lv) < 512
  {
  }

  lemma LeveledTable(mem: map<Ref, seq<Entry>>, depth: map<Ref, nat>, f: Ref)
    requires Leveled(mem, depth) && f in depth
    ensures f in mem && |mem[f]| == 512
  {
  }

  lemma LeveledPointer(mem: map<Ref, seq<Entry>>, depth: map<Ref, nat>, f: Ref, i: nat)
    requires Leveled(mem, depth) && f in depth && i < 512 && f in mem && |mem[f]| == 512
    requires Pointer(mem[f][i]) && depth[f] < 3
    ensures Frame(mem[f][i].frame) in depth && depth[Frame(mem[f][i].frame)] == depth[f] + 1
  {
    assert PointersDown(mem[f], depth[f], depth);
  }

  /** A slot that points at a table, with a slot's size or more to go: after the recursive call the loop is
      back at the same slot, address and size, so however many turns it takes it never reports success. */
  lemma {:induction false} LoopComesBack(mapSize: nat, mem: map<Ref, seq<Entry>>, depth: map<Ref, nat>, f: Ref,
                                         virt: nat, size: nat, lv: nat, turns: nat)
    requires Leveled(mem, depth) && f in depth && depth[f] == lv < 3 && f in mem && |mem[f]| == 512
    requires size >= Span(lv + 1) && Index(virt, lv) < 512 && Pointer(mem[f][Index(virt, lv)])
    ensures var r := Unmap(mapSize, mem, f, virt, size, lv, turns); r.Ended? ==> r.status != Done
    decreases turns
  {
    hide Leveled, Index, Span;
    if turns != 0 && size != 0 {
      var e := mem[f][Index(virt, lv)];
      LeveledPointer(mem, depth, f, Index(virt, lv));
      UnmapStaysBelow(mapSize, mem, depth, Frame(e.frame), virt, size, lv + 1, turns - 1);
      var below := Unmap(mapSize, mem, Frame(e.frame), virt, size, lv + 1, turns - 1);
      if below.Ended? && below.status == Done {
        LeveledTable(below.mem, depth, f);
        assert below.mem[f] == mem[f];
        LoopComesBack(mapSize, below.mem, depth, f, virt, size, lv, turns - 1);
      }
    }
  }

  /** The same for the `k`-th slot of the range, in the table the range starts in. */
  lemma {:induction false} StallsAtLaterSlot(mapSize: nat, mem: map<Ref, seq<Entry>>, depth: map<Ref, nat>, f: Ref,
                                             virt: nat, size: nat, lv: nat, k: nat, turns: nat)
    requires Leveled(mem, depth) && f in depth && depth[f] == lv < 3 && f in mem && |mem[f]| == 512
    requires Index(virt, lv) + k < 512 && size >= (k + 1) * Span(lv + 1) && Pointer(mem[f][Index(virt, lv) + k])
    ensures var r := Unmap(mapSize, mem, f, virt, size, lv, turns); r.Ended? ==> r.status != Done
    decreases turns
  {
    hide Leveled, Index, Span;
    var sz, i := Span(lv + 1), Index(virt, lv);
    ManySlots(k, lv);
    if turns != 0 && !Pointer(mem[f][i]) && Shown(mem[f][i].frame, mapSize) {
      NextIndex(virt, lv, k);
      if mem[f][i].present {
        ClearKeepsLeveled(mem, depth, f, i);
        StallsAtLaterSlot(mapSize, mem[f := mem[f][i := EMPTY]], depth, f, virt + sz, size - sz, lv, k - 1, turns - 1);
      } else {
        StallsAtLaterSlot(mapSize, mem, depth, f, virt + sz, size - sz, lv, k - 1, turns - 1);
      }
    } else if turns != 0 && Pointer(mem[f][i]) {
      LoopComesBack(mapSize, mem, depth, f, virt, size, lv, turns);
    }
  }

  lemma ManySlots(k: nat, lv: nat)
    requires lv <= 3
    ensures (k + 1) * Span(lv + 1) >= Span(lv + 1)
    ensures k > 0 ==> (k + 1) * Span(lv + 1) - Span(lv + 1) == (k - 1 + 1) * Span(lv + 1)
  {
    if lv == 0 {} else if lv == 1 {} else if lv == 2 {} else {}
  }

  lemma NextIndex(virt: nat, lv: nat, k: nat)
    requires lv <= 3 && Index(virt, lv) + k < 512 && k > 0
    ensures Index(virt + Span(lv + 1), lv) == Index(virt, lv) + 1
  {
    LaterBlock(virt, lv + 1, 1);
  }

  /** So many blocks on. */
  lemma LaterBlock(virt: nat, k: nat, n: nat)
    requires k <= 4
    ensures Block(virt + n * Span(k), k) == Block(virt, k) + n
  {
    hide Block;
    BlockBounds(virt, k);
    Distributes(Block(virt, k), n, k);
    BlockUnique(virt + n * Span(k), k, Block(virt, k) + n);
  }

  lemma Distributes(a: nat, b: nat, k: nat)
    requires k <= 4
    ensures (a + b) * Span(k) == a * Span(k) + b * Span(k)
  {
    if k == 0 {} else if k == 1 {} else if k == 2 {} else if k == 3 {} else {}
  }

  // ----- A table of pages -----

  /** The `n` slots from `first` on, counted round the table. */
  predicate InTurn(first: nat, n: nat, i: nat) { (i - first) % 512 < n }

  /** The table with those of its slots cleared that hold something. */
  function ClearSlots(entries: seq<Entry>, first: nat, n: nat): (r: seq<Entry>)
    ensures |r| == |entries|
    ensures forall i :: 0 <= i < |r| ==> r[i] == if InTurn(first, n, i) && entries[i].present then EMPTY else entries[i]
  {
    seq(|entries|, i requires 0 <= i < |entries| =>
      if InTurn(first, n, i) && entries[i].present then EMPTY else entries[i])
  }

  lemma TurnSteps(first: nat, n: nat, i: nat)
    requires first < 512 && i < 512
    ensures InTurn(first, n + 1, i) <==> i == first || InTurn((first + 1) % 512, n, i) || n >= 512
  {
    var next := if first == 511 then 0 else first + 1;
    RoundBy(first + 1, next);
    RoundBy(i - first, if i < first then i - first + 512 else i - first);
    RoundBy(i - next, if i < next then i - next + 512 else i - next);
  }

  lemma RoundBy(x: int, r: nat)
    requires r < 512 && (x == r || x == r - 512 || x == r + 512)
    ensures x % 512 == r
  {
  }

  /** At the level of the pages the loop clears `n` slots round one table, whatever the range: it does not go on
      into the next table. */
  lemma {:induction false} LeafLoopClears(mapSize: nat, mem: map<Ref, seq<Entry>>, f: Ref, virt: nat, n: nat, lv: nat,
                                          turns: nat)
    requires lv <= 3 && f in mem && |mem[f]| == 512 && turns > n
    requires forall i :: 0 <= i < 512 && InTurn(Index(virt, lv), n, i) ==>
      Shown(mem[f][i].frame, mapSize) && (!Pointer(mem[f][i]) || lv == 3)
    ensures Unmap(mapSize, mem, f, virt, n * Span(lv + 1), lv, turns)
         == Ended(Done, mem[f := ClearSlots(mem[f], Index(virt, lv), n)])
    decreases n
  {
    hide Span, Index;
    IndexFits(virt, lv);
    var first, sz := Index(virt, lv), Span(lv + 1);
    if n == 0 {
      assert ClearSlots(mem[f], first, 0) == mem[f];
      NoPages(lv);
      assert mem[f := mem[f]] == mem;
    } else {
      NextSlotRound(virt, lv);
      FewerPages(n, lv);
      var now := if mem[f][first].present then mem[f][first := EMPTY] else mem[f];
      forall i | 0 <= i < 512
        ensures InTurn(first, n, i) <==> i == first || InTurn((first + 1) % 512, n - 1, i) || n > 512
      {
        TurnSteps(first, n - 1, i);
      }
      assert InTurn(first, n, first);
      LeafLoopClears(mapSize, mem[f := now], f, virt + sz, n - 1, lv, turns - 1);
      assert mem[f := now] == if mem[f][first].present then mem[f := mem[f][first := EMPTY]] else mem;
      ClearsOneMore(mem[f], now, first, n);
      assert mem[f := now][f := ClearSlots(now, (first + 1) % 512, n - 1)] == mem[f := ClearSlots(mem[f], first, n)];
    }
  }

  lemma NoPages(lv: nat)
    requires lv <= 3
    ensures 0 * Span(lv + 1) == 0
  {
  }

  lemma FewerPages(n: nat, lv: nat)
    requires lv <= 3 && n > 0
    ensures n * Span(lv + 1) >= Span(lv + 1) > 0 && n * Span(lv + 1) - Span(lv + 1) == (n - 1) * Span(lv + 1)
  {
    if lv == 0 {} else if lv == 1 {} else if lv == 2 {} else {}
  }

  /** The slot after the last one is the first one of the same table. */
  lemma NextSlotRound(virt: nat, lv: nat)
    requires lv <= 3
    ensures Index(virt + Span(lv + 1), lv) == (Index(virt, lv) + 1) % 512
  {
    LaterBlock(virt, lv + 1, 1);
  }

  lemma ClearsOneMore(entries: seq<Entry>, now: seq<Entry>, first: nat, n: nat)
    requires |entries| == 512 && first < 512 && n > 0
    requires now == if entries[first].present then entries[first := EMPTY] else entries
    ensures ClearSlots(now, (first + 1) % 512, n - 1) == ClearSlots(entries, first, n)
  {
    var a, b := ClearSlots(now, (first + 1) % 512, n - 1), ClearSlots(entries, first, n);
    forall i | 0 <= i < 512 ensures a[i] == b[i] {
      TurnSteps(first, n - 1, i);
      AllRound((first + 1) % 512, n - 1, i);
    }
  }

  lemma AllRound(first: nat, n: nat, i: nat)
    ensures n >= 512 ==> InTurn(first, n, i)
  {
  }

  // ----- In a tree -----

  /** In a tree: a call whose range holds a whole slot, of the table it starts in, that points at a table never
      reports success. */
  lemma UnmapNeverSucceeds(mapSize: nat, t: Tree, huge: bool, sp: nat, virt: nat, size: nat, lv: nat, k: nat,
                           turns: nat)
    requires WellFormed(t, huge) && lv < 3 && Reaches(t, sp, virt, lv)
    requires Index(virt, lv) + k < 512 && size >= (k + 1) * Span(lv + 1)
    requires Pointer(Met(t, sp, virt + k * Span(lv + 1), lv))
    ensures var r := Unmap(mapSize, t.mem, t.dir[Pos(sp, lv, Block(virt, lv))], virt, size, lv, turns);
      r.Ended? ==> r.status != Done
  {
    var p := Pos(sp, lv, Block(virt, lv));
    TreeIsLeveled(t, huge);
    var depth := Depths(t, huge);
    assert t.dir[p] in depth && depth[t.dir[p]] == lv;
    LaterSlot(virt, lv, k);
    StallsAtLaterSlot(mapSize, t.mem, depth, t.dir[p], virt, size, lv, k, turns);
  }

  lemma LaterSlot(virt: nat, lv: nat, k: nat)
    requires lv <= 3 && Index(virt, lv) + k < 512
    ensures var m := Block(virt + k * Span(lv + 1), lv + 1);
      m / 512 == Block(virt, lv) && m % 512 == Index(virt, lv) + k
  {
    BlockNest(virt, lv);
    LaterBlock(virt, lv + 1, k);
    hide Block, Span;
  }

  /** From the root: a range of at least a slot of level `lv`, whose start is in a slot of that level that points
      at a table, is never reported as unmapped. */
  lemma {:induction false} StallsFromRoot(mapSize: nat, t: Tree, huge: bool, sp: nat, virt: nat, size: nat, lv: nat,
                                          j: nat, turns: nat)
    requires WellFormed(t, huge) && j <= lv < 3 && Reaches(t, sp, virt, lv) && size >= Span(lv + 1)
    requires Pointer(Met(t, sp, virt, lv)) && Reaches(t, sp, virt, j)
    ensures var r := Unmap(mapSize, t.mem, t.dir[Pos(sp, j, Block(virt, j))], virt, size, j, turns);
      r.Ended? ==> r.status != Done
    decreases lv - j
  {
    PathAbove(t, huge, sp, virt, lv);
    PointerAt(t, huge, sp, virt, j);
    if size >= Span(j + 1) {
      TreeIsLeveled(t, huge);
      var f := t.dir[Pos(sp, j, Block(virt, j))];
      assert f in Depths(t, huge) && Depths(t, huge)[f] == j;
      hide WellFormed, EntryAt, Block, Span, Leveled;
      LoopComesBack(mapSize, t.mem, Depths(t, huge), f, virt, size, j, turns);
    } else if turns > 0 {
      hide WellFormed, EntryAt, Block, Span;
      StallsFromRoot(mapSize, t, huge, sp, virt, size, lv, j + 1, turns - 1);
    }
  }

  /** The slot of an address in the table that the walk reads, and the table below it. */
  lemma PointerAt(t: Tree, huge: bool, sp: nat, virt: nat, j: nat)
    requires WellFormed(t, huge) && j < 3 && Reaches(t, sp, virt, j) && Pointer(Met(t, sp, virt, j))
    ensures var f := t.dir[Pos(sp, j, Block(virt, j))];
      && f in t.mem && |t.mem[f]| == 512 && Index(virt, j) < 512 && t.mem[f][Index(virt, j)] == Met(t, sp, virt, j)
      && Reaches(t, sp, virt, j + 1)
      && t.dir[Pos(sp, j + 1, Block(virt, j + 1))] == Frame(Met(t, sp, virt, j).frame)
  {
    BlockNest(virt, j);
    assert EntryOk(t, huge, sp, j, Block(virt, j + 1));
  }
}
