/** Four-level page tables as values: tables in memory, where each one hangs in its tree, and what an
    address translates to. */
module Paging {
  import PageEntry

  const PAGE := PageEntry.PAGE_SIZE
  const FRAME_LIMIT := 0x100_0000_0000
  const VA_LIMIT := 0x1_0000_0000_0000
  const HALF := 0x8000_0000_0000

  datatype Option<T> = None | Some(value: T)

  /** The bytes one table at level `k` covers; a slot of a level-k table covers Span(k + 1). */
  function Span(k: nat): (s: nat)
    requires k <= 4
    ensures 0 < s
  {
    if k == 0 then 0x1_0000_0000_0000
    else if k == 1 then 0x80_0000_0000
    else if k == 2 then 0x4000_0000
    else if k == 3 then 0x20_0000
    else 0x1000
  }

  /** The number of the Span(k)-sized block that holds the address. */
  function Block(va: nat, k: nat): nat
    requires k <= 4
  {
    va / Span(k)
  }

  /** The table index the walk uses at level `lv`: the address masked and shifted. */
  function Index(va: nat, lv: nat): nat
    requires lv <= 3
  {
    Block(va, lv + 1) % 512
  }

  /** WRITE, USER and NOEXEC, and the number that WRITETHROUGH and CACHEDISABLE make. */
  datatype Flags = Flags(write: bool, user: bool, noExec: bool, cacheBits: nat)

  /** A page-table entry: the frame number in its address field, PRESENT, LARGEPAGE, and the other bits. */
  datatype Entry = Entry(frame: nat, present: bool, large: bool, flags: Flags)

  const EMPTY := Entry(0, false, false, Flags(false, false, false, 0))
  const TABLE_FLAGS := Flags(true, true, false, 0)

  /** The permissions a mapping call is given, one field a bit. */
  datatype Perms = Perms(write: bool, exec: bool, user: bool, writeThrough: bool, uncached: bool, writeComplete: bool)

  /** The bits that vmem_map_st writes for them; WRITEBACK is none. */
  function FlagsOf(p: Perms): Flags {
    var cacheBits := if p.writeThrough then 1 else if p.uncached then 2 else if p.writeComplete then 3 else 0;
    Flags(p.write, p.user, !p.exec, cacheBits)
  }

  /** A table: the root of an address space, or a frame of physical memory. */
  datatype Ref = Root(space: nat) | Frame(n: nat)

  /** The place of a table: address space, level, and which Span(lv)-sized block it covers. */
  datatype Pos = Pos(space: nat, lv: nat, n: nat)

  /** The tables in memory, and the directory of which table is in which place. */
  datatype Tree = Tree(mem: map<Ref, seq<Entry>>, dir: map<Pos, Ref>)

  /** Entry `m` of all the slots at level `lv`, or the empty entry where there is no table. */
  ghost function EntryAt(t: Tree, sp: nat, lv: nat, m: nat): Entry {
    var p := Pos(sp, lv, m / 512);
    if p in t.dir && t.dir[p] in t.mem && |t.mem[t.dir[p]]| == 512 then t.mem[t.dir[p]][m % 512] else EMPTY
  }

  /** The entry the walk of an address meets at level `lv`. */
  ghost function Met(t: Tree, sp: nat, va: nat, lv: nat): Entry
    requires lv <= 3
  {
    EntryAt(t, sp, lv, Block(va, lv + 1))
  }

  /** The table the walk of an address reads at level `lv` is there. */
  ghost predicate Reaches(t: Tree, sp: nat, va: nat, lv: nat)
    requires lv <= 3
  {
    Pos(sp, lv, Block(va, lv)) in t.dir
  }

  predicate LargeAvail(lv: nat, huge: bool) { lv == 2 || lv == 3 || (lv == 1 && huge) }

  /** An entry is empty, a leaf, or points at the one table whose place is below it. */
  ghost predicate EntryOk(t: Tree, huge: bool, sp: nat, lv: nat, m: nat) {
    var e, below := EntryAt(t, sp, lv, m), Pos(sp, lv + 1, m);
    && (!e.present ==> e == EMPTY)
    && (e.large ==> lv < 3 && LargeAvail(lv, huge))
    && e.frame < FRAME_LIMIT
    && (lv < 3 ==> (below in t.dir <==> e.present && !e.large))
    && (lv < 3 && below in t.dir ==> t.dir[below] == Frame(e.frame) && e.flags == TABLE_FLAGS)
  }

  /** Every table is in one place and every place holds one table, so each table has one parent slot and
      no frame is shared. */
  ghost predicate WellFormed(t: Tree, huge: bool) {
    && (forall r :: r in t.mem ==> |t.mem[r]| == 512)
    && (forall p :: p in t.dir ==> t.dir[p] in t.mem && p.lv <= 3)
    && (forall p :: p in t.dir && p.lv == 0 ==> p.n == 0 && t.dir[p] == Root(p.space))
    && (forall p :: p in t.dir && t.dir[p].Frame? ==> 0 < t.dir[p].n < FRAME_LIMIT)
    && (forall p, q :: p in t.dir && q in t.dir && t.dir[p] == t.dir[q] ==> p == q)
    && (forall sp, lv, m :: EntryOk(t, huge, sp, lv, m))
  }

  /** vmem_phystovirt shows the frame: all of it lies below 2GiB, or in the physical map once that has a size. */
  predicate Shown(frame: nat, mapSize: nat) {
    frame * PAGE + PAGE < 0x8000_0000 || frame * PAGE + PAGE < mapSize
  }

  // ----- Translation -----

  /** Follows the tables in memory from table `r`, as the processor does. */
  function Walk(mem: map<Ref, seq<Entry>>, huge: bool, r: Ref, va: nat, lv: nat): Option<nat>
    requires lv <= 3
    decreases 3 - lv
  {
    if r !in mem || |mem[r]| != 512 then None
    else
      var e := mem[r][Index(va, lv)];
      if !e.present then None
      else if e.large && LargeAvail(lv, huge) then Some(e.frame * PAGE + va % Span(lv + 1))
      else if lv == 3 then Some(e.frame * PAGE + va % Span(lv + 1))
      else Walk(mem, huge, Frame(e.frame), va, lv + 1)
  }

  /** The same by places instead of pointers: the flat map the tree stands for. */
  ghost function Look(t: Tree, sp: nat, va: nat, lv: nat): Option<nat>
    requires lv <= 3
    decreases 3 - lv
  {
    var e := Met(t, sp, va, lv);
    if !e.present then None
    else if e.large || lv == 3 then Some(e.frame * PAGE + va % Span(lv + 1))
    else Look(t, sp, va, lv + 1)
  }

  /** What a mapping with leaves at level `leaf` would meet at the address: nothing in the way, a larger
      leaf at some level above, or an entry in its own slot. */
  datatype Seen = Open | Larger(e: Entry, at: nat) | Taken(e: Entry)

  ghost function See(t: Tree, sp: nat, va: nat, leaf: nat, lv: nat): Seen
    requires lv <= leaf <= 3
    decreases leaf - lv
  {
    var e := Met(t, sp, va, lv);
    if !e.present then Open
    else if lv == leaf then Taken(e)
    else if e.large then Larger(e, lv)
    else See(t, sp, va, leaf, lv + 1)
  }

  // ----- Block arithmetic -----

  lemma BlockNest(va: nat, k: nat)
    requires k <= 3
    ensures Block(va, k + 1) / 512 == Block(va, k)
    ensures Block(va, k) * 512 <= Block(va, k + 1) < Block(va, k) * 512 + 512
  {
    if k == 0 {} else if k == 1 {} else if k == 2 {} else {}
  }

  lemma BlockBounds(va: nat, k: nat)
    requires k <= 4
    ensures Block(va, k) * Span(k) <= va < Block(va, k) * Span(k) + Span(k)
    ensures va % Span(k) == va - Block(va, k) * Span(k)
  {
    if k == 0 {} else if k == 1 {} else if k == 2 {} else if k == 3 {} else {}
  }

  lemma BlockUnique(va: nat, k: nat, n: nat)
    requires k <= 4 && n * Span(k) <= va < n * Span(k) + Span(k)
    ensures Block(va, k) == n
  {
    if k == 0 {} else if k == 1 {} else if k == 2 {} else if k == 3 {} else {}
  }

  // ----- Walking down the tree -----

  /** If the table of an address at some level is there, so are the pointers to it. */
  lemma {:induction false} PathAbove(t: Tree, huge: bool, sp: nat, va: nat, k: nat)
    requires WellFormed(t, huge) && k <= 3 && Reaches(t, sp, va, k)
    ensures forall j :: 0 <= j < k ==> Reaches(t, sp, va, j) && Met(t, sp, va, j).present && !Met(t, sp, va, j).large
    decreases k
  {
    if k > 0 {
      assert EntryOk(t, huge, sp, k - 1, Block(va, k));
      BlockNest(va, k - 1);
      PathAbove(t, huge, sp, va, k - 1);
    }
  }

  /** A look or a probe may start at any level whose table is there. */
  lemma {:induction false} LookFrom(t: Tree, huge: bool, sp: nat, va: nat, leaf: nat, k: nat)
    requires WellFormed(t, huge) && k <= leaf <= 3 && Reaches(t, sp, va, k)
    ensures Look(t, sp, va, 0) == Look(t, sp, va, k)
    ensures See(t, sp, va, leaf, 0) == See(t, sp, va, leaf, k)
    decreases k
  {
    if k > 0 {
      PathAbove(t, huge, sp, va, k);
      LookFrom(t, huge, sp, va, leaf, k - 1);
    }
  }

  /** Following pointers and following places agree: the software walk reads the flat map. */
  lemma {:induction false} WalkIsLook(t: Tree, huge: bool, sp: nat, va: nat, lv: nat)
    requires WellFormed(t, huge) && lv <= 3 && Reaches(t, sp, va, lv)
    ensures Walk(t.mem, huge, t.dir[Pos(sp, lv, Block(va, lv))], va, lv) == Look(t, sp, va, lv)
    decreases 3 - lv
  {
    var m := Block(va, lv + 1);
    BlockNest(va, lv);
    assert EntryOk(t, huge, sp, lv, m);
    var e := EntryAt(t, sp, lv, m);
    if e.present && !e.large && lv < 3 {
      WalkIsLook(t, huge, sp, va, lv + 1);
    }
  }

  /** Where no table is, nothing below is either. */
  lemma {:induction false} NothingBelow(t: Tree, huge: bool, sp: nat, va: nat, k: nat)
    requires WellFormed(t, huge) && k <= 3 && !Reaches(t, sp, va, k)
    ensures forall j :: k <= j <= 3 ==> Met(t, sp, va, j) == EMPTY
    decreases 3 - k
  {
    BlockNest(va, k);
    if k < 3 {
      assert EntryOk(t, huge, sp, k, Block(va, k + 1));
      NothingBelow(t, huge, sp, va, k + 1);
    }
  }
}
