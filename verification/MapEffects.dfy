/** The two writes that mapping makes to a tree, and their effect on the flat map. */
module MapEffects {
  import opened Paging

  /** The slot holds a page, not a pointer to a table. */
  predicate TakenByPage(s: Seen, leaf: nat) { s.Taken? && (s.e.large || leaf == 3) }

  /** A large page at physical address 0 is in the way: its entry has a zero address field, which the code
      takes for an absent table. */
  predicate ZeroPage(s: Seen) { s.Larger? && s.e.frame == 0 }

  /** The code finds room: nothing is in the way, or it does not see what is. */
  predicate Passable(s: Seen) { s.Open? || ZeroPage(s) }

  /** What a mapping is about: the space, the distance from virtual to physical addresses, the level of its pages
      and the bits they get. */
  datatype Job = Job(sp: nat, off: int, leaf: nat, flags: Flags)

  /** Where an address of a mapped page is translated to: the page's physical address, cut to the 52 bits of
      an entry, and the offset in the page. */
  function Target(j: Job, va: nat): nat
    requires j.leaf <= 3
  {
    (j.off + va - va % Span(j.leaf + 1)) / PAGE % FRAME_LIMIT * PAGE + va % Span(j.leaf + 1)
  }

  /** Some address of the set is in the same Span(k)-sized block. */
  ghost predicate Near(hit: iset<nat>, va: nat, k: nat)
    requires k <= 4
  {
    exists w: nat :: w in hit && Block(w, k) == Block(va, k)
  }

  /** The address lies under a page at physical 0 that some visited address lies under. */
  ghost predicate Struck(s: Seen, hit: iset<nat>, va: nat) {
    ZeroPage(s) && s.at <= 3 && Near(hit, va, s.at + 1)
  }

  /** What a mapping that visits the addresses `hit` and maps `got` of them does to one address: a mapped one
      was free for the code; one under the same page at physical 0 as a visited one loses its translation;
      every other one, and every address of another space, stays as it was. */
  ghost predicate Effect(t: Tree, t': Tree, j: Job, got: iset<nat>, hit: iset<nat>, s: nat, va: nat)
    requires j.leaf <= 3
  {
    var was, now := See(t, s, va, j.leaf, 0), See(t', s, va, j.leaf, 0);
    if s == j.sp && va in got then
      && Look(t', s, va, 0) == Some(Target(j, va)) && Passable(was)
      && TakenByPage(now, j.leaf) && now.e.flags == j.flags
    else if s == j.sp && Struck(was, hit, va) then Look(t', s, va, 0) == None && now.Open?
    else Look(t', s, va, 0) == Look(t, s, va, 0) && now == was
  }

  /** `t'` is `t` after a mapping that visits `hit` and maps `got`. */
  ghost predicate Overlay(t: Tree, t': Tree, j: Job, got: iset<nat>, hit: iset<nat>) {
    && j.leaf <= 3 && got <= hit
    && (forall s: nat, va: nat :: Effect(t, t', j, got, hit, s, va))
    && Extends(t, t', j.sp)
  }

  /** Tables stay where they are, and the roots of other spaces are untouched. */
  ghost predicate Extends(t: Tree, t': Tree, sp: nat) {
    && (forall p :: p in t.dir ==> p in t'.dir && t'.dir[p] == t.dir[p])
    && (forall r :: r in t.mem ==> r in t'.mem)
    && (forall r :: r in t.mem && r.Root? && r != Root(sp) ==> t'.mem[r] == t.mem[r])
  }

  lemma OverlayNothing(t: Tree, j: Job)
    requires j.leaf <= 3
    ensures Overlay(t, t, j, iset{}, iset{})
  {
    hide Look, See;
  }

  /** One mapping and then another amount to a mapping of what both map, visiting what both visit. */
  lemma OverlayThen(t: Tree, u: Tree, v: Tree, j: Job, got: iset<nat>, hit: iset<nat>, got': iset<nat>, hit': iset<nat>)
    requires Overlay(t, u, j, got, hit) && Overlay(u, v, j, got', hit')
    ensures Overlay(t, v, j, got + got', hit + hit')
  {
    hide Look, See, Effect;
    forall s: nat, va: nat ensures Effect(t, v, j, got + got', hit + hit', s, va) {
      assert Effect(t, u, j, got, hit, s, va) && Effect(u, v, j, got', hit', s, va);
      EffectThen(t, u, v, j, got, hit, got', hit', s, va);
    }
  }

  lemma EffectThen(t: Tree, u: Tree, v: Tree, j: Job, got: iset<nat>, hit: iset<nat>, got': iset<nat>,
                   hit': iset<nat>, s: nat, va: nat)
    requires j.leaf <= 3 && Effect(t, u, j, got, hit, s, va) && Effect(u, v, j, got', hit', s, va)
    ensures Effect(t, v, j, got + got', hit + hit', s, va)
  {
    hide Look, See, Target, Near;
    var was := See(t, s, va, j.leaf, 0);
    if ZeroPage(was) && was.at <= 3 {
      NearEither(hit, hit', va, was.at + 1);
    }
  }

  lemma NearEither(hit: iset<nat>, hit': iset<nat>, va: nat, k: nat)
    requires k <= 4
    ensures Near(hit + hit', va, k) <==> Near(hit, va, k) || Near(hit', va, k)
  {
    if w: nat :| w in hit && Block(w, k) == Block(va, k) {
      assert w in hit + hit';
    }
    if w: nat :| w in hit' && Block(w, k) == Block(va, k) {
      assert w in hit + hit';
    }
  }

  // ----- One changed slot -----

  /** `t'` has entry `e` in slot (sp, lv, m) and agrees with `t` on every other slot. */
  ghost predicate OnlySlot(t: Tree, t': Tree, sp: nat, lv: nat, m: nat, e: Entry) {
    forall s, l, k :: EntryAt(t', s, l, k) == if s == sp && l == lv && k == m then e else EntryAt(t, s, l, k)
  }

  lemma {:induction false} SameOnPath(t: Tree, t': Tree, sp: nat, va: nat, leaf: nat, lv: nat)
    requires lv <= leaf <= 3
    requires forall j :: lv <= j <= 3 ==> Met(t', sp, va, j) == Met(t, sp, va, j)
    ensures Look(t', sp, va, lv) == Look(t, sp, va, lv) && See(t', sp, va, leaf, lv) == See(t, sp, va, leaf, lv)
    decreases 3 - lv
  {
    assert Met(t', sp, va, lv) == Met(t, sp, va, lv);
    if lv < leaf {
      SameOnPath(t, t', sp, va, leaf, lv + 1);
    } else if lv < 3 {
      SameLook(t, t', sp, va, lv + 1);
    }
  }

  lemma {:induction false} SameLook(t: Tree, t': Tree, sp: nat, va: nat, lv: nat)
    requires lv <= 3
    requires forall j :: lv <= j <= 3 ==> Met(t', sp, va, j) == Met(t, sp, va, j)
    ensures Look(t', sp, va, lv) == Look(t, sp, va, lv)
    decreases 3 - lv
  {
    assert Met(t', sp, va, lv) == Met(t, sp, va, lv);
    if lv < 3 {
      SameLook(t, t', sp, va, lv + 1);
    }
  }

  lemma OffPath(t: Tree, t': Tree, sp: nat, lv: nat, m: nat, e: Entry, s: nat, va: nat, leaf: nat)
    requires lv <= 3 && leaf <= 3 && OnlySlot(t, t', sp, lv, m, e)
    requires s != sp || Block(va, lv + 1) != m
    ensures Look(t', s, va, 0) == Look(t, s, va, 0) && See(t', s, va, leaf, 0) == See(t, s, va, leaf, 0)
  {
    hide EntryAt, Look, See, Block;
    forall j | 0 <= j <= 3 ensures Met(t', s, va, j) == Met(t, s, va, j) {
    }
    SameOnPath(t, t', s, va, leaf, 0);
  }

  /** The larger page that is in the way of an address is met at its level. */
  lemma {:induction false} LargerIsMet(t: Tree, sp: nat, va: nat, leaf: nat, lv: nat)
    requires lv <= leaf <= 3 && See(t, sp, va, leaf, lv).Larger?
    ensures var s := See(t, sp, va, leaf, lv);
      lv <= s.at < leaf && Met(t, sp, va, s.at) == s.e && s.e.present && s.e.large
    decreases leaf - lv
  {
    if lv < leaf && !Met(t, sp, va, lv).large {
      LargerIsMet(t, sp, va, leaf, lv + 1);
    }
  }

  /** An address and another one in the same block below a page at physical 0 meet the same page there. */
  lemma StruckMeets(t: Tree, sp: nat, va: nat, leaf: nat, hit: iset<nat>) returns (w: nat)
    requires leaf <= 3 && Struck(See(t, sp, va, leaf, 0), hit, va)
    ensures var s := See(t, sp, va, leaf, 0);
      s.at < leaf && w in hit && Block(w, s.at + 1) == Block(va, s.at + 1) && Met(t, sp, w, s.at) == s.e && s.e.large
      && s.e.present
  {
    LargerIsMet(t, sp, va, leaf, 0);
    var s := See(t, sp, va, leaf, 0);
    w :| w in hit && Block(w, s.at + 1) == Block(va, s.at + 1);
  }

  // ----- Writing a leaf -----

  /** The tree after storing `e` in slot (sp, lv, m), whose table is there. */
  function Store(t: Tree, sp: nat, lv: nat, m: nat, e: Entry): Tree
    requires Pos(sp, lv, m / 512) in t.dir && t.dir[Pos(sp, lv, m / 512)] in t.mem
    requires |t.mem[t.dir[Pos(sp, lv, m / 512)]]| == 512
  {
    var r := t.dir[Pos(sp, lv, m / 512)];
    t.(mem := t.mem[r := t.mem[r][m % 512 := e]])
  }

  lemma StoreOnlySlot(t: Tree, huge: bool, sp: nat, lv: nat, m: nat, e: Entry)
    requires WellFormed(t, huge) && Pos(sp, lv, m / 512) in t.dir
    ensures OnlySlot(t, Store(t, sp, lv, m, e), sp, lv, m, e)
  {
    hide EntryOk;
    var t' := Store(t, sp, lv, m, e);
    forall s: nat, l: nat, k: nat
      ensures EntryAt(t', s, l, k) == if s == sp && l == lv && k == m then e else EntryAt(t, s, l, k)
    {
      var p, q := Pos(s, l, k / 512), Pos(sp, lv, m / 512);
      if p in t.dir && t.dir[p] == t.dir[q] {
        assert p == q;
        SameSlot(k, m);
      }
    }
  }

  lemma SameSlot(k: nat, m: nat)
    ensures k / 512 == m / 512 && k % 512 == m % 512 ==> k == m
  {
  }

  ghost predicate IsLeaf(e: Entry, lv: nat, huge: bool) {
    && e.present && e.frame < FRAME_LIMIT && 1 <= lv <= 3 && LargeAvail(lv, huge)
    && (e.large <==> lv < 3)
  }

  lemma StoreKeepsWellFormed(t: Tree, huge: bool, sp: nat, lv: nat, m: nat, e: Entry)
    requires WellFormed(t, huge) && Pos(sp, lv, m / 512) in t.dir
    requires IsLeaf(e, lv, huge) && EntryAt(t, sp, lv, m) == EMPTY
    ensures WellFormed(Store(t, sp, lv, m, e), huge)
  {
    var t' := Store(t, sp, lv, m, e);
    StoreOnlySlot(t, huge, sp, lv, m, e);
    hide EntryAt;
    forall s: nat, l: nat, k: nat ensures EntryOk(t', huge, s, l, k) {
      assert EntryOk(t, huge, s, l, k);
      assert EntryAt(t', s, l, k) == if s == sp && l == lv && k == m then e else EntryAt(t, s, l, k);
    }
  }

  /** The addresses of one Span(k)-sized block. */
  ghost function BlockSet(m: nat, k: nat): iset<nat>
    requires k <= 4
  {
    iset va: nat | Block(va, k) == m
  }

  /** A leaf written to a free slot maps exactly the block of addresses of that slot. */
  lemma LeafMapsItsBlock(t: Tree, huge: bool, j: Job, m: nat, e: Entry)
    requires j.leaf <= 3 && WellFormed(t, huge) && Pos(j.sp, j.leaf, m / 512) in t.dir
    requires IsLeaf(e, j.leaf, huge) && EntryAt(t, j.sp, j.leaf, m) == EMPTY
    requires e.frame == (j.off + m * Span(j.leaf + 1)) / PAGE % FRAME_LIMIT && e.flags == j.flags
    ensures WellFormed(Store(t, j.sp, j.leaf, m, e), huge)
    ensures Overlay(t, Store(t, j.sp, j.leaf, m, e), j, BlockSet(m, j.leaf + 1), BlockSet(m, j.leaf + 1))
  {
    var t' := Store(t, j.sp, j.leaf, m, e);
    StoreOnlySlot(t, huge, j.sp, j.leaf, m, e);
    StoreKeepsWellFormed(t, huge, j.sp, j.leaf, m, e);
    StoreFrames(t, huge, j.sp, j.leaf, m, e);
    hide EntryAt, WellFormed, Look, See, OnlySlot, Store, Effect, Block, BlockSet;
    var block := BlockSet(m, j.leaf + 1);
    forall s: nat, va: nat ensures Effect(t, t', j, block, block, s, va) {
      LeafAt(t, t', huge, j, m, e, s, va);
    }
  }

  lemma StoreFrames(t: Tree, huge: bool, sp: nat, lv: nat, m: nat, e: Entry)
    requires WellFormed(t, huge) && Pos(sp, lv, m / 512) in t.dir
    ensures Store(t, sp, lv, m, e).dir == t.dir && Store(t, sp, lv, m, e).mem.Keys == t.mem.Keys
    ensures Extends(t, Store(t, sp, lv, m, e), sp)
  {
    PlaceKind(t, huge, Pos(sp, lv, m / 512));
    hide EntryOk;
  }

  /** Roots stand at the top of their own space, and frames everywhere below. */
  lemma PlaceKind(t: Tree, huge: bool, p: Pos)
    requires WellFormed(t, huge) && p in t.dir
    ensures if p.lv == 0 then t.dir[p] == Root(p.space) else t.dir[p].Frame?
  {
    if p.lv > 0 {
      assert EntryOk(t, huge, p.space, p.lv - 1, p.n);
    }
  }

  lemma LeafAt(t: Tree, t': Tree, huge: bool, j: Job, m: nat, e: Entry, s: nat, va: nat)
    requires j.leaf <= 3 && WellFormed(t, huge) && WellFormed(t', huge) && t'.dir == t.dir
    requires Pos(j.sp, j.leaf, m / 512) in t.dir && OnlySlot(t, t', j.sp, j.leaf, m, e)
    requires IsLeaf(e, j.leaf, huge) && EntryAt(t, j.sp, j.leaf, m) == EMPTY
    requires e.frame == (j.off + m * Span(j.leaf + 1)) / PAGE % FRAME_LIMIT && e.flags == j.flags
    ensures Effect(t, t', j, BlockSet(m, j.leaf + 1), BlockSet(m, j.leaf + 1), s, va)
  {
    hide WellFormed, EntryAt, Block;
    var sp, lv := j.sp, j.leaf;
    BlockBounds(va, lv + 1);
    if s == sp && Block(va, lv + 1) == m {
      BlockNest(va, lv);
      LookFrom(t, huge, sp, va, lv, lv);
      LookFrom(t', huge, sp, va, lv, lv);
      assert Met(t', sp, va, lv) == e && Met(t, sp, va, lv) == EMPTY;
    } else {
      OffPath(t, t', sp, lv, m, e, s, va, lv);
      if s == sp && Struck(See(t, sp, va, lv, 0), BlockSet(m, lv + 1), va) {
        var w := StruckMeets(t, sp, va, lv, BlockSet(m, lv + 1));
        BlockNest(w, lv);
        PathAbove(t, huge, sp, w, lv);
        assert false;
      }
    }
  }

  // ----- Hanging a new table -----

  function NewTable(): (s: seq<Entry>)
    ensures |s| == 512 && forall i :: 0 <= i < 512 ==> s[i] == EMPTY
  {
    seq(512, _ => EMPTY)
  }

  /** The tree after hanging the cleared frame `x` below slot (sp, lv, m). */
  function Hang(t: Tree, sp: nat, lv: nat, m: nat, x: nat): Tree
    requires Pos(sp, lv, m / 512) in t.dir && t.dir[Pos(sp, lv, m / 512)] in t.mem
    requires |t.mem[t.dir[Pos(sp, lv, m / 512)]]| == 512
    requires Frame(x) !in t.mem
  {
    var r := t.dir[Pos(sp, lv, m / 512)];
    Tree(t.mem[Frame(x) := NewTable()][r := t.mem[r][m % 512 := Entry(x, true, false, TABLE_FLAGS)]],
         t.dir[Pos(sp, lv + 1, m) := Frame(x)])
  }

  /** The slot has room for a table, or seems to. */
  predicate Hangable(e: Entry) { e == EMPTY || e.large }

  lemma HangOnlySlot(t: Tree, huge: bool, sp: nat, lv: nat, m: nat, x: nat)
    requires WellFormed(t, huge) && Pos(sp, lv, m / 512) in t.dir && lv < 3
    requires Frame(x) !in t.mem && Hangable(EntryAt(t, sp, lv, m))
    ensures OnlySlot(t, Hang(t, sp, lv, m, x), sp, lv, m, Entry(x, true, false, TABLE_FLAGS))
  {
    var t', e := Hang(t, sp, lv, m, x), Entry(x, true, false, TABLE_FLAGS);
    var q := Pos(sp, lv, m / 512);
    assert EntryOk(t, huge, sp, lv, m);
    hide EntryOk;
    forall s: nat, l: nat, k: nat
      ensures EntryAt(t', s, l, k) == if s == sp && l == lv && k == m then e else EntryAt(t, s, l, k)
    {
      var p := Pos(s, l, k / 512);
      if p in t.dir {
        assert t'.dir[p] == t.dir[p] != Frame(x);
        if t.dir[p] == t.dir[q] {
          assert p == q;
          SameSlot(k, m);
        }
      }
    }
  }

  lemma HangKeepsEntries(t: Tree, huge: bool, sp: nat, lv: nat, m: nat, x: nat, s: nat, l: nat, k: nat)
    requires WellFormed(t, huge) && Pos(sp, lv, m / 512) in t.dir && lv < 3
    requires Frame(x) !in t.mem && Hangable(EntryAt(t, sp, lv, m)) && 0 < x < FRAME_LIMIT
    ensures EntryOk(Hang(t, sp, lv, m, x), huge, s, l, k)
  {
    var t', e := Hang(t, sp, lv, m, x), Entry(x, true, false, TABLE_FLAGS);
    HangOnlySlot(t, huge, sp, lv, m, x);
    assert EntryAt(t', s, l, k) == if s == sp && l == lv && k == m then e else EntryAt(t, s, l, k);
    assert EntryOk(t, huge, s, l, k);
    hide EntryAt, WellFormed, OnlySlot;
  }

  lemma HangKeepsWellFormed(t: Tree, huge: bool, sp: nat, lv: nat, m: nat, x: nat)
    requires WellFormed(t, huge) && Pos(sp, lv, m / 512) in t.dir && lv < 3
    requires Frame(x) !in t.mem && Hangable(EntryAt(t, sp, lv, m)) && 0 < x < FRAME_LIMIT
    ensures WellFormed(Hang(t, sp, lv, m, x), huge)
  {
    var t' := Hang(t, sp, lv, m, x);
    forall s: nat, l: nat, k: nat ensures EntryOk(t', huge, s, l, k) {
      HangKeepsEntries(t, huge, sp, lv, m, x, s, l, k);
    }
    hide EntryAt, EntryOk;
  }

  /** Hanging an empty table above the leaf level, on the way to `at`, maps nothing. In a free slot it
      changes nothing at all; over a page at physical 0 it takes away that page's translations. */
  lemma HangMapsNothing(t: Tree, huge: bool, j: Job, lv: nat, at: nat, x: nat)
    requires WellFormed(t, huge) && lv < j.leaf <= 3 && Reaches(t, j.sp, at, lv)
    requires Frame(x) !in t.mem && 0 < x < FRAME_LIMIT && Met(t, j.sp, at, lv).frame == 0
    ensures var m := Block(at, lv + 1);
      && Pos(j.sp, lv, m / 512) in t.dir && t.dir[Pos(j.sp, lv, m / 512)] in t.mem
      && |t.mem[t.dir[Pos(j.sp, lv, m / 512)]]| == 512
      && WellFormed(Hang(t, j.sp, lv, m, x), huge)
      && Overlay(t, Hang(t, j.sp, lv, m, x), j, iset{}, iset{at})
      && See(Hang(t, j.sp, lv, m, x), j.sp, at, j.leaf, 0).Open?
      && Extends(t, Hang(t, j.sp, lv, m, x), j.sp)
      && Hang(t, j.sp, lv, m, x).dir[Pos(j.sp, lv + 1, m)] == Frame(x)
      && Hang(t, j.sp, lv, m, x).mem.Keys == t.mem.Keys + {Frame(x)}
  {
    var m, e := Block(at, lv + 1), Entry(x, true, false, TABLE_FLAGS);
    BlockNest(at, lv);
    ZeroFieldIsHangable(t, huge, j.sp, lv, m);
    HangOnlySlot(t, huge, j.sp, lv, m, x);
    HangKeepsWellFormed(t, huge, j.sp, lv, m, x);
    HangFrames(t, huge, j.sp, lv, m, x);
    var t' := Hang(t, j.sp, lv, m, x);
    hide EntryAt, WellFormed, Look, See, OnlySlot, Hang, Effect, Block;
    forall s: nat, va: nat ensures Effect(t, t', j, iset{}, iset{at}, s, va) {
      HangAt(t, t', huge, j, lv, at, e, s, va);
    }
    HangAt(t, t', huge, j, lv, at, e, j.sp, at);
  }

  lemma ZeroFieldIsHangable(t: Tree, huge: bool, sp: nat, lv: nat, m: nat)
    requires WellFormed(t, huge) && lv < 3 && EntryAt(t, sp, lv, m).frame == 0
    ensures Hangable(EntryAt(t, sp, lv, m))
  {
    assert EntryOk(t, huge, sp, lv, m);
  }

  lemma HangFrames(t: Tree, huge: bool, sp: nat, lv: nat, m: nat, x: nat)
    requires WellFormed(t, huge) && Pos(sp, lv, m / 512) in t.dir && lv < 3
    requires Frame(x) !in t.mem && Hangable(EntryAt(t, sp, lv, m))
    ensures var t' := Hang(t, sp, lv, m, x);
      && Extends(t, t', sp)
      && Pos(sp, lv + 1, m) !in t.dir && t'.dir[Pos(sp, lv + 1, m)] == Frame(x)
      && t'.mem.Keys == t.mem.Keys + {Frame(x)}
  {
    PlaceKind(t, huge, Pos(sp, lv, m / 512));
    assert EntryOk(t, huge, sp, lv, m);
    hide EntryOk;
  }

  /** The addresses of the slot: whatever it held, they are open and untranslated once an empty table hangs
      there. */
  lemma HangInSlot(t: Tree, t': Tree, huge: bool, sp: nat, leaf: nat, lv: nat, va: nat, e: Entry)
    requires WellFormed(t, huge) && WellFormed(t', huge) && lv < leaf <= 3 && Reaches(t, sp, va, lv)
    requires forall p :: p in t.dir ==> p in t'.dir
    requires OnlySlot(t, t', sp, lv, Block(va, lv + 1), e) && e.present && !e.large
    requires Hangable(Met(t, sp, va, lv))
    ensures Look(t', sp, va, 0) == None && See(t', sp, va, leaf, 0).Open?
    ensures var s := See(t, sp, va, leaf, 0);
      if Met(t, sp, va, lv) == EMPTY then s.Open? && Look(t, sp, va, 0) == None
      else s == Larger(Met(t, sp, va, lv), lv)
  {
    BlockNest(va, lv);
    assert EntryOk(t, huge, sp, lv, Block(va, lv + 1));
    hide WellFormed, EntryAt, Block;
    NothingBelow(t, huge, sp, va, lv + 1);
    LookFrom(t, huge, sp, va, leaf, lv);
    LookFrom(t', huge, sp, va, leaf, lv);
    assert Met(t', sp, va, lv) == e;
    assert Met(t', sp, va, lv + 1) == Met(t, sp, va, lv + 1) == EMPTY;
  }

  lemma HangAt(t: Tree, t': Tree, huge: bool, j: Job, lv: nat, at: nat, e: Entry, s: nat, va: nat)
    requires WellFormed(t, huge) && WellFormed(t', huge) && lv < j.leaf <= 3 && Reaches(t, j.sp, at, lv)
    requires forall p :: p in t.dir ==> p in t'.dir
    requires OnlySlot(t, t', j.sp, lv, Block(at, lv + 1), e) && e.present && !e.large
    requires Met(t, j.sp, at, lv).frame == 0 && Hangable(Met(t, j.sp, at, lv))
    ensures Effect(t, t', j, iset{}, iset{at}, s, va)
    ensures s == j.sp && va == at ==> See(t', s, va, j.leaf, 0).Open?
  {
    hide WellFormed, EntryAt, Block, OnlySlot;
    var sp, m := j.sp, Block(at, lv + 1);
    BlockNest(at, lv);
    BlockNest(va, lv);
    if s == sp && Block(va, lv + 1) == m {
      HangInSlot(t, t', huge, sp, j.leaf, lv, va, e);
      assert at in iset{at};
    } else {
      OffPath(t, t', sp, lv, m, e, s, va, j.leaf);
      if s == sp && Struck(See(t, sp, va, j.leaf, 0), iset{at}, va) {
        HangMissesOthers(t, huge, j, lv, at, va);
      }
    }
  }

  /** No address outside the slot is under the page in it. */
  lemma HangMissesOthers(t: Tree, huge: bool, j: Job, lv: nat, at: nat, va: nat)
    requires WellFormed(t, huge) && lv < j.leaf <= 3 && Reaches(t, j.sp, at, lv)
    requires Hangable(Met(t, j.sp, at, lv)) && Block(va, lv + 1) != Block(at, lv + 1)
    ensures !Struck(See(t, j.sp, va, j.leaf, 0), iset{at}, va)
  {
    if Struck(See(t, j.sp, va, j.leaf, 0), iset{at}, va) {
      var w := StruckMeets(t, j.sp, va, j.leaf, iset{at});
      var l := See(t, j.sp, va, j.leaf, 0).at;
      BlockNest(at, lv);
      assert EntryOk(t, huge, j.sp, lv, Block(at, lv + 1));
      hide WellFormed, EntryAt, Block;
      PathAbove(t, huge, j.sp, at, lv);
      NothingBelow(t, huge, j.sp, at, lv + 1);
      assert false;
    }
  }
}
