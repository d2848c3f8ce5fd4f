/** The live table of a core, which copies the root slots of the kernel's space and of the active one, and what
    saving it does to those spaces. */
module LiveTable {
  import opened Paging
  import opened MapEffects

  /** The kernel's address space. */
  const KERNEL: nat := 0

  /** Addresses of the lower half use root slots below 256, those of the upper half the others. */
  lemma RootSlot(va: nat)
    requires va < VA_LIMIT
    ensures Index(va, 0) < 512 && (Index(va, 0) < 256 <==> va < HALF)
    ensures Block(va, 1) == Index(va, 0)
  {
  }

  /** The kernel's root and the active space's are there, and are two. */
  predicate HasRoots(mem: map<Ref, seq<Entry>>, live: seq<Entry>, cur: Option<nat>) {
    && |live| == 512 && Root(KERNEL) in mem && |mem[Root(KERNEL)]| == 512
    && (cur.Some? ==> cur.value != KERNEL && Root(cur.value) in mem && |mem[Root(cur.value)]| == 512)
  }

  /** A lower slot of the live table is empty, or names the table that hangs there in the active space. */
  ghost predicate LowerOk(t: Tree, e: Entry, cur: Option<nat>, i: nat) {
    if !e.present then e == EMPTY
    else
      && cur.Some? && !e.large && e.frame < FRAME_LIMIT && e.flags == TABLE_FLAGS
      && Pos(cur.value, 1, i) in t.dir && t.dir[Pos(cur.value, 1, i)] == Frame(e.frame)
  }

  /** The upper half of the live table is the kernel's. Its lower half may lag behind the active space: it has no
      slot that the space has not, but may lack slots in which tables were hung since it was copied. */
  ghost predicate LiveOk(t: Tree, live: seq<Entry>, cur: Option<nat>) {
    && HasRoots(t.mem, live, cur)
    && (forall i :: 256 <= i < 512 ==> live[i] == t.mem[Root(KERNEL)][i])
    && (forall i :: 0 <= i < 256 ==> LowerOk(t, live[i], cur, i))
  }

  /** The lower half does not lag behind either. */
  ghost predicate Mirrors(mem: map<Ref, seq<Entry>>, live: seq<Entry>, cur: Option<nat>) {
    && HasRoots(mem, live, cur)
    && (forall i :: 256 <= i < 512 ==> live[i] == mem[Root(KERNEL)][i])
    && (forall i :: 0 <= i < 256 ==> live[i] == if cur.Some? then mem[Root(cur.value)][i] else EMPTY)
  }

  /** The root slot that a table below a root hangs from. */
  function SlotOf(p: Pos): nat {
    if p.lv <= 1 then p.n else if p.lv == 2 then p.n / 512 else p.n / 512 / 512
  }

  /** The table hangs, in the active space, from a lower root slot that the live table lacks. */
  predicate Dropped(live: seq<Entry>, cur: Option<nat>, p: Pos)
    requires |live| == 512
  {
    cur == Some(p.space) && p.lv > 0 && SlotOf(p) < 256 && !live[SlotOf(p)].present
  }

  /** The two copies of vmem_savestate. */
  function SavedMem(mem: map<Ref, seq<Entry>>, live: seq<Entry>, cur: Option<nat>): map<Ref, seq<Entry>>
    requires HasRoots(mem, live, cur)
  {
    var lower := if cur.Some? then mem[Root(cur.value) := live[..256] + mem[Root(cur.value)][256..]] else mem;
    lower[Root(KERNEL) := lower[Root(KERNEL)][..256] + live[256..]]
  }

  /** The tree after a save: the tables below the slots that the live table lacks are in no place any more. */
  ghost function Saved(t: Tree, live: seq<Entry>, cur: Option<nat>): Tree
    requires HasRoots(t.mem, live, cur)
  {
    Tree(SavedMem(t.mem, live, cur), map p | p in t.dir && !Dropped(live, cur, p) :: t.dir[p])
  }

  // ----- The slots after a save -----

  lemma SavedRoots(t: Tree, live: seq<Entry>, cur: Option<nat>)
    requires LiveOk(t, live, cur)
    ensures var mem := SavedMem(t.mem, live, cur);
      && mem.Keys == t.mem.Keys
      && (forall r :: r in t.mem && (cur.Some? ==> r != Root(cur.value)) ==> mem[r] == t.mem[r])
      && (cur.Some? ==>
            && |mem[Root(cur.value)]| == 512
            && forall i :: 0 <= i < 512 ==>
                 mem[Root(cur.value)][i] == if i < 256 then live[i] else t.mem[Root(cur.value)][i])
  {
    var mem := SavedMem(t.mem, live, cur);
    assert mem[Root(KERNEL)] == t.mem[Root(KERNEL)];
  }

  /** Only a root is in a root's place. */
  lemma RootsAreRoots(t: Tree, huge: bool, p: Pos, sp: nat)
    requires WellFormed(t, huge) && p in t.dir && t.dir[p] == Root(sp)
    ensures p == Pos(sp, 0, 0)
  {
    PlaceKind(t, huge, p);
  }

  /** What each slot holds after a save. */
  lemma SavedEntry(t: Tree, huge: bool, live: seq<Entry>, cur: Option<nat>, s: nat, l: nat, k: nat)
    requires WellFormed(t, huge) && LiveOk(t, live, cur) && (cur.Some? ==> Pos(cur.value, 0, 0) in t.dir)
    ensures EntryAt(Saved(t, live, cur), s, l, k)
         == if cur == Some(s) && l == 0 && k < 256 then live[k]
            else if Dropped(live, cur, Pos(s, l, k / 512)) then EMPTY else EntryAt(t, s, l, k)
  {
    hide LowerOk;
    var p, u := Pos(s, l, k / 512), Saved(t, live, cur);
    SavedRoots(t, live, cur);
    if p in t.dir && !Dropped(live, cur, p) {
      if cur.Some? && t.dir[p] == Root(cur.value) {
        RootsAreRoots(t, huge, p, cur.value);
      } else {
        assert u.mem[t.dir[p]] == t.mem[t.dir[p]];
      }
    }
  }

  lemma SlotOfBelow(s: nat, l: nat, k: nat)
    requires 1 <= l <= 2
    ensures SlotOf(Pos(s, l + 1, k)) == SlotOf(Pos(s, l, k / 512))
  {
  }

  lemma SavedEntryOk(t: Tree, huge: bool, live: seq<Entry>, cur: Option<nat>, s: nat, l: nat, k: nat)
    requires WellFormed(t, huge) && LiveOk(t, live, cur) && (cur.Some? ==> Pos(cur.value, 0, 0) in t.dir)
    ensures EntryOk(Saved(t, live, cur), huge, s, l, k)
  {
    var u, p, below := Saved(t, live, cur), Pos(s, l, k / 512), Pos(s, l + 1, k);
    assert EntryOk(t, huge, s, l, k);
    SavedEntry(t, huge, live, cur, s, l, k);
    hide WellFormed, EntryAt;
    if 1 <= l <= 2 {
      SlotOfBelow(s, l, k);
    } else if l == 0 && cur == Some(s) && k < 256 {
      assert LowerOk(t, live[k], cur, k);
    }
  }

  /** Saving keeps the tables a tree, and then the live table mirrors the spaces. */
  lemma SavedIsTree(t: Tree, huge: bool, live: seq<Entry>, cur: Option<nat>)
    requires WellFormed(t, huge) && LiveOk(t, live, cur) && (cur.Some? ==> Pos(cur.value, 0, 0) in t.dir)
    ensures WellFormed(Saved(t, live, cur), huge) && Mirrors(Saved(t, live, cur).mem, live, cur)
    ensures Saved(t, live, cur).mem.Keys == t.mem.Keys
    ensures forall p :: p in t.dir && p.lv == 0 ==> p in Saved(t, live, cur).dir
  {
    hide LowerOk, EntryAt, EntryOk;
    var u := Saved(t, live, cur);
    SavedRoots(t, live, cur);
    forall s, l, k ensures EntryOk(u, huge, s, l, k) {
      SavedEntryOk(t, huge, live, cur, s, l, k);
    }
    assert forall i :: 0 <= i < 256 ==> live[i] == if cur.Some? then u.mem[Root(cur.value)][i] else EMPTY by {
      LowerWithoutSpace(t, live, cur);
    }
  }

  lemma LowerWithoutSpace(t: Tree, live: seq<Entry>, cur: Option<nat>)
    requires LiveOk(t, live, cur)
    ensures cur == None ==> forall i :: 0 <= i < 256 ==> live[i] == EMPTY
  {
    forall i | 0 <= i < 256 && cur == None ensures live[i] == EMPTY {
      assert LowerOk(t, live[i], cur, i);
    }
  }

  // ----- Translations after a save -----

  lemma SlotOfAddress(va: nat, lv: nat, s: nat)
    requires 1 <= lv <= 3 && va < VA_LIMIT
    ensures SlotOf(Pos(s, lv, Block(va, lv))) == Index(va, 0)
  {
    RootSlot(va);
    BlockNest(va, 1);
    BlockNest(va, 2);
  }

  /** Saving takes away every translation below the root slots that the live table lacks, and no other one. */
  lemma SavedTranslations(t: Tree, huge: bool, live: seq<Entry>, cur: Option<nat>, s: nat, va: nat)
    requires WellFormed(t, huge) && LiveOk(t, live, cur) && (cur.Some? ==> Pos(cur.value, 0, 0) in t.dir)
    requires va < VA_LIMIT
    ensures Look(Saved(t, live, cur), s, va, 0)
         == if cur == Some(s) && va < HALF && !live[Index(va, 0)].present then None else Look(t, s, va, 0)
  {
    RootSlot(va);
    MetAtRoot(t, huge, live, cur, s, va);
    var u, i := Saved(t, live, cur), Index(va, 0);
    hide WellFormed, LiveOk, LowerOk, Saved, Met, Look, Block, Index, Reaches;
    if cur == Some(s) && i < 256 && !live[i].present {
      NothingAtSlot(u, s, va);
    } else {
      forall j | 1 <= j <= 3 ensures Met(u, s, va, j) == Met(t, s, va, j) {
        SavedBelow(t, huge, live, cur, s, va, j);
      }
      SamePastRoot(t, u, s, va);
    }
  }

  lemma NothingAtSlot(t: Tree, s: nat, va: nat)
    requires !Met(t, s, va, 0).present
    ensures Look(t, s, va, 0) == None
  {
    hide Met;
  }

  /** Two root slots that hold the same, or both name the table below, make no difference. */
  lemma SamePastRoot(t: Tree, u: Tree, s: nat, va: nat)
    requires forall j :: 1 <= j <= 3 ==> Met(u, s, va, j) == Met(t, s, va, j)
    requires var e, e' := Met(t, s, va, 0), Met(u, s, va, 0);
      e' == e || (e'.present && e.present && !e'.large && !e.large)
    ensures Look(u, s, va, 0) == Look(t, s, va, 0)
  {
    hide Met, Span;
    SameLook(t, u, s, va, 1);
  }

  /** The root slot of an address after a save. */
  lemma MetAtRoot(t: Tree, huge: bool, live: seq<Entry>, cur: Option<nat>, s: nat, va: nat)
    requires WellFormed(t, huge) && LiveOk(t, live, cur) && (cur.Some? ==> Pos(cur.value, 0, 0) in t.dir)
    requires va < VA_LIMIT && Index(va, 0) < 512
    ensures |live| == 512
    ensures if cur == Some(s) && Index(va, 0) < 256 then
              && Met(Saved(t, live, cur), s, va, 0) == live[Index(va, 0)] && !live[Index(va, 0)].large
              && (live[Index(va, 0)].present ==> Met(t, s, va, 0).present && !Met(t, s, va, 0).large)
            else Met(Saved(t, live, cur), s, va, 0) == Met(t, s, va, 0)
  {
    var i := Index(va, 0);
    RootSlot(va);
    SavedEntry(t, huge, live, cur, s, 0, i);
    if cur == Some(s) && i < 256 {
      assert LowerOk(t, live[i], cur, i);
      assert EntryOk(t, huge, s, 0, i);
    }
  }

  lemma SavedBelow(t: Tree, huge: bool, live: seq<Entry>, cur: Option<nat>, s: nat, va: nat, j: nat)
    requires WellFormed(t, huge) && LiveOk(t, live, cur) && (cur.Some? ==> Pos(cur.value, 0, 0) in t.dir)
    requires va < VA_LIMIT && 1 <= j <= 3 && Index(va, 0) < 512
    requires cur != Some(s) || Index(va, 0) >= 256 || live[Index(va, 0)].present
    ensures Met(Saved(t, live, cur), s, va, j) == Met(t, s, va, j)
  {
    BlockNest(va, j);
    SlotOfAddress(va, j, s);
    SavedEntry(t, huge, live, cur, s, j, Block(va, j + 1));
  }

  // ----- When the live table does not lag behind -----

  /** A table below a root hangs from a root slot that is in use. */
  lemma {:induction false} HangsFromRoot(t: Tree, huge: bool, p: Pos)
    requires WellFormed(t, huge) && p in t.dir && p.lv > 0
    ensures SlotOf(p) < 512 && EntryAt(t, p.space, 0, SlotOf(p)).present && Pos(p.space, 0, 0) in t.dir
    decreases p.lv
  {
    assert EntryOk(t, huge, p.space, p.lv - 1, p.n);
    var above := Pos(p.space, p.lv - 1, p.n / 512);
    assert above in t.dir;
    if p.lv > 1 {
      SlotOfBelow(p.space, p.lv - 1, p.n);
      HangsFromRoot(t, huge, above);
    }
  }

  /** A live table that mirrors the spaces lacks nothing. */
  lemma MirrorsIsLive(t: Tree, huge: bool, live: seq<Entry>, cur: Option<nat>)
    requires WellFormed(t, huge) && Mirrors(t.mem, live, cur) && (cur.Some? ==> Pos(cur.value, 0, 0) in t.dir)
    ensures LiveOk(t, live, cur)
  {
    forall i | 0 <= i < 256 ensures LowerOk(t, live[i], cur, i) {
      if cur.Some? {
        assert t.dir[Pos(cur.value, 0, 0)] == Root(cur.value);
        assert EntryAt(t, cur.value, 0, i) == live[i];
        assert EntryOk(t, huge, cur.value, 0, i);
      }
    }
  }

  /** Saving is idle while the live table mirrors the others. */
  lemma SavingIsIdle(t: Tree, huge: bool, live: seq<Entry>, cur: Option<nat>)
    requires WellFormed(t, huge) && Mirrors(t.mem, live, cur) && (cur.Some? ==> Pos(cur.value, 0, 0) in t.dir)
    ensures Saved(t, live, cur) == t
  {
    var mem := SavedMem(t.mem, live, cur);
    assert mem[Root(KERNEL)] == t.mem[Root(KERNEL)];
    if cur.Some? {
      assert mem[Root(cur.value)] == t.mem[Root(cur.value)];
    }
    forall p | p in t.dir ensures !Dropped(live, cur, p) {
      if cur == Some(p.space) && p.lv > 0 && SlotOf(p) < 256 {
        HangsFromRoot(t, huge, p);
        assert t.dir[Pos(p.space, 0, 0)] == Root(p.space);
        assert EntryAt(t, p.space, 0, SlotOf(p)) == live[SlotOf(p)];
      }
    }
    assert Saved(t, live, cur).dir == t.dir;
  }

  /** Hanging tables in a space, other than from the kernel's root, leaves the live table as good as it was. */
  lemma LiveOutlivesMap(t: Tree, t': Tree, live: seq<Entry>, cur: Option<nat>, sp: nat)
    requires LiveOk(t, live, cur) && Extends(t, t', sp) && sp != KERNEL && HasRoots(t'.mem, live, cur)
    ensures LiveOk(t', live, cur)
  {
    forall i | 0 <= i < 256 ensures LowerOk(t', live[i], cur, i) {
      assert LowerOk(t, live[i], cur, i);
    }
  }

  /** In the kernel's space it does so once the upper half is copied. */
  lemma LiveAfterKernelMap(t: Tree, t': Tree, live: seq<Entry>, cur: Option<nat>, live': seq<Entry>)
    requires LiveOk(t, live, cur) && Extends(t, t', KERNEL) && HasRoots(t'.mem, live, cur)
    requires live' == live[..256] + t'.mem[Root(KERNEL)][256..]
    ensures LiveOk(t', live', cur)
  {
    forall i | 0 <= i < 256 ensures LowerOk(t', live'[i], cur, i) {
      assert LowerOk(t, live[i], cur, i);
    }
  }

  /** A mapping in space `sp`, and the copy of the upper half that follows it in the kernel's: only one in the active
      space lets the live table lag behind. */
  lemma LiveAfterMap(t: Tree, t': Tree, live: seq<Entry>, cur: Option<nat>, sp: nat, live': seq<Entry>)
    requires LiveOk(t, live, cur) && Extends(t, t', sp) && forall r :: r in t.mem ==> |t'.mem[r]| == 512
    requires live' == if sp == KERNEL then live[..256] + t'.mem[Root(KERNEL)][256..] else live
    ensures LiveOk(t', live', cur)
    ensures cur != Some(sp) && Mirrors(t.mem, live, cur) ==> Mirrors(t'.mem, live', cur)
  {
    hide LowerOk;
    if sp == KERNEL {
      LiveAfterKernelMap(t, t', live, cur, live');
    } else {
      LiveOutlivesMap(t, t', live, cur, sp);
    }
  }
}
