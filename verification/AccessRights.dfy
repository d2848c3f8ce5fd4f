/** What the processor allows at an address: the bits of its page, and of every table on the way to it. */
module AccessRights {
  import opened Paging
  import opened MapEffects
  import opened PageTables
  import opened Holes
  import opened MapSteps

  datatype Cache = WriteBack | WriteThrough | Uncached | WriteCombining

  datatype Rights = Rights(write: bool, exec: bool, user: bool, cache: Cache)

  /** The page attribute table that vmem_init loads, four of its entries a byte each. */
  const PAT := 0x0100_0406

  /** The memory type that the two bits of a page select in it, by the processor's numbers. */
  function CacheType(bits: nat): Cache {
    var kind := if bits == 0 then PAT % 0x100
                else if bits == 1 then PAT / 0x100 % 0x100
                else if bits == 2 then PAT / 0x1_0000 % 0x100 else PAT / 0x100_0000 % 0x100;
    if kind == 0 then Uncached else if kind == 1 then WriteCombining else if kind == 4 then WriteThrough else WriteBack
  }

  function RightsOf(f: Flags): Rights { Rights(f.write, !f.noExec, f.user, CacheType(f.cacheBits)) }

  /** Writing, executing and user mode must be allowed at every level; the page decides on caching. */
  ghost function Access(t: Tree, sp: nat, va: nat, lv: nat): Option<Rights>
    requires lv <= 3
    decreases 3 - lv
  {
    var e := Met(t, sp, va, lv);
    if !e.present then None
    else if e.large || lv == 3 then Some(RightsOf(e.flags))
    else
      match Access(t, sp, va, lv + 1)
      case None => None
      case Some(r) =>
        Some(Rights(e.flags.write && r.write, !e.flags.noExec && r.exec, e.flags.user && r.user, r.cache))
  }

  /** The tables on the way allow everything, so the page's own bits decide. */
  lemma {:induction false} PageDecides(t: Tree, huge: bool, sp: nat, va: nat, leaf: nat, lv: nat)
    requires WellFormed(t, huge) && lv <= leaf <= 3 && TakenByPage(See(t, sp, va, leaf, lv), leaf)
    ensures Access(t, sp, va, lv) == Some(RightsOf(See(t, sp, va, leaf, lv).e.flags))
    decreases leaf - lv
  {
    if lv < leaf {
      assert EntryOk(t, huge, sp, lv, Block(va, lv + 1));
      PageDecides(t, huge, sp, va, leaf, lv + 1);
    }
  }

  /** The cache type a call asks for; the bits are tested in this order. */
  predicate AskedCache(p: Perms, c: Cache) {
    match c
    case WriteThrough => p.writeThrough
    case Uncached => p.uncached && !p.writeThrough
    case WriteCombining => p.writeComplete && !p.writeThrough && !p.uncached
    case WriteBack => !p.writeComplete && !p.writeThrough && !p.uncached
  }

  /** Every address that a call maps may be written, executed and used in user mode exactly if the call was asked
      to allow it, and is cached as asked. */
  lemma MapGrants(t0: Tree, t: Tree, huge: bool, c: Call, ret: Status, done: nat, va: nat)
    requires c.Levels() && MapPost(t0, t, huge, c, ret, done) && ret != Panicked
    requires va in Region(c.Start(), c.Start() + done)
    ensures Access(t, c.sp, va, 0).Some?
    ensures var r := Access(t, c.sp, va, 0).value;
      && (r.write <==> c.perms.write) && (r.exec <==> c.perms.exec) && (r.user <==> c.perms.user)
      && AskedCache(c.perms, r.cache)
  {
    hide Look, See, Access, WellFormed, Base, Region, Target;
    var got := Region(c.Start(), c.Start() + done);
    assert Effect(t0, t, c.Work(), got, got, c.sp, va);
    PageDecides(t, huge, c.sp, va, c.leaf, 0);
  }
}
