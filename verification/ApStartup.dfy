/** Bringing up the other cores one at a time: the boot core's loop and each core's first steps. */
module ApStartup {

  const STACK_SIZE := 16384
  const AREA_SIZE := 0x800_0000

  /** Where the boot core is in smp_init, for entry `i` of the core table. */
  datatype Boot =
    | Next(i: nat)
    | AllocStack(i: nat)
    | SendInit(i: nat)
    | SendStartup(i: nat)
    | Wait(i: nat)
    | Finished

  /** A core: not started; about to load its stack pointer from the trampoline variable; running its
      set-up on the stack it loaded; counted; and parked after reporting ready. */
  datatype Core = Off | Started | Running(stack: nat) | Counted(stack: nat) | Parked(stack: nat)

  /** `pos` is the bump allocator's position, `area` its address; `given` records which stack top was
      allocated for which core, `failed` the cores for which that has failed, and `elsewhere` the bytes that
      other allocations since the start still hold. */
  datatype State = State(boot: Boot, coreReady: bool, coreCount: nat, trampStack: nat, cores: map<nat, Core>,
                         area: nat, pos: nat, given: map<nat, nat>, failed: set<nat>, elsewhere: nat)

  ghost predicate Init(s: State, ids: seq<nat>) {
    && s.boot == Next(0) && !s.coreReady && s.coreCount == 1 && s.given == map[] && s.failed == {} && s.elsewhere == 0
    && (forall i :: 0 <= i < |ids| ==> ids[i] in s.cores)
    && (forall id :: id in s.cores ==> s.cores[id] == Off)
  }

  ghost predicate Distinct(ids: seq<nat>) { forall i, j :: 0 <= i < j < |ids| ==> ids[i] != ids[j] }

  // ----- The steps -----

  /** alloc_ap_stack over the bump allocator; a failed allocation returns the null pointer. */
  function StackAllocated(s: State, id: nat): State {
    if s.pos + STACK_SIZE < AREA_SIZE then
      var top := s.area + s.pos + STACK_SIZE;
      s.(pos := s.pos + STACK_SIZE, trampStack := top, given := s.given[id := top])
    else s.(trampStack := STACK_SIZE, given := s.given[id := STACK_SIZE], failed := s.failed + {id})
  }

  /** One step of the boot core, whose own id is `self`. */
  function BootStep(s: State, ids: seq<nat>, self: nat): State {
    match s.boot
    case Next(i) =>
      if i >= |ids| then s.(boot := Finished)
      else if ids[i] == self then s.(boot := Next(i + 1))
      else s.(coreReady := false, boot := AllocStack(i))
    case AllocStack(i) => if i < |ids| then StackAllocated(s, ids[i]).(boot := SendInit(i)) else s
    case SendInit(i) => s.(boot := SendStartup(i))
    case SendStartup(i) => if i < |ids| then s.(cores := s.cores[ids[i] := Started], boot := Wait(i)) else s
    case Wait(i) => if s.coreReady then s.(boot := Next(i + 1)) else s
    case Finished => s
  }

  /** One step of another core. */
  function CoreStep(s: State, id: nat): State
    requires id in s.cores
  {
    match s.cores[id]
    case Off => s
    case Started => s.(cores := s.cores[id := Running(s.trampStack)])
    case Running(k) => s.(coreCount := s.coreCount + 1, cores := s.cores[id := Counted(k)])
    case Counted(k) => s.(coreReady := true, cores := s.cores[id := Parked(k)])
    case Parked(k) => s
  }

  /** Any other allocation moves the bump position up; giving back the latest one moves it down again. */
  ghost predicate OtherStep(s: State, s': State) {
    && s' == s.(pos := s'.pos, elsewhere := s'.elsewhere) && s'.pos - s.pos == s'.elsewhere - s.elsewhere
    && forall a :: a in s.given && a !in s.failed ==> s.given[a] <= s.area + s'.pos
  }

  ghost predicate Step(s: State, s': State, ids: seq<nat>, self: nat) {
    || s' == BootStep(s, ids, self)
    || (exists id :: id in s.cores && s' == CoreStep(s, id))
    || OtherStep(s, s')
  }

  ghost predicate IsRun(ss: seq<State>, ids: seq<nat>, self: nat) {
    && |ss| > 0 && Init(ss[0], ids) && Distinct(ids)
    && forall i :: 0 <= i < |ss| - 1 ==> Step(ss[i], ss[i + 1], ids, self)
  }

  // ----- The invariant -----

  /** The table entry the boot core is at. */
  function At(b: Boot, ids: seq<nat>): nat {
    if b.Finished? then |ids| else b.i
  }

  /** How many of the first `n` entries are other cores. */
  function Others(ids: seq<nat>, self: nat, n: nat): nat
    requires n <= |ids|
  {
    if n == 0 then 0 else Others(ids, self, n - 1) + if ids[n - 1] == self then 0 else 1
  }

  predicate InFlight(c: Core) { c.Started? || c.Running? || c.Counted? }

  /** Cores before the current entry are parked on their stacks, cores behind it are off. The current one
      is off until its startup message, and then in flight or parked; the boot core waits meanwhile. */
  ghost predicate CoreOk(s: State, ids: seq<nat>, self: nat, k: nat)
    requires k < |ids| && ids[k] in s.cores
  {
    var c, n := s.cores[ids[k]], At(s.boot, ids);
    if ids[k] == self || k > n then c == Off && ids[k] !in s.failed
    else if k < n then c.Parked? && ids[k] in s.given && c.stack == s.given[ids[k]]
    else
      match s.boot
      case Wait(_) =>
        && ids[k] in s.given && c != Off && (s.coreReady <==> c.Parked?)
        && (c.Started? ==> s.trampStack == s.given[ids[k]]) && (!c.Started? ==> c.stack == s.given[ids[k]])
      case SendInit(_) => c == Off && ids[k] in s.given && s.trampStack == s.given[ids[k]]
      case SendStartup(_) => c == Off && ids[k] in s.given && s.trampStack == s.given[ids[k]]
      case _ => c == Off && ids[k] !in s.failed
  }

  /** The 16KiB below two stack tops have no byte in common. */
  predicate ApartStacks(a: nat, b: nat) { a + 0x4000 <= b || b + 0x4000 <= a }

  /** Stacks that were allocated lie below the allocator's position, and no two of them overlap; the others all
      begin at the null pointer. */
  ghost predicate StacksOk(s: State) {
    && (forall a :: a in s.given && a in s.failed ==> s.given[a] == STACK_SIZE)
    && (forall a :: a in s.given && a !in s.failed ==> s.area + STACK_SIZE <= s.given[a] <= s.area + s.pos)
    && (forall a, b :: a in s.given && b in s.given && a != b && a !in s.failed && b !in s.failed ==>
          ApartStacks(s.given[a], s.given[b]))
  }

  ghost predicate Inv(s: State, ids: seq<nat>, self: nat) {
    && At(s.boot, ids) <= |ids| && (!s.boot.Next? && !s.boot.Finished? ==> s.boot.i < |ids| && ids[s.boot.i] != self)
    && (s.boot.AllocStack? || s.boot.SendInit? || s.boot.SendStartup? ==> !s.coreReady)
    && (forall k :: 0 <= k < |ids| ==> ids[k] in s.cores && CoreOk(s, ids, self, k))
    && (forall id :: id in s.cores && id !in ids ==> s.cores[id] == Off)
    && StacksOk(s)
    && s.coreCount == 1 + Others(ids, self, At(s.boot, ids))
         + (if s.boot.Wait? && (s.cores[ids[s.boot.i]].Counted? || s.cores[ids[s.boot.i]].Parked?) then 1 else 0)
  }

  lemma AllocKeepsStacks(s: State, id: nat)
    requires StacksOk(s) && id !in s.failed
    ensures StacksOk(StackAllocated(s, id))
  {
  }

  lemma BootKeepsCore(s: State, ids: seq<nat>, self: nat, k: nat)
    requires Inv(s, ids, self) && Distinct(ids) && k < |ids|
    ensures ids[k] in BootStep(s, ids, self).cores && CoreOk(BootStep(s, ids, self), ids, self, k)
  {
    hide StacksOk, Others;
    assert CoreOk(s, ids, self, k);
    if !s.boot.Finished? && s.boot.i < |ids| && k != s.boot.i {
      assert ids[k] != ids[s.boot.i];
    }
  }

  lemma BootKeepsInv(s: State, ids: seq<nat>, self: nat)
    requires Inv(s, ids, self) && Distinct(ids)
    ensures Inv(BootStep(s, ids, self), ids, self)
  {
    hide StacksOk, CoreOk, Distinct;
    var s' := BootStep(s, ids, self);
    match s.boot {
      case AllocStack(i) =>
        assert ids[i] !in s.failed by { NotAskedYet(s, ids, self, i); }
        AllocKeepsStacks(s, ids[i]);
        StacksIgnoreCores(StackAllocated(s, ids[i]), s');
      case Wait(i) => ReadyMeansParked(s, ids, self, i);
      case _ =>
    }
    forall k | 0 <= k < |ids| ensures ids[k] in s'.cores && CoreOk(s', ids, self, k) {
      BootKeepsCore(s, ids, self, k);
    }
    if !s.boot.AllocStack? {
      StacksIgnoreCores(s, s');
    }
  }

  lemma NotAskedYet(s: State, ids: seq<nat>, self: nat, i: nat)
    requires Inv(s, ids, self) && s.boot == AllocStack(i)
    ensures i < |ids| && ids[i] !in s.failed
  {
    assert CoreOk(s, ids, self, i);
  }

  lemma ReadyMeansParked(s: State, ids: seq<nat>, self: nat, i: nat)
    requires Inv(s, ids, self) && s.boot == Wait(i)
    ensures i < |ids| && ids[i] in s.cores && (s.coreReady ==> s.cores[ids[i]].Parked?)
  {
    assert CoreOk(s, ids, self, i);
  }

  /** A core's step on the entries of the table: the one that is its own, and the others. */
  lemma CoreKeepsCore(s: State, ids: seq<nat>, self: nat, k: nat, j: nat)
    requires Inv(s, ids, self) && Distinct(ids) && k < |ids| && j < |ids| && ids[k] in s.cores && s.cores[ids[k]] != Off
    ensures ids[j] in CoreStep(s, ids[k]).cores && CoreOk(CoreStep(s, ids[k]), ids, self, j)
  {
    hide StacksOk, Others;
    assert CoreOk(s, ids, self, k) && CoreOk(s, ids, self, j);
    if j != k {
      assert ids[j] != ids[k];
    }
  }

  /** The core that steps is parked, or the one that the boot core waits for. */
  lemma StepperIsWaitedFor(s: State, ids: seq<nat>, self: nat, id: nat) returns (k: nat)
    requires Inv(s, ids, self) && id in s.cores && s.cores[id] != Off
    ensures k < |ids| && ids[k] == id
    ensures s.cores[id].Parked? || (s.boot == Wait(k) && !s.coreReady)
  {
    hide StacksOk, Others;
    k :| 0 <= k < |ids| && ids[k] == id;
    assert CoreOk(s, ids, self, k);
  }

  lemma CoreKeepsInv(s: State, ids: seq<nat>, self: nat, id: nat)
    requires Inv(s, ids, self) && Distinct(ids) && id in s.cores
    ensures Inv(CoreStep(s, id), ids, self)
  {
    hide StacksOk, CoreOk, Distinct, Others;
    var s' := CoreStep(s, id);
    if s.cores[id] != Off && !s.cores[id].Parked? {
      var k := StepperIsWaitedFor(s, ids, self, id);
      forall j | 0 <= j < |ids| ensures ids[j] in s'.cores && CoreOk(s', ids, self, j) {
        CoreKeepsCore(s, ids, self, k, j);
      }
      StacksIgnoreCores(s, s');
    }
  }

  lemma StacksIgnoreCores(s: State, s': State)
    requires StacksOk(s) && s'.given == s.given && s'.area == s.area && s'.pos == s.pos && s'.failed == s.failed
    ensures StacksOk(s')
  {
  }

  lemma StepKeepsInv(s: State, s': State, ids: seq<nat>, self: nat)
    requires Inv(s, ids, self) && Distinct(ids) && Step(s, s', ids, self)
    ensures Inv(s', ids, self)
  {
    hide BootStep, CoreStep;
    if s' == BootStep(s, ids, self) {
      BootKeepsInv(s, ids, self);
    } else if id :| id in s.cores && s' == CoreStep(s, id) {
      CoreKeepsInv(s, ids, self, id);
    } else {
      assert StacksOk(s');
      hide StacksOk;
      forall k | 0 <= k < |ids| ensures ids[k] in s'.cores && CoreOk(s', ids, self, k) {
        assert CoreOk(s, ids, self, k);
      }
    }
  }

  lemma {:induction false} RunKeepsInv(ss: seq<State>, ids: seq<nat>, self: nat, i: nat)
    requires IsRun(ss, ids, self) && i < |ss|
    ensures Inv(ss[i], ids, self)
  {
    if i > 0 {
      RunKeepsInv(ss, ids, self, i - 1);
      StepKeepsInv(ss[i - 1], ss[i], ids, self);
    }
  }

  // ----- What every interleaving guarantees -----

  /** At most one core is between its startup message and its ready report, and the boot core is then
      waiting for that very core. */
  lemma OneCoreInFlight(ss: seq<State>, ids: seq<nat>, self: nat, i: nat)
    requires IsRun(ss, ids, self) && i < |ss|
    ensures forall a, b ::
      a in ss[i].cores && b in ss[i].cores && InFlight(ss[i].cores[a]) && InFlight(ss[i].cores[b]) ==> a == b
    ensures forall a :: a in ss[i].cores && InFlight(ss[i].cores[a]) ==>
      ss[i].boot.Wait? && ss[i].boot.i < |ids| && a == ids[ss[i].boot.i]
  {
    RunKeepsInv(ss, ids, self, i);
    forall a | a in ss[i].cores && InFlight(ss[i].cores[a])
      ensures ss[i].boot.Wait? && ss[i].boot.i < |ids| && a == ids[ss[i].boot.i]
    {
      var k :| 0 <= k < |ids| && ids[k] == a;
      assert CoreOk(ss[i], ids, self, k);
    }
  }

  /** Every core that has loaded a stack pointer runs on the stack allocated for it. Of two such cores the stacks
      overlap if and only if both allocations failed. (The area is a static array of the kernel, which is not at the
      null pointer.) */
  lemma OwnDisjointStacks(ss: seq<State>, ids: seq<nat>, self: nat, i: nat, a: nat, b: nat)
    requires IsRun(ss, ids, self) && i < |ss|
    requires a != b && a in ss[i].cores && b in ss[i].cores
    requires ss[i].cores[a] != Off && ss[i].cores[b] != Off && !ss[i].cores[a].Started? && !ss[i].cores[b].Started?
    ensures a in ss[i].given && ss[i].cores[a].stack == ss[i].given[a]
    ensures ss[i].area >= 0x4000 ==>
      (!ApartStacks(ss[i].cores[a].stack, ss[i].cores[b].stack) <==> a in ss[i].failed && b in ss[i].failed)
  {
    RunKeepsInv(ss, ids, self, i);
    var k :| 0 <= k < |ids| && ids[k] == a;
    var l :| 0 <= l < |ids| && ids[l] == b;
    assert CoreOk(ss[i], ids, self, k) && CoreOk(ss[i], ids, self, l);
  }

  /** The cores for which a stack was asked so far. */
  function Asked(s: State, ids: seq<nat>, self: nat): nat
    requires At(s.boot, ids) <= |ids|
  {
    Others(ids, self, At(s.boot, ids)) + if s.boot.SendInit? || s.boot.SendStartup? || s.boot.Wait? then 1 else 0
  }

  /** There is room for a stack for every other core, beside what other allocations hold at any time so far. */
  ghost predicate Room(ss: seq<State>, ids: seq<nat>, self: nat, i: nat)
    requires i < |ss|
  {
    forall j :: 0 <= j <= i ==> ss[0].pos + ss[j].elsewhere + 0x4000 * Others(ids, self, |ids|) < 0x800_0000
  }

  ghost predicate NothingElse(ss: seq<State>, i: nat)
    requires i < |ss|
  {
    forall j :: 0 <= j <= i ==> ss[j].elsewhere == 0
  }

  lemma {:induction false} OthersGrow(ids: seq<nat>, self: nat, n: nat)
    requires n <= |ids|
    ensures Others(ids, self, n) <= Others(ids, self, |ids|)
    decreases |ids| - n
  {
    if n < |ids| {
      OthersGrow(ids, self, n + 1);
    }
  }

  /** How a step moves the allocator's position: `more` cores have been asked a stack for. */
  ghost predicate Moves(s: State, s': State, more: nat) {
    && more <= 1 && s.failed <= s'.failed
    && (s'.failed == {} ==> s'.pos - s.pos == s'.elsewhere - s.elsewhere + STACK_SIZE * more)
    && (s'.failed == {} && more > 0 ==> s'.pos < AREA_SIZE)
    && (s'.failed != s.failed ==> more == 1 && s.pos + STACK_SIZE >= AREA_SIZE && s'.elsewhere == s.elsewhere)
  }

  lemma BootMoves(s: State, ids: seq<nat>, self: nat) returns (more: nat)
    requires Inv(s, ids, self)
    ensures var s' := BootStep(s, ids, self);
      Moves(s, s', more) && At(s'.boot, ids) <= |ids| && Asked(s', ids, self) == Asked(s, ids, self) + more
  {
    hide StacksOk, CoreOk;
    more := if s.boot.AllocStack? then 1 else 0;
  }

  lemma StepMoves(s: State, s': State, ids: seq<nat>, self: nat) returns (more: nat)
    requires Inv(s, ids, self) && Step(s, s', ids, self)
    ensures Moves(s, s', more) && At(s'.boot, ids) <= |ids| && Asked(s', ids, self) == Asked(s, ids, self) + more
  {
    hide BootStep, Moves, Asked;
    if s' == BootStep(s, ids, self) {
      more := BootMoves(s, ids, self);
    } else {
      more := 0;
      OthersMove(s, s', ids, self);
    }
  }

  lemma OthersMove(s: State, s': State, ids: seq<nat>, self: nat)
    requires At(s.boot, ids) <= |ids|
    requires (exists id :: id in s.cores && s' == CoreStep(s, id)) || OtherStep(s, s')
    ensures Moves(s, s', 0) && At(s'.boot, ids) <= |ids| && Asked(s', ids, self) == Asked(s, ids, self)
  {
    hide Others;
  }

  lemma AskedBound(s: State, ids: seq<nat>, self: nat)
    requires Inv(s, ids, self)
    ensures Asked(s, ids, self) <= Others(ids, self, |ids|)
  {
    hide StacksOk, CoreOk;
    OthersGrow(ids, self, At(s.boot, ids));
    if s.boot.SendInit? || s.boot.SendStartup? || s.boot.Wait? {
      OthersGrow(ids, self, s.boot.i + 1);
    }
  }

  /** Until an allocation fails, the position counts the stacks and what other allocations hold. */
  lemma {:induction false} PositionCounts(ss: seq<State>, ids: seq<nat>, self: nat, i: nat)
    requires IsRun(ss, ids, self) && i < |ss|
    ensures At(ss[i].boot, ids) <= |ids|
    ensures ss[i].failed == {} ==>
      ss[i].pos == ss[0].pos + ss[i].elsewhere + STACK_SIZE * Asked(ss[i], ids, self)
    ensures ss[i].failed == {} && NothingElse(ss, i) && Asked(ss[i], ids, self) > 0 ==> ss[i].pos < AREA_SIZE
  {
    hide Inv, Step, Asked;
    RunKeepsInv(ss, ids, self, i);
    InvInTable(ss[i], ids, self);
    if i == 0 {
      NothingAsked(ss[0], ids, self);
    } else {
      PositionCounts(ss, ids, self, i - 1);
      RunKeepsInv(ss, ids, self, i - 1);
      assert Step(ss[i - 1], ss[i - 1 + 1], ids, self);
      var more := StepMoves(ss[i - 1], ss[i], ids, self);
    }
  }

  lemma InvInTable(s: State, ids: seq<nat>, self: nat)
    requires Inv(s, ids, self)
    ensures At(s.boot, ids) <= |ids|
  {
  }

  lemma NothingAsked(s: State, ids: seq<nat>, self: nat)
    requires s.boot == Next(0)
    ensures Asked(s, ids, self) == 0
  {
  }

  /** A bound that can be checked before: with room for a stack for every other core no allocation fails, so no two
      stacks overlap. */
  lemma {:induction false} RoomRulesOutFailure(ss: seq<State>, ids: seq<nat>, self: nat, i: nat)
    requires IsRun(ss, ids, self) && i < |ss| && Room(ss, ids, self, i)
    ensures ss[i].failed == {}
  {
    hide Inv, Step, Asked;
    if i > 0 {
      RoomRulesOutFailure(ss, ids, self, i - 1);
      PositionCounts(ss, ids, self, i - 1);
      RunKeepsInv(ss, ids, self, i - 1);
      RunKeepsInv(ss, ids, self, i);
      assert Step(ss[i - 1], ss[i - 1 + 1], ids, self);
      var more := StepMoves(ss[i - 1], ss[i], ids, self);
      AskedBound(ss[i], ids, self);
    }
  }

  /** Where nothing else is allocated meanwhile, that bound is exact: when smp_init returns no allocation has failed if
      and only if there was room for all the stacks. */
  lemma NoFailureIffRoom(ss: seq<State>, ids: seq<nat>, self: nat, i: nat)
    requires IsRun(ss, ids, self) && i < |ss| && ss[i].boot.Finished? && NothingElse(ss, i)
    requires Others(ids, self, |ids|) > 0
    ensures ss[i].failed == {} <==> ss[0].pos + 0x4000 * Others(ids, self, |ids|) < 0x800_0000
  {
    PositionCounts(ss, ids, self, i);
    if ss[0].pos + 0x4000 * Others(ids, self, |ids|) < 0x800_0000 {
      assert Room(ss, ids, self, i);
      RoomRulesOutFailure(ss, ids, self, i);
    }
  }

  /** When smp_init returns, every other core of the table has been counted, and nothing else. */
  lemma AllCoresCounted(ss: seq<State>, ids: seq<nat>, self: nat, i: nat)
    requires IsRun(ss, ids, self) && i < |ss|
    requires ss[i].boot.Finished?
    ensures ss[i].coreCount == 1 + Others(ids, self, |ids|)
    ensures forall k :: 0 <= k < |ids| && ids[k] != self ==> ids[k] in ss[i].cores && ss[i].cores[ids[k]].Parked?
  {
    RunKeepsInv(ss, ids, self, i);
    forall k | 0 <= k < |ids| && ids[k] != self ensures ids[k] in ss[i].cores && ss[i].cores[ids[k]].Parked? {
      assert CoreOk(ss[i], ids, self, k);
    }
  }
}
