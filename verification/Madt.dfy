/** Reading the interrupt-controller table: four walks over the same bytes, the later ones filling arrays
    that the earlier ones sized. */
module Madt {

  const LAPIC_ENTRY := 0
  const IOAPIC_ENTRY := 1
  const ISAOVR_ENTRY := 2

  datatype Lapic = Lapic(apicId: nat, processorId: nat)

  datatype IsaOverride = IsaOverride(gsi: nat, bus: nat, irq: nat, activeLow: bool, levelTrigger: bool)

  /** An IO APIC's record. `overrides` is the array that the first stored override allocates, with room for
      `cnt`; before that it is null, here empty. */
  datatype IoApic = IoApic(id: nat, addr: nat, base: nat, cnt: nat, idx: nat, overrides: seq<IsaOverride>)

  // ----- The bytes -----

  function Byte(es: seq<nat>, i: nat): nat { if i < |es| then es[i] else 0 }

  function U16(es: seq<nat>, i: nat): nat { Byte(es, i) + 0x100 * Byte(es, i + 1) }

  function U32(es: seq<nat>, i: nat): nat { U16(es, i) + 0x1_0000 * U16(es, i + 2) }

  /** The offset of the entry after the one at `i`; an entry of size 0 is stepped over by 8 bytes. */
  function Next(es: seq<nat>, i: nat): (j: nat)
    ensures j > i
  {
    if Byte(es, i + 1) == 0 then i + 8 else i + Byte(es, i + 1)
  }

  /** The offsets that a walk from `i` visits. */
  function Walk(es: seq<nat>, i: nat): seq<nat>
    decreases |es| - i
  {
    if i >= |es| then [] else [i] + Walk(es, Next(es, i))
  }

  /** The bytes an entry's reader touches. */
  function Touched(kind: nat): nat {
    if kind == LAPIC_ENTRY then 4 else if kind == IOAPIC_ENTRY then 12 else if kind == ISAOVR_ENTRY then 10 else 2
  }

  /** Every visited entry has the bytes that its reader touches. */
  ghost predicate WellFormed(es: seq<nat>) {
    forall k :: 0 <= k < |Walk(es, 0)| ==> Walk(es, 0)[k] + Touched(Byte(es, Walk(es, 0)[k])) <= |es|
  }

  function LapicAt(es: seq<nat>, i: nat): Lapic { Lapic(Byte(es, i + 3), Byte(es, i + 2)) }

  function IoApicAt(es: seq<nat>, i: nat): IoApic { IoApic(Byte(es, i + 2), U32(es, i + 4), U32(es, i + 8), 0, 0, []) }

  function OverrideAt(es: seq<nat>, i: nat): IsaOverride {
    IsaOverride(U32(es, i + 4), Byte(es, i + 2), Byte(es, i + 3),
                U16(es, i + 8) / 2 % 2 == 1, U16(es, i + 8) / 8 % 2 == 1)
  }

  // ----- What the table says -----

  function Lapics(es: seq<nat>, at: seq<nat>): seq<Lapic> {
    if at == [] then []
    else
      var i := at[|at| - 1];
      Lapics(es, at[..|at| - 1]) + if Byte(es, i) == LAPIC_ENTRY then [LapicAt(es, i)] else []
  }

  function IoApics(es: seq<nat>, at: seq<nat>): seq<IoApic> {
    if at == [] then []
    else
      var i := at[|at| - 1];
      IoApics(es, at[..|at| - 1]) + if Byte(es, i) == IOAPIC_ENTRY then [IoApicAt(es, i)] else []
  }

  /** Which IO APIC an override goes to, among the first `n`: the last one whose base is at most the
      interrupt number and less far below it than the choice so far is from the start. */
  function Choose(ios: seq<IoApic>, gsi: nat, n: nat): (idx: nat)
    requires n <= |ios|
    ensures idx == 0 || idx < n
  {
    if n == 0 then 0
    else
      var idx := Choose(ios, gsi, n - 1);
      if gsi >= ios[n - 1].base && gsi - ios[n - 1].base <= idx then n - 1 else idx
  }

  /** The overrides that go to IO APIC `k`, in table order. */
  function Assigned(es: seq<nat>, at: seq<nat>, ios: seq<IoApic>, k: nat): seq<IsaOverride> {
    if at == [] then []
    else
      var i := at[|at| - 1];
      Assigned(es, at[..|at| - 1], ios, k)
      + if Byte(es, i) == ISAOVR_ENTRY && Choose(ios, OverrideAt(es, i).gsi, |ios|) == k then [OverrideAt(es, i)]
        else []
  }

  /** The choice looks only at the bases. */
  lemma {:induction false} ChooseReadsBases(a: seq<IoApic>, b: seq<IoApic>, gsi: nat, n: nat)
    requires n <= |a| == |b| && forall k :: 0 <= k < |a| ==> a[k].base == b[k].base
    ensures Choose(a, gsi, n) == Choose(b, gsi, n)
  {
    if n > 0 {
      ChooseReadsBases(a, b, gsi, n - 1);
    }
  }

  lemma {:induction false} AssignedReadsBases(es: seq<nat>, at: seq<nat>, a: seq<IoApic>, b: seq<IoApic>, k: nat)
    requires |a| == |b| && forall k :: 0 <= k < |a| ==> a[k].base == b[k].base
    ensures Assigned(es, at, a, k) == Assigned(es, at, b, k)
    decreases |at|
  {
    if at != [] {
      var i := at[|at| - 1];
      ChooseReadsBases(a, b, OverrideAt(es, i).gsi, |a|);
      AssignedReadsBases(es, at[..|at| - 1], a, b, k);
    }
  }

  /** An IO APIC other than the first is only chosen for an interrupt less than its own index above its
      base, so the choice is not by the range of interrupts an IO APIC serves. */
  lemma {:induction false} ChosenIsNearBase(ios: seq<IoApic>, gsi: nat, n: nat)
    requires n <= |ios| && Choose(ios, gsi, n) > 0
    ensures var k := Choose(ios, gsi, n);
      k < n && ios[k].base <= gsi < ios[k].base + k
    decreases n
  {
    var idx := Choose(ios, gsi, n - 1);
    if !(gsi >= ios[n - 1].base && gsi - ios[n - 1].base <= idx) {
      ChosenIsNearBase(ios, gsi, n - 1);
    }
  }

  /** The IO APIC whose range of interrupts holds this one: of those that start at or below it, the one with
      the greatest base. */
  predicate Serves(ios: seq<IoApic>, gsi: nat, k: nat) {
    k < |ios| && ios[k].base <= gsi && forall i :: 0 <= i < |ios| && ios[i].base <= gsi ==> ios[i].base <= ios[k].base
  }

  /** Each IO APIC serves at least as many interrupts as there are IO APICs; the table lists them in any order. */
  predicate Spread(ios: seq<IoApic>) {
    forall i, j :: 0 <= i < |ios| && 0 <= j < |ios| && i != j ==>
      ios[i].base + |ios| <= ios[j].base || ios[j].base + |ios| <= ios[i].base
  }

  lemma {:induction false} ChoiceSoFar(ios: seq<IoApic>, gsi: nat, k: nat, n: nat)
    requires Spread(ios) && Serves(ios, gsi, k) && n <= |ios|
    ensures Choose(ios, gsi, n) == if k < n && gsi == ios[k].base then k else 0
    decreases n
  {
    if n > 0 {
      ChoiceSoFar(ios, gsi, k, n - 1);
      if n - 1 != k {
        assert ios[n - 1].base + |ios| <= ios[k].base || ios[k].base + |ios| <= ios[n - 1].base;
      }
    }
  }

  /** Where the IO APICs are spread out, the code chooses the one that serves the interrupt if and only if that
      is the first one or the interrupt is its very first. */
  lemma ServingIsChosenIff(ios: seq<IoApic>, gsi: nat, k: nat)
    requires Spread(ios) && Serves(ios, gsi, k)
    ensures Choose(ios, gsi, |ios|) == k <==> k == 0 || gsi == ios[k].base
  {
    ChoiceSoFar(ios, gsi, k, |ios|);
  }

  /** Two IO APICs at interrupts 0 and 24: interrupt 30 is the second one's, and the code chooses the first. */
  lemma WrongIoApicChosen(ios: seq<IoApic>)
    requires |ios| == 2 && ios[0].base == 0 && ios[1].base == 24
    ensures Serves(ios, 30, 1) && Choose(ios, 30, 2) == 0
  {
    ChoiceSoFar(ios, 30, 1, 2);
  }

  // ----- The same in bytes -----

  /** The entry after the one at `i`: the one that the second byte leads to, or that 8 bytes on where this is 0. */
  predicate Follows(es: seq<nat>, i: nat, next: nat) {
    i + 1 < |es| ==> next == i + if es[i + 1] == 0 then 8 else es[i + 1]
  }

  /** The entry that would follow is behind the end of the table. */
  predicate IsLast(es: seq<nat>, i: nat) {
    i + 1 < |es| ==> i + (if es[i + 1] == 0 then 8 else es[i + 1]) >= |es|
  }

  /** A walk visits the first entry, and after each one the one that follows, up to the end of the table. */
  lemma {:induction false} WalkVisits(es: seq<nat>, i: nat)
    ensures var w := Walk(es, i);
      && (w == [] <==> i >= |es|) && (w != [] ==> w[0] == i)
      && (forall k :: 0 <= k < |w| ==> w[k] < |es|)
      && (forall k :: 0 <= k < |w| - 1 ==> Follows(es, w[k], w[k + 1]))
      && (w != [] ==> IsLast(es, w[|w| - 1]))
    decreases |es| - i
  {
    if i < |es| {
      WalkVisits(es, Next(es, i));
      var w, rest := Walk(es, i), Walk(es, Next(es, i));
      assert w == [i] + rest && Follows(es, i, Next(es, i)) && (rest == [] ==> IsLast(es, i));
      hide Follows, IsLast;
      forall k | 0 <= k < |w| - 1 ensures Follows(es, w[k], w[k + 1]) {
        if k > 0 {
          assert w[k] == rest[k - 1] && w[k + 1] == rest[k];
        }
      }
    }
  }

  /** How many of the entries at these offsets are of a kind. */
  function OfKind(es: seq<nat>, at: seq<nat>, kind: nat): nat
    requires forall k :: 0 <= k < |at| ==> at[k] < |es|
  {
    if at == [] then 0 else OfKind(es, at[..|at| - 1], kind) + if es[at[|at| - 1]] == kind then 1 else 0
  }

  /** Four bytes as a number, the lowest first. */
  function Word32(es: seq<nat>, i: nat): nat
    requires i + 4 <= |es|
  {
    es[i] + 0x100 * es[i + 1] + 0x1_0000 * es[i + 2] + 0x100_0000 * es[i + 3]
  }

  /** The bytes of the visited entries are there: 4 for kind 0, 12 for kind 1 and 10 for kind 2. */
  ghost predicate InBytes(es: seq<nat>, at: seq<nat>) {
    forall k :: 0 <= k < |at| ==>
      && at[k] < |es| && (es[at[k]] == 0 ==> at[k] + 4 <= |es|)
      && (es[at[k]] == 1 ==> at[k] + 12 <= |es|) && (es[at[k]] == 2 ==> at[k] + 10 <= |es|)
  }

  lemma WellFormedInBytes(es: seq<nat>)
    requires WellFormed(es)
    ensures InBytes(es, Walk(es, 0))
  {
    WalkVisits(es, 0);
    var w := Walk(es, 0);
    forall k | 0 <= k < |w|
      ensures (es[w[k]] == 0 ==> w[k] + 4 <= |es|) && (es[w[k]] == 1 ==> w[k] + 12 <= |es|)
      ensures es[w[k]] == 2 ==> w[k] + 10 <= |es|
    {
      assert w[k] + Touched(Byte(es, w[k])) <= |es|;
    }
  }

  /** A local APIC's record: one for each entry of kind 0, in table order, with the fourth byte as the APIC's id and the
      third as the processor's. */
  ghost predicate LapicsAreListed(es: seq<nat>, at: seq<nat>, data: seq<Lapic>)
    requires InBytes(es, at)
  {
    && |data| == OfKind(es, at, 0)
    && forall j :: 0 <= j < |at| && es[at[j]] == 0 ==>
         var k := OfKind(es, at[..j], 0);
         k < |data| && data[k].apicId == es[at[j] + 3] && data[k].processorId == es[at[j] + 2]
  }

  /** An IO APIC's: one for each entry of kind 1, with the third byte as its id, and its address and first interrupt in
      the second and third four bytes. */
  ghost predicate IoApicsAreListed(es: seq<nat>, at: seq<nat>, data: seq<IoApic>)
    requires InBytes(es, at)
  {
    && |data| == OfKind(es, at, 1)
    && forall j :: 0 <= j < |at| && es[at[j]] == 1 ==>
         var k := OfKind(es, at[..j], 1);
         && k < |data| && data[k].id == es[at[j] + 2]
         && data[k].addr == Word32(es, at[j] + 4) && data[k].base == Word32(es, at[j] + 8)
  }

  lemma {:induction false} ListsLapics(es: seq<nat>, at: seq<nat>)
    requires InBytes(es, at)
    ensures LapicsAreListed(es, at, Lapics(es, at))
    decreases |at|
  {
    if at != [] {
      var init, i := at[..|at| - 1], at[|at| - 1];
      ListsLapics(es, init);
      forall j | 0 <= j < |at| && es[at[j]] == 0
        ensures var k := OfKind(es, at[..j], 0);
          && k < |Lapics(es, at)| && Lapics(es, at)[k].apicId == es[at[j] + 3]
          && Lapics(es, at)[k].processorId == es[at[j] + 2]
      {
        if j < |init| {
          assert init[j] == at[j] && init[..j] == at[..j];
        }
      }
    }
  }

  lemma WordIs(es: seq<nat>, i: nat)
    requires i + 4 <= |es|
    ensures U32(es, i) == Word32(es, i)
  {
  }

  lemma {:induction false} ListsIoApics(es: seq<nat>, at: seq<nat>)
    requires InBytes(es, at)
    ensures IoApicsAreListed(es, at, IoApics(es, at))
    decreases |at|
  {
    if at != [] {
      var init, i := at[..|at| - 1], at[|at| - 1];
      ListsIoApics(es, init);
      if es[i] == 1 {
        WordIs(es, i + 4);
        WordIs(es, i + 8);
      }
      hide U32, Word32;
      assert IoApics(es, at) == IoApics(es, init) + if es[i] == 1 then [IoApicAt(es, i)] else [];
      hide IoApics;
      forall j | 0 <= j < |at| && es[at[j]] == 1
        ensures var k, ios := OfKind(es, at[..j], 1), IoApics(es, at);
          && k < |ios| && ios[k].id == es[at[j] + 2]
          && ios[k].addr == Word32(es, at[j] + 4) && ios[k].base == Word32(es, at[j] + 8)
      {
        if j < |init| {
          assert init[j] == at[j] && init[..j] == at[..j];
        }
      }
    }
  }

  /** An override: its bus and its interrupt are the third and fourth byte, the system interrupt the four bytes after,
      and bits 1 and 3 of the ninth say that it is active low and level triggered. */
  ghost predicate IsOverride(es: seq<nat>, i: nat, o: IsaOverride)
    requires i + 10 <= |es|
  {
    && o.bus == es[i + 2] && o.irq == es[i + 3] && o.gsi == Word32(es, i + 4)
    && (o.activeLow <==> es[i + 8] / 2 % 2 == 1) && (o.levelTrigger <==> es[i + 8] / 8 % 2 == 1)
  }

  lemma OverrideInBytes(es: seq<nat>, i: nat)
    requires i + 10 <= |es|
    ensures IsOverride(es, i, OverrideAt(es, i))
  {
    WordIs(es, i + 4);
    LowByte(es[i + 8], es[i + 9]);
  }

  lemma LowByte(x: nat, y: nat)
    ensures (x + 0x100 * y) / 2 % 2 == x / 2 % 2 && (x + 0x100 * y) / 8 % 2 == x / 8 % 2
  {
    var a, b := 0x80 * y, 0x20 * y;
    assert (x + 2 * a) / 2 == x / 2 + a;
    assert (x + 8 * b) / 8 == x / 8 + b;
    EvenMore(x / 2, 0x40 * y);
    EvenMore(x / 8, 0x10 * y);
  }

  lemma EvenMore(x: nat, h: nat)
    ensures (x + 2 * h) % 2 == x % 2
  {
  }

  /** The entry sends its override to IO APIC `k`. */
  ghost predicate GoesTo(es: seq<nat>, i: nat, ios: seq<IoApic>, k: nat)
    requires i < |es| && (es[i] == 2 ==> i + 10 <= |es|)
  {
    es[i] == 2 && Choose(ios, Word32(es, i + 4), |ios|) == k
  }

  /** How many of the entries at these offsets do. */
  ghost function GoingTo(es: seq<nat>, at: seq<nat>, ios: seq<IoApic>, k: nat): nat
    requires InBytes(es, at)
  {
    if at == [] then 0
    else GoingTo(es, at[..|at| - 1], ios, k) + if GoesTo(es, at[|at| - 1], ios, k) then 1 else 0
  }

  /** The overrides of IO APIC `k`: one for each entry of kind 2 that is sent to it, in table order. */
  ghost predicate OverridesAreListed(es: seq<nat>, at: seq<nat>, ios: seq<IoApic>, k: nat, data: seq<IsaOverride>)
    requires InBytes(es, at)
  {
    && |data| == GoingTo(es, at, ios, k)
    && forall j :: 0 <= j < |at| && GoesTo(es, at[j], ios, k) ==>
         var m := GoingTo(es, at[..j], ios, k);
         m < |data| && IsOverride(es, at[j], data[m])
  }

  lemma {:induction false} ListsOverrides(es: seq<nat>, at: seq<nat>, ios: seq<IoApic>, k: nat)
    requires InBytes(es, at)
    ensures OverridesAreListed(es, at, ios, k, Assigned(es, at, ios, k))
    decreases |at|
  {
    if at != [] {
      var init, i := at[..|at| - 1], at[|at| - 1];
      ListsOverrides(es, init, ios, k);
      if es[i] == 2 {
        OverrideInBytes(es, i);
      }
      hide IsOverride, Choose, Word32, OverrideAt;
      assert es[i] == 2 ==> OverrideAt(es, i).gsi == Word32(es, i + 4) by {
        if es[i] == 2 {
          GsiIsWord(es, i);
        }
      }
      forall j | 0 <= j < |at| && GoesTo(es, at[j], ios, k)
        ensures var m, all := GoingTo(es, at[..j], ios, k), Assigned(es, at, ios, k);
          m < |all| && IsOverride(es, at[j], all[m])
      {
        if j < |init| {
          assert init[j] == at[j] && init[..j] == at[..j];
        }
      }
    }
  }

  lemma GsiIsWord(es: seq<nat>, i: nat)
    requires i + 10 <= |es|
    ensures OverrideAt(es, i).gsi == Word32(es, i + 4)
  {
    WordIs(es, i + 4);
  }

  // ----- Prefixes of a walk -----

  lemma {:induction false} LapicsOfPrefix(es: seq<nat>, at: seq<nat>, n: nat)
    requires n <= |at|
    ensures Lapics(es, at[..n]) <= Lapics(es, at) && IoApics(es, at[..n]) <= IoApics(es, at)
    decreases |at|
  {
    if n < |at| {
      assert at[..|at| - 1][..n] == at[..n];
      LapicsOfPrefix(es, at[..|at| - 1], n);
    } else {
      assert at[..n] == at;
    }
  }

  lemma {:induction false} AssignedOfPrefix(es: seq<nat>, at: seq<nat>, ios: seq<IoApic>, k: nat, n: nat)
    requires n <= |at|
    ensures Assigned(es, at[..n], ios, k) <= Assigned(es, at, ios, k)
    decreases |at|
  {
    if n < |at| {
      assert at[..|at| - 1][..n] == at[..n];
      AssignedOfPrefix(es, at[..|at| - 1], ios, k, n);
    } else {
      assert at[..n] == at;
    }
  }

  /** One more entry of the walk. */
  lemma OneMore(es: seq<nat>, at: seq<nat>, ios: seq<IoApic>, k: nat, n: nat)
    requires n < |at|
    ensures Lapics(es, at[..n + 1])
         == Lapics(es, at[..n]) + if Byte(es, at[n]) == LAPIC_ENTRY then [LapicAt(es, at[n])] else []
    ensures IoApics(es, at[..n + 1])
         == IoApics(es, at[..n]) + if Byte(es, at[n]) == IOAPIC_ENTRY then [IoApicAt(es, at[n])] else []
    ensures Assigned(es, at[..n + 1], ios, k) == Assigned(es, at[..n], ios, k)
         + if Byte(es, at[n]) == ISAOVR_ENTRY && Choose(ios, OverrideAt(es, at[n]).gsi, |ios|) == k
           then [OverrideAt(es, at[n])] else []
  {
    assert at[..n + 1][..n] == at[..n];
  }

  /** Where a walk stands after `n` entries. */
  ghost predicate WalkAt(es: seq<nat>, n: nat, i: nat) {
    n <= |Walk(es, 0)| && Walk(es, 0)[n..] == Walk(es, i)
  }

  lemma WalkStep(es: seq<nat>, n: nat, i: nat)
    requires WalkAt(es, n, i) && i < |es|
    ensures n < |Walk(es, 0)| && Walk(es, 0)[n] == i && WalkAt(es, n + 1, Next(es, i))
  {
    var w := Walk(es, 0);
    assert w[n..][0] == i;
    assert w[n..][1..] == w[n + 1..];
  }

  lemma WalkEnds(es: seq<nat>, n: nat, i: nat)
    requires WalkAt(es, n, i) && i >= |es|
    ensures n == |Walk(es, 0)| && Walk(es, 0)[..n] == Walk(es, 0)
  {
  }

  /** The header of a visited entry, and what its reader touches, lie inside the table. */
  lemma VisitedInTable(es: seq<nat>, n: nat, i: nat)
    requires WellFormed(es) && WalkAt(es, n, i) && i < |es|
    ensures i + 1 < |es| && i + Touched(es[i]) <= |es|
  {
    WalkStep(es, n, i);
    assert Walk(es, 0)[n] + Touched(Byte(es, Walk(es, 0)[n])) <= |es|;
  }

  // ----- Counting and assigning, entry by entry -----

  /** No override is visited, so none needs an IO APIC. */
  ghost predicate NoOverrides(es: seq<nat>) {
    forall k :: 0 <= k < |Walk(es, 0)| ==> Byte(es, Walk(es, 0)[k]) != ISAOVR_ENTRY
  }

  /** The records after the counting pass has seen the first `n` entries. */
  ghost predicate Counted(es: seq<nat>, n: nat, ios0: seq<IoApic>, ios: seq<IoApic>)
    requires n <= |Walk(es, 0)|
  {
    |ios| == |ios0| && forall k :: 0 <= k < |ios| ==>
      ios[k] == ios0[k].(cnt := |Assigned(es, Walk(es, 0)[..n], ios0, k)|)
  }

  /** The records after the storing pass has seen the first `n` entries. */
  ghost predicate Stored(es: seq<nat>, n: nat, ios0: seq<IoApic>, ios: seq<IoApic>)
    requires n <= |Walk(es, 0)|
  {
    |ios| == |ios0| && forall k :: 0 <= k < |ios| ==>
      var now, all := Assigned(es, Walk(es, 0)[..n], ios0, k), Assigned(es, Walk(es, 0), ios0, k);
      && ios[k].(idx := 0, cnt := 0, overrides := []) == ios0[k]
      && ios[k].cnt == |all| && ios[k].idx == |now| <= |all|
      && (if ios[k].idx == 0 then ios[k].overrides == []
          else |ios[k].overrides| == |all| && ios[k].overrides[..|now|] == now)
  }

  /** Fresh records, as the second pass leaves them. */
  predicate Fresh(ios: seq<IoApic>) {
    forall k :: 0 <= k < |ios| ==> ios[k].cnt == 0 && ios[k].idx == 0 && ios[k].overrides == []
  }

  lemma {:induction false} IoApicsFresh(es: seq<nat>, at: seq<nat>)
    ensures Fresh(IoApics(es, at))
  {
    if at != [] {
      IoApicsFresh(es, at[..|at| - 1]);
    }
  }

  lemma CountedStart(es: seq<nat>, ios: seq<IoApic>)
    requires Fresh(ios)
    ensures Counted(es, 0, ios, ios)
  {
    assert Walk(es, 0)[..0] == [];
  }

  function CountOne(ios: seq<IoApic>, k: nat): seq<IoApic>
    requires k < |ios|
  {
    ios[k := ios[k].(cnt := ios[k].cnt + 1)]
  }

  lemma CountedStep(es: seq<nat>, n: nat, ios0: seq<IoApic>, ios: seq<IoApic>)
    requires n < |Walk(es, 0)| && Counted(es, n, ios0, ios) && (|ios| > 0 || NoOverrides(es))
    ensures var i := Walk(es, 0)[n];
      if Byte(es, i) == ISAOVR_ENTRY
      then Counted(es, n + 1, ios0, CountOne(ios, Choose(ios, OverrideAt(es, i).gsi, |ios|)))
      else Counted(es, n + 1, ios0, ios)
  {
    hide Assigned, Walk;
    var w := Walk(es, 0);
    var o := OverrideAt(es, w[n]);
    ChooseReadsBases(ios0, ios, o.gsi, |ios|);
    var ios' := if Byte(es, w[n]) == ISAOVR_ENTRY then CountOne(ios, Choose(ios, o.gsi, |ios|)) else ios;
    forall k | 0 <= k < |ios| ensures ios'[k] == ios0[k].(cnt := |Assigned(es, w[..n + 1], ios0, k)|) {
      OneMore(es, w, ios0, k, n);
      assert ios[k] == ios0[k].(cnt := |Assigned(es, w[..n], ios0, k)|);
    }
  }

  lemma StoredStart(es: seq<nat>, ios0: seq<IoApic>, ios: seq<IoApic>)
    requires Fresh(ios0) && Counted(es, |Walk(es, 0)|, ios0, ios)
    ensures Stored(es, 0, ios0, ios)
  {
    assert Walk(es, 0)[..|Walk(es, 0)|] == Walk(es, 0) && Walk(es, 0)[..0] == [];
  }

  /** Storing one override: the first one allocates the array, and each goes to the next free place. */
  function StoreOne(ios: seq<IoApic>, k: nat, o: IsaOverride): seq<IoApic>
    requires k < |ios| && ios[k].idx < ios[k].cnt
    requires ios[k].overrides == [] || |ios[k].overrides| == ios[k].cnt
  {
    var room := if ios[k].overrides == [] then seq(ios[k].cnt, _ => IsaOverride(0, 0, 0, false, false))
      else ios[k].overrides;
    ios[k := ios[k].(overrides := room[ios[k].idx := o], idx := ios[k].idx + 1)]
  }

  /** The array that the counting pass sized has room for every override that the storing pass sends to
      it, because both passes choose the same IO APIC. */
  lemma StoredStep(es: seq<nat>, n: nat, ios0: seq<IoApic>, ios: seq<IoApic>)
    requires n < |Walk(es, 0)| && Stored(es, n, ios0, ios) && (|ios| > 0 || NoOverrides(es))
    ensures var i := Walk(es, 0)[n];
      var o := OverrideAt(es, i);
      var k := Choose(ios, o.gsi, |ios|);
      if Byte(es, i) == ISAOVR_ENTRY
      then && k < |ios| && ios[k].idx < ios[k].cnt && (ios[k].overrides == [] || |ios[k].overrides| == ios[k].cnt)
           && Stored(es, n + 1, ios0, StoreOne(ios, k, o))
      else Stored(es, n + 1, ios0, ios)
  {
    hide Assigned, Walk;
    var w := Walk(es, 0);
    var i := w[n];
    var o := OverrideAt(es, i);
    var k := Choose(ios, o.gsi, |ios|);
    ChooseReadsBases(ios0, ios, o.gsi, |ios|);
    forall j | 0 <= j < |ios| ensures |Assigned(es, w[..n + 1], ios0, j)| <= |Assigned(es, w, ios0, j)| {
      OneMore(es, w, ios0, j, n);
      AssignedOfPrefix(es, w, ios0, j, n + 1);
    }
    OneMore(es, w, ios0, k, n);
    forall j | 0 <= j < |ios| && (j != k || Byte(es, i) != ISAOVR_ENTRY)
      ensures Assigned(es, w[..n + 1], ios0, j) == Assigned(es, w[..n], ios0, j)
    {
      OneMore(es, w, ios0, j, n);
    }
    if Byte(es, i) == ISAOVR_ENTRY {
      var now := Assigned(es, w[..n], ios0, k);
      assert Assigned(es, w[..n + 1], ios0, k) == now + [o];
      var ios' := StoreOne(ios, k, o);
      assert ios'[k].overrides[..|now| + 1] == now + [o];
    }
  }

  // ----- The code -----

  class Tables {
    var lapicData: array<Lapic>
    var ioapicData: array<IoApic>
    var lapicCnt: nat
    var ioapicCnt: nat

    constructor ()
      ensures fresh(lapicData) && fresh(ioapicData)
    {
      lapicData := new Lapic[0];
      ioapicData := new IoApic[0];
      lapicCnt, ioapicCnt := 0, 0;
    }

    /** The loop of isaovr_count_update and of save_isaovr that picks an IO APIC. */
    method ChooseIoApic(gsi: nat) returns (idx: nat)
      requires ioapicCnt == ioapicData.Length
      ensures idx == Choose(ioapicData[..], gsi, ioapicCnt)
    {
      idx := 0;
      for i := 0 to ioapicCnt
        invariant idx == Choose(ioapicData[..], gsi, i)
      {
        if gsi >= ioapicData[i].base && gsi - ioapicData[i].base <= idx {
          idx := i;
        }
      }
    }

    /** acpi_intr_init over a well-formed table with an IO APIC, or with no override for one: all four walks
        end; the arrays hold the table's controllers in order; and each IO APIC's override array is exactly
        filled with the overrides that were counted for it. */
    method Init(es: seq<nat>)
      requires WellFormed(es) && (IoApics(es, Walk(es, 0)) != [] || NoOverrides(es))
      modifies this
      ensures fresh(lapicData) && lapicData[..] == Lapics(es, Walk(es, 0)) && lapicCnt == lapicData.Length
      ensures fresh(ioapicData) && ioapicData.Length == |IoApics(es, Walk(es, 0))| && ioapicCnt == ioapicData.Length
      ensures forall k :: 0 <= k < ioapicCnt ==>
        var io, listed := ioapicData[k], IoApics(es, Walk(es, 0))[k];
        && io.id == listed.id && io.addr == listed.addr && io.base == listed.base
        && io.idx == io.cnt && io.overrides == Assigned(es, Walk(es, 0), IoApics(es, Walk(es, 0)), k)
        && io.cnt == |io.overrides|
      ensures InBytes(es, Walk(es, 0)) && LapicsAreListed(es, Walk(es, 0), lapicData[..])
      ensures IoApicsAreListed(es, Walk(es, 0), ioapicData[..])
      ensures forall k :: 0 <= k < ioapicCnt ==>
        OverridesAreListed(es, Walk(es, 0), ioapicData[..], k, ioapicData[k].overrides)
    {
      hide Walk, Lapics, IoApics, Assigned, WalkAt, Counted, Stored, WellFormed, Choose;
      WellFormedInBytes(es);
      ListsLapics(es, Walk(es, 0));
      CountControllers(es);
      FillControllers(es);
      ghost var ios0 := ioapicData[..];
      IoApicsFresh(es, Walk(es, 0));
      CountOverrides(es);
      StoredStart(es, ios0, ioapicData[..]);
      StoreOverrides(es, ios0);
      StoredEnd(es, ios0, ioapicData[..]);
      FilledAsListed(es, ios0, ioapicData[..]);
    }

    /** The first walk, and the allocation of the two arrays. */
    method CountControllers(es: seq<nat>)
      requires WellFormed(es)
      modifies this
      ensures fresh(lapicData) && lapicCnt == |Lapics(es, Walk(es, 0))| == lapicData.Length
      ensures fresh(ioapicData) && ioapicCnt == |IoApics(es, Walk(es, 0))| == ioapicData.Length
    {
      hide Walk, WalkAt, WellFormed;
      lapicCnt, ioapicCnt := 0, 0;
      var i := 0;
      ghost var n := 0;
      WalkStarts(es);
      while i < |es|
        invariant WalkAt(es, n, i) && n <= |Walk(es, 0)|
        invariant lapicCnt == |Lapics(es, Walk(es, 0)[..n])| && ioapicCnt == |IoApics(es, Walk(es, 0)[..n])|
        decreases |es| - i
      {
        WalkStep(es, n, i);
        VisitedInTable(es, n, i);
        OneMore(es, Walk(es, 0), [], 0, n);
        if es[i] == LAPIC_ENTRY {
          lapicCnt := lapicCnt + 1;
        } else if es[i] == IOAPIC_ENTRY {
          ioapicCnt := ioapicCnt + 1;
        }
        i := if es[i + 1] == 0 then i + 8 else i + es[i + 1];
        n := n + 1;
      }
      WalkEnds(es, n, i);
      lapicData := new Lapic[lapicCnt](_ => Lapic(0, 0));
      ioapicData := new IoApic[ioapicCnt](_ => IoApic(0, 0, 0, 0, 0, []));
    }

    /** The second walk: stores each controller at the next place. */
    method FillControllers(es: seq<nat>)
      requires WellFormed(es) && lapicCnt == |Lapics(es, Walk(es, 0))| == lapicData.Length
      requires ioapicCnt == |IoApics(es, Walk(es, 0))| == ioapicData.Length
      modifies lapicData, ioapicData
      ensures lapicData[..] == Lapics(es, Walk(es, 0)) && ioapicData[..] == IoApics(es, Walk(es, 0))
    {
      hide Walk, WalkAt, WellFormed, Lapics, IoApics, Assigned, LapicAt, IoApicAt;
      var lapicIdx, ioapicIdx, i := 0, 0, 0;
      ghost var n := 0;
      WalkStarts(es);
      NoControllers(es);
      while i < |es|
        invariant WalkAt(es, n, i) && n <= |Walk(es, 0)|
        invariant lapicIdx == |Lapics(es, Walk(es, 0)[..n])| <= lapicCnt
        invariant ioapicIdx == |IoApics(es, Walk(es, 0)[..n])| <= ioapicCnt
        invariant lapicData[..lapicIdx] == Lapics(es, Walk(es, 0)[..n])
        invariant ioapicData[..ioapicIdx] == IoApics(es, Walk(es, 0)[..n])
        decreases |es| - i
      {
        WalkStep(es, n, i);
        VisitedInTable(es, n, i);
        OneMore(es, Walk(es, 0), [], 0, n);
        LapicsOfPrefix(es, Walk(es, 0), n + 1);
        ghost var ls, os := lapicData[..lapicIdx], ioapicData[..ioapicIdx];
        if es[i] == LAPIC_ENTRY {
          lapicData[lapicIdx] := LapicAt(es, i);
          lapicIdx := lapicIdx + 1;
          assert lapicData[..lapicIdx] == ls + [LapicAt(es, i)];
        } else if es[i] == IOAPIC_ENTRY {
          ioapicData[ioapicIdx] := IoApicAt(es, i);
          ioapicIdx := ioapicIdx + 1;
          assert ioapicData[..ioapicIdx] == os + [IoApicAt(es, i)];
        }
        i := if es[i + 1] == 0 then i + 8 else i + es[i + 1];
        n := n + 1;
      }
      WalkEnds(es, n, i);
    }

    /** The third walk: counts the overrides of each IO APIC. */
    method CountOverrides(es: seq<nat>)
      requires WellFormed(es) && ioapicCnt == ioapicData.Length && (ioapicCnt > 0 || NoOverrides(es))
        && Fresh(ioapicData[..])
      modifies ioapicData
      ensures Counted(es, |Walk(es, 0)|, old(ioapicData[..]), ioapicData[..])
    {
      hide Walk, WalkAt, WellFormed, Counted, Choose, Assigned;
      ghost var ios0 := ioapicData[..];
      var i := 0;
      ghost var n := 0;
      WalkStarts(es);
      CountedStart(es, ios0);
      while i < |es|
        invariant WalkAt(es, n, i) && n <= |Walk(es, 0)|
        invariant Counted(es, n, ios0, ioapicData[..])
        decreases |es| - i
      {
        WalkStep(es, n, i);
        VisitedInTable(es, n, i);
        CountedStep(es, n, ios0, ioapicData[..]);
        if es[i] == ISAOVR_ENTRY {
          ghost var before := ioapicData[..];
          var k := ChooseIoApic(OverrideAt(es, i).gsi);
          ioapicData[k] := ioapicData[k].(cnt := ioapicData[k].cnt + 1);
          assert ioapicData[..] == CountOne(before, k);
        }
        i := if es[i + 1] == 0 then i + 8 else i + es[i + 1];
        n := n + 1;
      }
      WalkEnds(es, n, i);
    }

    /** The fourth walk: stores the overrides. */
    method StoreOverrides(es: seq<nat>, ghost ios0: seq<IoApic>)
      requires WellFormed(es) && ioapicCnt == ioapicData.Length && (ioapicCnt > 0 || NoOverrides(es))
      requires Stored(es, 0, ios0, ioapicData[..])
      modifies ioapicData
      ensures Stored(es, |Walk(es, 0)|, ios0, ioapicData[..])
    {
      hide Walk, WalkAt, WellFormed, Stored, Choose, Assigned;
      var i := 0;
      ghost var n := 0;
      WalkStarts(es);
      while i < |es|
        invariant WalkAt(es, n, i) && n <= |Walk(es, 0)|
        invariant Stored(es, n, ios0, ioapicData[..])
        decreases |es| - i
      {
        WalkStep(es, n, i);
        VisitedInTable(es, n, i);
        StoredStep(es, n, ios0, ioapicData[..]);
        if es[i] == ISAOVR_ENTRY {
          ghost var before := ioapicData[..];
          var o := OverrideAt(es, i);
          var k := ChooseIoApic(o.gsi);
          if ioapicData[k].overrides == [] {
            ioapicData[k] := ioapicData[k].(overrides :=
              seq(ioapicData[k].cnt, _ => IsaOverride(0, 0, 0, false, false)));
          }
          var at := ioapicData[k].idx;
          ioapicData[k] := ioapicData[k].(idx := at + 1);
          ioapicData[k] := ioapicData[k].(overrides := ioapicData[k].overrides[at := o]);
          assert ioapicData[..] == StoreOne(before, k, o);
        }
        i := if es[i + 1] == 0 then i + 8 else i + es[i + 1];
        n := n + 1;
      }
      WalkEnds(es, n, i);
    }
  }

  /** Filling in the overrides leaves what is listed of the IO APICs, and which one is chosen. */
  lemma FilledAsListed(es: seq<nat>, ios0: seq<IoApic>, ios: seq<IoApic>)
    requires InBytes(es, Walk(es, 0)) && ios0 == IoApics(es, Walk(es, 0)) && |ios| == |ios0|
    requires forall k :: 0 <= k < |ios| ==>
      && ios[k].id == ios0[k].id && ios[k].addr == ios0[k].addr && ios[k].base == ios0[k].base
      && ios[k].overrides == Assigned(es, Walk(es, 0), ios0, k)
    ensures IoApicsAreListed(es, Walk(es, 0), ios)
    ensures forall k :: 0 <= k < |ios| ==> OverridesAreListed(es, Walk(es, 0), ios, k, ios[k].overrides)
  {
    hide Walk, Assigned, Choose, Word32, IoApics, OverridesAreListed;
    ListsIoApics(es, Walk(es, 0));
    forall k | 0 <= k < |ios| ensures OverridesAreListed(es, Walk(es, 0), ios, k, ios[k].overrides) {
      AssignedReadsBases(es, Walk(es, 0), ios0, ios, k);
      ListsOverrides(es, Walk(es, 0), ios, k);
    }
  }

  lemma WalkStarts(es: seq<nat>)
    ensures WalkAt(es, 0, 0)
    ensures Walk(es, 0)[..0] == []
  {
  }

  lemma NoControllers(es: seq<nat>)
    ensures Lapics(es, []) == [] && IoApics(es, []) == []
  {
  }

  lemma StoredEnd(es: seq<nat>, ios0: seq<IoApic>, ios: seq<IoApic>)
    requires Stored(es, |Walk(es, 0)|, ios0, ios)
    ensures |ios| == |ios0| && forall k :: 0 <= k < |ios| ==>
      && ios[k].id == ios0[k].id && ios[k].addr == ios0[k].addr && ios[k].base == ios0[k].base
      && ios[k].idx == ios[k].cnt == |ios[k].overrides| && ios[k].overrides == Assigned(es, Walk(es, 0), ios0, k)
  {
    assert Walk(es, 0)[..|Walk(es, 0)|] == Walk(es, 0);
    hide Walk, Assigned;
    forall k | 0 <= k < |ios|
      ensures ios[k].id == ios0[k].id && ios[k].addr == ios0[k].addr && ios[k].base == ios0[k].base
      ensures ios[k].idx == ios[k].cnt == |ios[k].overrides| && ios[k].overrides == Assigned(es, Walk(es, 0), ios0, k)
    {
      var all := Assigned(es, Walk(es, 0), ios0, k);
      assert ios[k].(idx := 0, cnt := 0, overrides := []) == ios0[k];
      if all != [] {
        assert ios[k].overrides[..|all|] == ios[k].overrides;
      }
    }
  }
}
