/** That compaction merges every pair of neighbours it can, and what an allocation gains by it. */
module Neighbours {
  import opened PageEntry
  import opened Ring
  import opened RingSort
  import opened Compaction
  import opened AllocatorSpec
  import opened FirstFit

  /** The second run begins where the first one ends. */
  predicate Touch(e: Word, f: Word) { Page(e) + Count(e) == Page(f) }

  /** And together they still make one entry. */
  predicate CouldMerge(e: Word, f: Word) { Touch(e, f) && Count(e) + Count(f) < 0x10_0000 }

  /** All positions from `i` up to `j` are cleared. */
  predicate AllGone(gone: set<nat>, i: nat, j: nat) { forall x :: i <= x < j ==> x in gone }

  /** Of the entries before the last, no two could merge that are not cleared and have only cleared ones between
      them. */
  ghost predicate NoneLeft(s: seq<Word>, gone: set<nat>, from: nat) {
    forall i, j :: from <= i < j < |s| - 1 && i !in gone && j !in gone && AllGone(gone, i + 1, j) ==>
      !CouldMerge(s[i], s[j])
  }

  function Positions(at: seq<nat>): set<nat> { set i | i in at }

  // ----- The merge loop -----

  lemma MergeableTouch(e: Word, f: Word)
    ensures Mergeable(e, f) <==> CouldMerge(e, f)
    ensures Mergeable(e, f) ==>
      && Page(Merged(e, f)) == Page(e) && Count(Merged(e, f)) == Count(e) + Count(f)
      && Page(Merged(e, f)) + Count(Merged(e, f)) == Page(f) + Count(f)
  {
    if Mergeable(e, f) {
      EntryRoundTrip(Addr(e), Count(e) + Count(f));
    }
  }

  /** One turn of the loop. */
  lemma MergeUnfold(w: seq<Word>, k: nat)
    requires k + 2 < |w|
    ensures var m := MergeFrom(w, k);
      if Mergeable(w[k], w[k + 1]) then
        var m' := MergeFrom(MergeAt(w, k), k + 1);
        m.entries == m'.entries && m.at == [k] + m'.at && Positions(m.at) == Positions(m'.at) + {k}
      else m == MergeFrom(w, k + 1)
  {
  }

  lemma PositionsFrom(w: seq<Word>, k: nat)
    ensures forall i :: i in Positions(MergeFrom(w, k).at) ==> k <= i < |w| - 2
    ensures |MergeFrom(w, k).entries| == |w|
    ensures |Positions(MergeFrom(w, k).at)| == |MergeFrom(w, k).at|
  {
    hide MergeFrom;
    MergeShape(w, k);
    Distinct(MergeFrom(w, k).at);
  }

  lemma {:induction false} Distinct(at: seq<nat>)
    requires forall i, j :: 0 <= i < j < |at| ==> at[i] < at[j]
    ensures |Positions(at)| == |at|
  {
    if at != [] {
      var n := |at| - 1;
      Distinct(at[..n]);
      assert at == at[..n] + [at[n]];
      assert Positions(at) == Positions(at[..n]) + {at[n]};
      assert at[n] !in at[..n];
    }
  }

  /** The first entry from `k` on that is not cleared begins where the `k`-th did, and is at least as long. */
  lemma {:induction false} FirstLeft(w: seq<Word>, k: nat) returns (p: nat)
    requires k + 1 < |w|
    ensures var m := MergeFrom(w, k);
      && |m.entries| == |w| && k <= p < |w| - 1 && p !in Positions(m.at) && AllGone(Positions(m.at), k, p)
      && Page(m.entries[p]) == Page(w[k]) && Count(m.entries[p]) >= Count(w[k])
    decreases |w| - k
  {
    hide MergeFrom, Merged, Count, Page;
    PositionsFrom(w, k);
    if k + 2 >= |w| {
      p := k;
      LoopOver(w, k);
    } else {
      MergeUnfold(w, k);
      MergeableTouch(w[k], w[k + 1]);
      if Mergeable(w[k], w[k + 1]) {
        p := FirstLeft(MergeAt(w, k), k + 1);
      } else {
        p := k;
        PositionsFrom(w, k + 1);
        MergeShape(w, k + 1);
      }
    }
  }

  lemma LoopOver(w: seq<Word>, k: nat)
    requires k + 2 >= |w|
    ensures MergeFrom(w, k) == Merge(w, [])
  {
  }

  /** What the loop leaves from position `k` on. */
  lemma {:induction false} LoopMergesAll(w: seq<Word>, k: nat)
    ensures NoneLeft(MergeFrom(w, k).entries, Positions(MergeFrom(w, k).at), k)
    decreases |w| - k
  {
    hide MergeFrom, Merged, Count, Page, CouldMerge;
    PositionsFrom(w, k);
    if k + 2 >= |w| {
      LoopOver(w, k);
    } else {
      MergeUnfold(w, k);
      MergeableTouch(w[k], w[k + 1]);
      if Mergeable(w[k], w[k + 1]) {
        LoopMergesAll(MergeAt(w, k), k + 1);
        PositionsFrom(MergeAt(w, k), k + 1);
        WiderNoneLeft(w, k);
      } else {
        LoopMergesAll(w, k + 1);
        FirstStays(w, k);
      }
    }
  }

  /** After a merge the next position is where it goes on. */
  lemma WiderNoneLeft(w: seq<Word>, k: nat)
    requires k + 2 < |w| && Mergeable(w[k], w[k + 1])
    requires var m := MergeFrom(MergeAt(w, k), k + 1); NoneLeft(m.entries, Positions(m.at), k + 1)
    ensures NoneLeft(MergeFrom(w, k).entries, Positions(MergeFrom(w, k).at), k)
  {
    hide MergeFrom, CouldMerge;
    MergeUnfold(w, k);
    var m, m' := MergeFrom(w, k), MergeFrom(MergeAt(w, k), k + 1);
    var gone, gone' := Positions(m.at), Positions(m'.at);
    forall i, j | k <= i < j < |m.entries| - 1 && i !in gone && j !in gone && AllGone(gone, i + 1, j)
      ensures !CouldMerge(m.entries[i], m.entries[j])
    {
      assert gone == gone' + {k} && i != k;
      assert AllGone(gone', i + 1, j) by {
        forall x | i + 1 <= x < j ensures x in gone' {
          assert x in gone;
        }
      }
    }
  }

  /** Without one, the entry stays, and what is left next of those behind it is no shorter than its neighbour was. */
  lemma FirstStays(w: seq<Word>, k: nat)
    requires k + 2 < |w| && !Mergeable(w[k], w[k + 1])
    requires var m := MergeFrom(w, k + 1); NoneLeft(m.entries, Positions(m.at), k + 1)
    ensures NoneLeft(MergeFrom(w, k).entries, Positions(MergeFrom(w, k).at), k)
  {
    hide MergeFrom, Count, Page;
    MergeUnfold(w, k);
    MergeableTouch(w[k], w[k + 1]);
    MergeShape(w, k + 1);
    PositionsFrom(w, k + 1);
    var m := MergeFrom(w, k);
    var gone := Positions(m.at);
    var p := FirstLeft(w, k + 1);
    forall i, j | k <= i < j < |m.entries| - 1 && i !in gone && j !in gone && AllGone(gone, i + 1, j)
      ensures !CouldMerge(m.entries[i], m.entries[j])
    {
      if i == k {
        assert j == p;
        assert m.entries[k] == w[k];
      }
    }
  }

  // ----- Compacting the ring -----

  /** `s` is the window after a compaction from `r` to `r'`, and `gone` what was cleared in it: as many positions as the
      head has moved by. */
  ghost predicate AfterMerging(r: Ring, r': Ring, s: seq<Word>, gone: set<nat>) {
    var n := |gone|;
    && |s| == |r.live| && n <= |s| && (forall i :: i in gone ==> i < |s| && s[i] == 0)
    && r'.live == s[n..] && r'.dead == r.dead + s[..n] && r'.cnt == r.cnt - n
  }

  /** The entry with the greatest address is never merged. */
  ghost predicate LastIsGreatest(r: Ring, s: seq<Word>) {
    s != [] && s[|s| - 1] in r.live && forall e :: e in r.live ==> Page(e) <= Page(s[|s| - 1])
  }

  /** Compacting a queue that is not empty leaves no two entries, except with the last, that begin where the other ends
      and would together still make one entry. */
  lemma CompactionMergesAll(r: Ring, r': Ring, exact: bool) returns (s: seq<Word>, gone: set<nat>)
    requires r.live != [] && Compacts(r, r', exact)
    ensures AfterMerging(r, r', s, gone) && NoneLeft(s, gone, 0) && LastIsGreatest(r, s)
  {
    hide MergeFrom, NoneLeft, IsPrefix;
    var w :| SortOf(Window(r), w) && r' == Compacted(r, w);
    var m := MergeFrom(w, 0);
    s, gone := m.entries, Positions(m.at);
    MergeShape(w, 0);
    PositionsFrom(w, 0);
    LoopMergesAll(w, 0);
    LastStays(w, 0);
    GreatestIsLast(r.live, w);
  }

  lemma {:induction false} LastStays(w: seq<Word>, k: nat)
    requires w != []
    ensures |MergeFrom(w, k).entries| == |w| && MergeFrom(w, k).entries[|w| - 1] == w[|w| - 1]
    decreases |w| - k
  {
    hide MergeFrom, Merged;
    if k + 2 >= |w| {
      LoopOver(w, k);
    } else {
      MergeUnfold(w, k);
      if Mergeable(w[k], w[k + 1]) {
        LastStays(MergeAt(w, k), k + 1);
      } else {
        LastStays(w, k + 1);
      }
    }
  }

  lemma GreatestIsLast(live: seq<Word>, w: seq<Word>)
    requires SortOf(live, w) && w != []
    ensures w[|w| - 1] in live && forall e :: e in live ==> Page(e) <= Page(w[|w| - 1])
  {
    assert w[|w| - 1] in multiset(live);
    forall e | e in live ensures Page(e) <= Page(w[|w| - 1]) {
      assert e in multiset(w);
      var i :| 0 <= i < |w| && w[i] == e;
      assert Addr(w[i]) <= Addr(w[|w| - 1]);
    }
  }

  // ----- What an allocation gains -----

  /** The positions before `n` whose entry touches the next one. */
  function Touching(w: seq<Word>, n: nat): nat
    requires n < |w| || n == 0
  {
    if n == 0 then 0 else Touching(w, n - 1) + if Touch(w[n - 1], w[n]) then 1 else 0
  }

  function TouchingAt(w: seq<Word>, n: nat): set<nat>
    requires n < |w| || n == 0
  {
    set i | 0 <= i < n && TouchesNext(w, i)
  }

  predicate TouchesNext(w: seq<Word>, i: nat)
    requires i + 1 < |w|
  {
    Touch(w[i], w[i + 1])
  }

  lemma {:induction false} TouchingCounts(w: seq<Word>, n: nat)
    requires n < |w| || n == 0
    ensures |TouchingAt(w, n)| == Touching(w, n)
  {
    hide Touch;
    if n > 0 {
      TouchingCounts(w, n - 1);
      assert TouchingAt(w, n) == TouchingAt(w, n - 1) + if Touch(w[n - 1], w[n]) then {n - 1} else {};
    } else {
      assert TouchingAt(w, 0) == {};
    }
  }

  /** Only where entries touch are they merged. */
  lemma {:induction false} MergesTouch(w: seq<Word>, k: nat)
    ensures forall x :: x in Positions(MergeFrom(w, k).at) ==> k <= x < |w| - 2 && Touch(w[x], w[x + 1])
    decreases |w| - k
  {
    hide MergeFrom, Merged, Count, Page;
    PositionsFrom(w, k);
    if k + 2 >= |w| {
      LoopOver(w, k);
    } else {
      MergeUnfold(w, k);
      MergeableTouch(w[k], w[k + 1]);
      if Mergeable(w[k], w[k + 1]) {
        var w' := MergeAt(w, k);
        MergesTouch(w', k + 1);
        forall x | x in Positions(MergeFrom(w, k).at) ensures k <= x < |w| - 2 && Touch(w[x], w[x + 1]) {
          if x != k {
            assert Touch(w'[x], w'[x + 1]);
          }
        }
      } else {
        MergesTouch(w, k + 1);
      }
    }
  }

  lemma MergesAreFew(w: seq<Word>)
    ensures |MergeFrom(w, 0).at| <= Touching(w, if |w| < 2 then 0 else |w| - 2)
  {
    hide MergeFrom, Touch;
    var n := if |w| < 2 then 0 else |w| - 2;
    PositionsFrom(w, 0);
    MergesTouch(w, 0);
    TouchingCounts(w, n);
    SubsetIsSmaller(Positions(MergeFrom(w, 0).at), TouchingAt(w, n));
  }

  lemma {:induction false} SubsetIsSmaller(a: set<nat>, b: set<nat>)
    requires a <= b
    ensures |a| <= |b|
    decreases |a|
  {
    if a != {} {
      var x :| x in a;
      SubsetIsSmaller(a - {x}, b - {x});
    }
  }

  /** Entries `i` to `j` of the window, not the last one, are neighbours, the first of them has none before it, and
      together they make one entry. */
  ghost predicate IsRunOf(w: seq<Word>, i: nat, j: nat) {
    && i <= j && j + 1 < |w| && (i > 0 ==> !Touch(w[i - 1], w[i]))
    && (forall x :: i <= x < j ==> Touch(w[x], w[x + 1])) && Pages(w, i, j) < 0x10_0000
  }

  /** The pages from the beginning of entry `i` to the end of entry `j`. */
  function Pages(w: seq<Word>, i: nat, j: nat): int
    requires i < |w| && j < |w|
  {
    Page(w[j]) + Count(w[j]) - Page(w[i])
  }

  /** A run at position `k` ends in one entry that is as long as the run. */
  lemma {:induction false} RunMerges(w: seq<Word>, k: nat, j: nat) returns (p: nat)
    requires k <= j && j + 1 < |w| && (forall x :: k <= x < j ==> Touch(w[x], w[x + 1])) && Pages(w, k, j) < 0x10_0000
    ensures var m := MergeFrom(w, k);
      |m.entries| == |w| && j <= p < |w| - 1 && Count(m.entries[p]) >= Pages(w, k, j)
    decreases j - k
  {
    if k == j {
      hide MergeFrom;
      p := FirstLeft(w, k);
    } else {
      assert Touch(w[k], w[k + 1]);
      RunIsLonger(w, k, j);
      hide MergeFrom, Merged, Count, Page;
      MergeUnfold(w, k);
      MergeableTouch(w[k], w[k + 1]);
      var w' := MergeAt(w, k);
      forall x | k + 1 <= x < j ensures Touch(w'[x], w'[x + 1]) {
        assert Touch(w[x], w[x + 1]);
      }
      p := RunMerges(w', k + 1, j);
    }
  }

  /** The first two entries of a run are no longer than the run. */
  lemma {:induction false} RunIsLonger(w: seq<Word>, k: nat, j: nat)
    requires k < j < |w| && forall x :: k <= x < j ==> Touch(w[x], w[x + 1])
    ensures Count(w[k]) + Count(w[k + 1]) <= Pages(w, k, j)
    decreases j - k
  {
    assert Touch(w[k], w[k + 1]);
    if k + 1 < j {
      RunIsLonger(w, k + 1, j);
    }
  }

  /** Before a run that has no neighbour before it, the loop does not touch it. */
  lemma {:induction false} RunIsReached(w: seq<Word>, k: nat, i: nat, j: nat) returns (p: nat)
    requires k <= i <= j && j + 1 < |w| && (i > k ==> !Touch(w[i - 1], w[i]))
    requires (forall x :: i <= x < j ==> Touch(w[x], w[x + 1])) && Pages(w, i, j) < 0x10_0000
    ensures var m := MergeFrom(w, k);
      |m.entries| == |w| && j <= p < |w| - 1 && Count(m.entries[p]) >= Pages(w, i, j)
    decreases i - k
  {
    if k == i {
      p := RunMerges(w, i, j);
    } else {
      hide MergeFrom, Merged, Count, Page, Touch;
      MergeUnfold(w, k);
      MergeableTouch(w[k], w[k + 1]);
      if Mergeable(w[k], w[k + 1]) {
        var w' := MergeAt(w, k);
        assert k + 1 < i;
        EndStays(w, k, i);
        assert w'[i..] == w[i..] by {
          assert forall x :: i <= x < |w| ==> w'[x] == w[x];
        }
        assert forall x :: i <= x < j ==> Touch(w'[x], w'[x + 1]);
        p := RunIsReached(w', k + 1, i, j);
      } else {
        p := RunIsReached(w, k + 1, i, j);
      }
    }
  }

  lemma EndStays(w: seq<Word>, k: nat, i: nat)
    requires k + 1 < i < |w| && Mergeable(w[k], w[k + 1]) && !Touch(w[i - 1], w[i])
    ensures !Touch(MergeAt(w, k)[i - 1], MergeAt(w, k)[i])
  {
    MergeableTouch(w[k], w[k + 1]);
    hide Merged, Count, Page;
  }

  /** Sorting gives one window only, if no two entries begin at the same page. */
  lemma SortIsUnique(live: seq<Word>, w: seq<Word>, v: seq<Word>)
    requires SortOf(live, w) && SortOf(live, v) && Increasing(w)
    ensures v == w
  {
    SameSorted(w, v);
  }

  ghost predicate Increasing(w: seq<Word>) { forall i, j :: 0 <= i < j < |w| ==> Page(w[i]) < Page(w[j]) }

  lemma {:induction false} SameSorted(w: seq<Word>, v: seq<Word>)
    requires multiset(w) == multiset(v) && Sorted(v) && Increasing(w)
    ensures v == w
    decreases |w|
  {
    hide Sorted, Increasing;
    assert |multiset(w)| == |w| && |multiset(v)| == |v|;
    if w != [] {
      SameFirst(w, v);
      TailsAreSorted(w, v);
      assert w == [w[0]] + w[1..] && v == [v[0]] + v[1..];
      assert multiset(w[1..]) == multiset(w) - multiset{w[0]};
      assert multiset(v[1..]) == multiset(v) - multiset{v[0]};
      SameSorted(w[1..], v[1..]);
    }
  }

  lemma TailsAreSorted(w: seq<Word>, v: seq<Word>)
    requires Sorted(v) && Increasing(w) && w != [] && v != []
    ensures Sorted(v[1..]) && Increasing(w[1..])
  {
  }

  lemma SameFirst(w: seq<Word>, v: seq<Word>)
    requires multiset(w) == multiset(v) && Sorted(v) && Increasing(w) && w != [] && |v| == |w|
    ensures v[0] == w[0]
  {
    assert forall x :: 0 < x < |w| ==> Page(w[0]) < Page(w[x]);
    assert forall x :: 0 < x < |v| ==> Addr(v[0]) <= Addr(v[x]);
    assert v[0] in multiset(w) && w[0] in multiset(v);
    var i :| 0 <= i < |w| && w[i] == v[0];
    var j :| 0 <= j < |v| && v[j] == w[0];
  }

  /** An allocation that no entry is long enough for succeeds if, in the sorted queue, a run of neighbours is, and no
      more entries touch than come before the end of that run: so many slots does the head move over. */
  lemma AllocGainsRun(s: Pmem, size: Word, s': Pmem, out: Outcome, exact: bool, w: seq<Word>, i: nat, j: nat)
    requires Requestable(size) && s.ring.cnt == |s.ring.live| && Allocs(s, size, s', out, exact)
    requires SortOf(s.ring.live, w) && Increasing(w)
    requires IsRunOf(w, i, j) && PagesNeeded(size) <= Pages(w, i, j) && Touching(w, |w| - 2) <= j
    ensures out.Address?
  {
    hide Allocs, Compacts, SortOf, MergeFrom, Touching, Count, Page, Touch, Pages;
    var need := PagesNeeded(size);
    assert |w| == |s.ring.live| by { SameLength(s.ring.live, w); }
    if NoneFits(s.ring.live, need) {
      AllocTriesTwice(s, size, s', out, exact);
      var r, mid :| SameLive(r, s.ring) && Compacts(r, mid, exact) && SecondPass(mid, need, s'.ring, out, exact);
      RunIsLive(r, mid, exact, w, i, j, need);
    } else {
      var k := FirstFitExists(s.ring.live, need);
      AllocTakesFirstFit(s, size, s', out, exact, k);
    }
  }

  lemma SameLength(live: seq<Word>, w: seq<Word>)
    requires SortOf(live, w)
    ensures |w| == |live|
  {
  }

  lemma RunIsLive(r: Ring, mid: Ring, exact: bool, w: seq<Word>, i: nat, j: nat, need: nat)
    requires r.live != [] && Compacts(r, mid, exact) && SortOf(r.live, w)
    requires Increasing(w)
    requires IsRunOf(w, i, j) && need <= Pages(w, i, j) && Touching(w, |w| - 2) <= j
    ensures !NoneFits(mid.live, need)
  {
    hide Sorted, MergeFrom, Touching, Count, Page, Touch, Pages, IsPrefix;
    var v :| SortOf(Window(r), v) && mid == Compacted(r, v) && (exact ==> IsPrefix(MergeFrom(v, 0).at));
    SortIsUnique(r.live, w, v);
    var m := MergeFrom(w, 0);
    MergeShape(w, 0);
    MergesAreFew(w);
    var p := RunIsReached(w, 0, i, j);
    assert mid.live[p - |m.at|] == m.entries[p];
  }

  // ----- An example -----

  /** Pages 10 and 11, 12, 40 and 50. */
  function Example(): seq<Word> { [0xA0_0001, 0xC0_0000, 0x280_0000, 0x320_0000] }

  lemma ExampleFacts()
    ensures var w := Example();
      && Page(w[0]) == 10 && Count(w[0]) == 2 && Page(w[1]) == 12 && Count(w[1]) == 1
      && Page(w[2]) == 40 && Count(w[2]) == 1 && Page(w[3]) == 50 && Count(w[3]) == 1
  {
  }

  lemma ExampleIsSorted()
    ensures SortOf(Example(), Example()) && Increasing(Example()) && NoneFits(Example(), 3)
  {
    hide Page, Count;
    ExampleFacts();
  }

  lemma ExampleMerge()
    ensures MergeFrom(Example(), 0) == Merge([0, 0xA0_0002, 0x280_0000, 0x320_0000], [0])
  {
    var w := Example();
    var m := MergeAt(w, 0);
    assert m == [0, 0xA0_0002, 0x280_0000, 0x320_0000];
    assert MergeFrom(m, 2) == Merge(m, []);
    assert MergeFrom(m, 1) == Merge(m, []);
  }

  /** No entry of that queue is long enough for three pages; compaction merges the first two, and the allocation
      returns page 10. */
  lemma ExampleAllocation(s: Pmem, s': Pmem, out: Outcome, exact: bool)
    requires s.ring.live == Example() && s.ring.cnt == 4 && Allocs(s, 0x3000, s', out, exact)
    ensures out == Address(0xA000)
  {
    hide Allocs, Compacts, MergeFrom, Sorted, AllocsAgain;
    ExampleFacts();
    ExampleIsSorted();
    assert PagesNeeded(0x3000) == 3;
    AllocTriesTwice(s, 0x3000, s', out, exact);
    var r, mid :| SameLive(r, s.ring) && Compacts(r, mid, exact) && SecondPass(mid, 3, s'.ring, out, exact);
    ExampleCompacts(r, mid, exact);
    assert !NoneFits(mid.live, 3) && IsFirstFit(mid.live, 3, 0);
  }

  lemma ExampleCompacts(r: Ring, mid: Ring, exact: bool)
    requires r.live == Example() && Compacts(r, mid, exact)
    ensures mid.live == [0xA0_0002, 0x280_0000, 0x320_0000]
    ensures Count(mid.live[0]) == 3 && Addr(mid.live[0]) == 0xA000
  {
    hide MergeFrom, Sorted, IsPrefix;
    ExampleIsSorted();
    ExampleMerge();
    var v :| SortOf(Window(r), v) && mid == Compacted(r, v) && (exact ==> IsPrefix(MergeFrom(v, 0).at));
    SortIsUnique(r.live, Example(), v);
  }

  /** On an empty queue the whole ring is sorted and merged: entries that an earlier compaction has dropped, here pages
      10, 11 and 40, are listed again, and the counter goes below zero. */
  lemma StaleEntriesReturn(r: Ring, r': Ring, exact: bool)
    requires r.live == [] && r.dead == [0xA0_0000, 0xB0_0000, 0x280_0000] && r.cnt == 0 && Compacts(r, r', exact)
    ensures r'.live == [0xA0_0001, 0x280_0000] && r'.dead == [0] && r'.cnt == -1
  {
    hide MergeFrom, Sorted, IsPrefix;
    var w := r.dead;
    StaleMerge(w);
    var v :| SortOf(Window(r), v) && r' == Compacted(r, v) && (exact ==> IsPrefix(MergeFrom(v, 0).at));
    SortIsUnique(r.dead, w, v);
  }

  lemma StaleMerge(w: seq<Word>)
    requires w == [0xA0_0000, 0xB0_0000, 0x280_0000]
    ensures Sorted(w) && Increasing(w) && MergeFrom(w, 0) == Merge([0, 0xA0_0001, 0x280_0000], [0])
  {
    var m := MergeAt(w, 0);
    assert m == [0, 0xA0_0001, 0x280_0000];
    assert MergeFrom(m, 1) == Merge(m, []);
  }
}
