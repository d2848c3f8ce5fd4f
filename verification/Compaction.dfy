/** Merging neighbours in the sorted ring, and what that does to the set of free pages. */
module Compaction {
  import opened PageEntry
  import opened Ring
  import opened Runs
  import opened RingSort

  /** The test that guards a merge. */
  predicate Mergeable(a: Word, b: Word) {
    Count(a) * PAGE_SIZE + Addr(a) == Addr(b) && Count(a) + Count(b) < MAX_ENTRIES
  }

  function Merged(a: Word, b: Word): Word { BuildEntry(Addr(a), Count(a) + Count(b)) }

  /** One merge: the next entry grows and this one is cleared. */
  function MergeAt(w: seq<Word>, k: nat): seq<Word>
    requires k + 1 < |w|
  {
    w[k + 1 := Merged(w[k], w[k + 1])][k := 0]
  }

  /** The entries after the merge loop, and the positions at which it merged. */
  datatype Merge = Merge(entries: seq<Word>, at: seq<nat>)

  /** The merge loop from position `k`. The last two entries are never compared with each other. */
  function MergeFrom(w: seq<Word>, k: nat): Merge
    decreases |w| - k
  {
    if k + 2 >= |w| then Merge(w, [])
    else if Mergeable(w[k], w[k + 1]) then
      var m := MergeFrom(MergeAt(w, k), k + 1);
      Merge(m.entries, [k] + m.at)
    else MergeFrom(w, k + 1)
  }

  /** The merge positions are 0, 1, 2, ... without a gap. */
  predicate IsPrefix(at: seq<nat>) { forall i :: 0 <= i < |at| ==> at[i] == i }

  /** The window that gets sorted: the live entries or, when there are none, the whole ring. */
  function Window(r: Ring): seq<Word> { if r.live == [] then r.dead else r.live }

  /** The ring after merging in its sorted window `w`. Each merge moves the head on by one slot,
      whichever slot it cleared. */
  function Compacted(r: Ring, w: seq<Word>): Ring
    requires |w| == |Window(r)|
  {
    var m := MergeFrom(w, 0);
    var n := |m.at|;
    MergeShape(w, 0);
    if r.live == [] && n == 0 then Ring([], m.entries, r.cnt)
    else Ring(m.entries[n..], (if r.live == [] then [] else r.dead) + m.entries[..n], r.cnt - n)
  }

  ghost predicate SortOf(s: seq<Word>, w: seq<Word>) {
    |s| == |w| && multiset(s) == multiset(w) && Sorted(w)
  }

  /** `r'` is a possible outcome of compacting `r`; with `exact`, of compacting it by merging a prefix. */
  ghost predicate Compacts(r: Ring, r': Ring, exact: bool) {
    exists w :: SortOf(Window(r), w) && r' == Compacted(r, w) && (exact ==> IsPrefix(MergeFrom(w, 0).at))
  }

  // ----- The merge loop -----

  lemma {:induction false} MergeShape(w: seq<Word>, k: nat)
    ensures var m := MergeFrom(w, k);
      && |m.entries| == |w| && |m.at| <= (if k + 2 <= |w| then |w| - k - 2 else 0)
      && (forall i :: 0 <= i < k && i < |w| ==> m.entries[i] == w[i])
      && (forall i :: 0 <= i < |m.at| ==> k + i <= m.at[i] < |w| - 2 && m.entries[m.at[i]] == 0)
      && (forall i, j :: 0 <= i < j < |m.at| ==> m.at[i] < m.at[j])
    decreases |w| - k
  {
    if k + 2 < |w| {
      if Mergeable(w[k], w[k + 1]) {
        MergeShape(MergeAt(w, k), k + 1);
      } else {
        MergeShape(w, k + 1);
      }
    }
  }

  /** A merged entry covers exactly what the two did. */
  lemma MergedCovers(a: Word, b: Word, p: int)
    requires Mergeable(a, b)
    ensures Covers(Merged(a, b), p) <==> Covers(a, p) || Covers(b, p)
    ensures !(Covers(a, p) && Covers(b, p))
    ensures Count(Merged(a, b)) == Count(a) + Count(b)
    ensures InReach(b) ==> InReach(Merged(a, b))
  {
    EntryRoundTrip(Addr(a), Count(a) + Count(b));
  }

  lemma OneMergeKeepsCover(w: seq<Word>, k: nat, p: int)
    requires k + 1 < |w| && Mergeable(w[k], w[k + 1])
    ensures Cover(MergeAt(w, k), p) == Cover(w, p) + if p == 0 then 1 else 0
  {
    var e := Merged(w[k], w[k + 1]);
    MergedCovers(w[k], w[k + 1], p);
    SumUpdate(w, k + 1, e, CoverOf(p));
    SumUpdate(w[k + 1 := e], k, 0, CoverOf(p));
  }

  /** Merging keeps how often each page is covered, except that every merge leaves behind a zero word,
      which decodes as page 0. */
  lemma {:induction false} MergeKeepsCover(w: seq<Word>, k: nat, p: int)
    ensures Cover(MergeFrom(w, k).entries, p) == Cover(w, p) + if p == 0 then |MergeFrom(w, k).at| else 0
    decreases |w| - k
  {
    if k + 2 < |w| {
      if Mergeable(w[k], w[k + 1]) {
        OneMergeKeepsCover(w, k, p);
        MergeKeepsCover(MergeAt(w, k), k + 1, p);
      } else {
        MergeKeepsCover(w, k + 1, p);
      }
    }
  }

  lemma {:induction false} MergeKeepsTotal(w: seq<Word>, k: nat)
    ensures Total(MergeFrom(w, k).entries) == Total(w) + |MergeFrom(w, k).at|
    decreases |w| - k
  {
    if k + 2 < |w| {
      if Mergeable(w[k], w[k + 1]) {
        var e := Merged(w[k], w[k + 1]);
        MergedCovers(w[k], w[k + 1], 0);
        SumUpdate(w, k + 1, e, CountOf());
        SumUpdate(w[k + 1 := e], k, 0, CountOf());
        MergeKeepsTotal(MergeAt(w, k), k + 1);
      } else {
        MergeKeepsTotal(w, k + 1);
      }
    }
  }

  lemma {:induction false} MergeKeepsReach(w: seq<Word>, k: nat)
    requires AllInReach(w)
    ensures AllInReach(MergeFrom(w, k).entries)
    decreases |w| - k
  {
    if k + 2 < |w| {
      if Mergeable(w[k], w[k + 1]) {
        MergedCovers(w[k], w[k + 1], 0);
        MergeKeepsReach(MergeAt(w, k), k + 1);
      } else {
        MergeKeepsReach(w, k + 1);
      }
    }
  }

  lemma {:induction false} ZerosDoNotMerge(w: seq<Word>, k: nat)
    requires AllZero(w)
    ensures MergeFrom(w, k) == Merge(w, [])
    decreases |w| - k
  {
    if k + 2 < |w| {
      ZerosDoNotMerge(w, k + 1);
    }
  }

  // ----- What compaction does to the ring -----

  /** The merged window, cut where the head moves to, covers each page other than page 0 as before. */
  lemma CutKeepsCover(w: seq<Word>, p: int)
    requires p != 0
    ensures var m := MergeFrom(w, 0);
      |m.at| <= |m.entries| && Cover(m.entries[|m.at|..], p) + Cover(m.entries[..|m.at|], p) == Cover(w, p)
  {
    hide MergeFrom, Sum;
    var m := MergeFrom(w, 0);
    MergeShape(w, 0);
    MergeKeepsCover(w, 0, p);
    assert m.entries == m.entries[..|m.at|] + m.entries[|m.at|..];
    SumConcat(m.entries[..|m.at|], m.entries[|m.at|..], CoverOf(p));
  }

  lemma CompactEmptyKeepsCover(r: Ring, w: seq<Word>, p: int)
    requires r.live == [] && SortOf(r.dead, w) && p != 0
    ensures Cover(Compacted(r, w).Slots(), p) == Cover(r.Slots(), p)
  {
    hide MergeFrom, Sum, Sorted;
    var m, r' := MergeFrom(w, 0), Compacted(r, w);
    CutKeepsCover(w, p);
    SumPermuted(r.dead, w, CoverOf(p));
    assert r.Slots() == r.dead;
    SumConcat(m.entries[|m.at|..], m.entries[..|m.at|], CoverOf(p));
    assert r'.Slots() == m.entries[|m.at|..] + m.entries[..|m.at|];
  }

  lemma CompactLiveKeepsCover(r: Ring, w: seq<Word>, p: int)
    requires r.live != [] && SortOf(r.live, w) && p != 0
    ensures Cover(Compacted(r, w).Slots(), p) == Cover(r.Slots(), p)
  {
    hide MergeFrom, Sum, Sorted;
    var m, r' := MergeFrom(w, 0), Compacted(r, w);
    CutKeepsCover(w, p);
    var kept, cut := m.entries[|m.at|..], m.entries[..|m.at|];
    SumPermuted(r.live, w, CoverOf(p));
    SumConcat(r.live, r.dead, CoverOf(p));
    SumConcat(r.dead, cut, CoverOf(p));
    SumConcat(kept, r.dead + cut, CoverOf(p));
    assert r'.Slots() == kept + (r.dead + cut);
  }

  /** Over all slots, live or dead, compaction keeps how often each page other than page 0 is covered. */
  lemma CompactKeepsCover(r: Ring, w: seq<Word>, p: int)
    requires SortOf(Window(r), w) && p != 0
    ensures Cover(Compacted(r, w).Slots(), p) == Cover(r.Slots(), p)
    ensures |Compacted(r, w).Slots()| == |r.Slots()|
  {
    if r.live == [] {
      CompactEmptyKeepsCover(r, w, p);
    } else {
      CompactLiveKeepsCover(r, w, p);
    }
    hide MergeFrom, Sum, Sorted;
    MergeShape(w, 0);
  }

  lemma CompactKeepsReach(r: Ring, w: seq<Word>)
    requires SortOf(Window(r), w) && AllInReach(r.Slots())
    ensures AllInReach(Compacted(r, w).Slots())
  {
    forall i | 0 <= i < |Window(r)| ensures InReach(Window(r)[i]) {
      assert Window(r)[i] == r.Slots()[i];
    }
    PermutedInReach(Window(r), w);
    MergeKeepsReach(w, 0);
    MergeShape(w, 0);
    forall i | 0 <= i < |r.dead| ensures InReach(r.dead[i]) {
      assert r.dead[i] == r.Slots()[|r.live| + i];
    }
  }

  /** When the merges form a prefix, the cleared slots are exactly the dropped ones, and the live entries
      cover each page as often as before. */
  lemma PrefixMergeIsExact(r: Ring, w: seq<Word>, p: int)
    requires r.live != [] && SortOf(r.live, w) && IsPrefix(MergeFrom(w, 0).at)
    ensures Cover(Compacted(r, w).live, p) == Cover(r.live, p)
    ensures Total(Compacted(r, w).live) == Total(r.live)
    ensures AllZero(r.dead) ==> AllZero(Compacted(r, w).dead)
  {
    var m := MergeFrom(w, 0);
    var n := |m.at|;
    MergeShape(w, 0);
    MergeKeepsCover(w, 0, p);
    MergeKeepsTotal(w, 0);
    SumPermuted(r.live, w, CoverOf(p));
    SumPermuted(r.live, w, CountOf());
    forall i | 0 <= i < n ensures m.entries[i] == 0 {
      assert m.entries[m.at[i]] == 0;
    }
    assert m.entries == m.entries[..n] + m.entries[n..];
    SumConcat(m.entries[..n], m.entries[n..], CoverOf(p));
    SumConcat(m.entries[..n], m.entries[n..], CountOf());
    CoverOfZeros(m.entries[..n], p);
    TotalOfZeros(m.entries[..n]);
  }

  /** When they do not, some cleared slot stays live and offers page 0. */
  lemma GapFreesPageZero(r: Ring, w: seq<Word>)
    requires r.live != [] && SortOf(r.live, w) && !IsPrefix(MergeFrom(w, 0).at)
    ensures Cover(Compacted(r, w).live, 0) > 0
  {
    var m := MergeFrom(w, 0);
    var n := |m.at|;
    MergeShape(w, 0);
    var i :| 0 <= i < n && m.at[i] != i;
    var k := m.at[n - 1];
    assert k >= n by { LaterMergesAreLater(m.at, i, n - 1); }
    assert Compacted(r, w).live[k - n] == 0;
    assert Covers(0, 0);
    CoverWitness(Compacted(r, w).live, 0);
  }

  lemma {:induction false} LaterMergesAreLater(at: seq<nat>, i: nat, j: nat)
    requires i <= j < |at| && at[i] > i
    requires forall i, j :: 0 <= i < j < |at| ==> at[i] < at[j]
    ensures at[j] > j
    decreases j
  {
    if i < j {
      LaterMergesAreLater(at, i, j - 1);
    }
  }

  /** The set of pages some live entry covers. */
  ghost predicate Free(r: Ring, p: int) { Cover(r.live, p) > 0 }

  /** Compaction of a non-empty queue that does not list page 0 keeps the set of free pages if and only
      if the merge positions, after sorting, form a prefix of the queue. */
  lemma CompactionIsExactIffPrefix(r: Ring, w: seq<Word>)
    requires r.live != [] && SortOf(r.live, w) && !Free(r, 0)
    ensures (forall p :: Free(Compacted(r, w), p) <==> Free(r, p)) <==> IsPrefix(MergeFrom(w, 0).at)
  {
    if IsPrefix(MergeFrom(w, 0).at) {
      forall p ensures Free(Compacted(r, w), p) <==> Free(r, p) {
        PrefixMergeIsExact(r, w, p);
      }
    } else {
      GapFreesPageZero(r, w);
      assert Free(Compacted(r, w), 0);
    }
  }

  /** In every case compaction frees nothing new but page 0. */
  lemma CompactionContained(r: Ring, w: seq<Word>, p: int)
    requires r.live != [] && SortOf(r.live, w) && p != 0
    ensures Cover(Compacted(r, w).live, p) <= Cover(r.live, p)
  {
    var m := MergeFrom(w, 0);
    var n := |m.at|;
    MergeShape(w, 0);
    MergeKeepsCover(w, 0, p);
    SumPermuted(r.live, w, CoverOf(p));
    assert m.entries == m.entries[..n] + m.entries[n..];
    SumConcat(m.entries[..n], m.entries[n..], CoverOf(p));
  }

  // ----- What a merge that is not at the front forgets -----

  /** A slot the merges did not clear still holds an entry that does not start at page 0. */
  lemma {:induction false} UnclearedIsUsed(w: seq<Word>, k: nat, i: nat)
    requires forall i :: k <= i < |w| ==> Page(w[i]) > 0
    requires k <= i < |MergeFrom(w, k).entries| && i !in MergeFrom(w, k).at
    ensures Page(MergeFrom(w, k).entries[i]) > 0
    decreases |w| - k
  {
    MergeShape(w, k);
    if k + 2 < |w| {
      if Mergeable(w[k], w[k + 1]) {
        var m := MergeFrom(MergeAt(w, k), k + 1);
        MergedStart(w[k], w[k + 1]);
        assert MergeFrom(w, k).at == [k] + m.at;
        assert i != k by {
          assert MergeFrom(w, k).at[0] == k;
        }
        assert i !in m.at by {
          assert forall a :: a in m.at ==> a in [k] + m.at;
        }
        UnclearedIsUsed(MergeAt(w, k), k + 1, i);
      } else if i == k {
        MergeShape(w, k + 1);
      } else {
        UnclearedIsUsed(w, k + 1, i);
      }
    }
  }

  lemma MergedStart(a: Word, b: Word)
    requires Mergeable(a, b)
    ensures Page(Merged(a, b)) == Page(a)
  {
    EntryRoundTrip(Addr(a), Count(a) + Count(b));
  }

  /** Among the slots that are cut off some was not cleared, unless the merges form a prefix. */
  lemma {:induction false} SomeCutSlotUncleared(at: seq<nat>, n: nat) returns (k: nat)
    requires |at| == n && !IsPrefix(at) && forall i, j :: 0 <= i < j < |at| ==> at[i] < at[j]
    ensures k < n && k !in at
  {
    var i :| 0 <= i < |at| && at[i] != i && forall j :: 0 <= j < i ==> at[j] == j by {
      FirstGap(at);
    }
    k := i;
    if i in at {
      var j :| 0 <= j < |at| && at[j] == i;
      if j < i {
        assert false;
      } else {
        AtLeastItsPlace(at, i, j);
      }
    }
  }

  lemma {:induction false} AtLeastItsPlace(at: seq<nat>, i: nat, j: nat)
    requires i <= j < |at| && forall a, b :: 0 <= a < b < |at| ==> at[a] < at[b]
    requires at[i] != i && forall a :: 0 <= a < i ==> at[a] == a
    ensures at[j] > i
    decreases j
  {
    if i > 0 {
      assert at[i - 1] < at[i];
    }
    if i < j {
      assert at[i] < at[j];
    }
  }

  lemma FirstGap(at: seq<nat>)
    requires !IsPrefix(at)
    ensures exists i :: 0 <= i < |at| && at[i] != i && forall j :: 0 <= j < i ==> at[j] == j
  {
    var i := 0;
    while at[i] == i
      invariant i < |at| && forall j :: 0 <= j < i ==> at[j] == j
      decreases |at| - i
    {
      if i + 1 == |at| {
        assert IsPrefix(at);
      }
      i := i + 1;
    }
  }

  /** On a queue of disjoint entries without page 0, merges that do not form a prefix make compaction forget
      a page other than page 0: the queue listed it, and does not any more. */
  lemma GapForgetsAPage(r: Ring, w: seq<Word>) returns (p: int)
    requires r.live != [] && SortOf(r.live, w) && !IsPrefix(MergeFrom(w, 0).at) && !Free(r, 0)
    requires forall p :: Cover(r.live, p) <= 1
    ensures p != 0 && Free(r, p) && !Free(Compacted(r, w), p)
  {
    hide MergeFrom, Sum, Sorted, Compacted;
    var m := MergeFrom(w, 0);
    var n := |m.at|;
    MergeShape(w, 0);
    NoEntryAtZero(r, w);
    var k := SomeCutSlotUncleared(m.at, n);
    UnclearedIsUsed(w, 0, k);
    p := Page(m.entries[k]);
    CutKeepsCover(w, p);
    assert Covers(m.entries[..n][k], p);
    CoverWitness(m.entries[..n], p);
    SumPermuted(r.live, w, CoverOf(p));
    assert Cover(r.live, p) <= 1;
    LiveAfter(r, w);
  }

  lemma LiveAfter(r: Ring, w: seq<Word>)
    requires r.live != [] && |w| == |r.live|
    ensures |MergeFrom(w, 0).at| <= |MergeFrom(w, 0).entries|
    ensures Compacted(r, w).live == MergeFrom(w, 0).entries[|MergeFrom(w, 0).at|..]
  {
    MergeShape(w, 0);
  }

  lemma NoEntryAtZero(r: Ring, w: seq<Word>)
    requires SortOf(r.live, w) && !Free(r, 0)
    ensures forall i :: 0 <= i < |w| ==> Page(w[i]) > 0
  {
    hide Sum;
    SumPermuted(r.live, w, CoverOf(0));
    CoverWitness(w, 0);
    forall i | 0 <= i < |w| ensures Page(w[i]) > 0 {
      assert !Covers(w[i], 0);
    }
  }

  /** Single pages 10, 20, 21 and 40. */
  function ScatteredPages(): seq<Word> { [10 * MAX_ENTRIES, 20 * MAX_ENTRIES, 21 * MAX_ENTRIES, 40 * MAX_ENTRIES] }

  lemma ScatteredMerge()
    ensures MergeFrom(ScatteredPages(), 0) == Merge([10 * MAX_ENTRIES, 0, 20 * MAX_ENTRIES + 1, 40 * MAX_ENTRIES], [1])
  {
    var w := ScatteredPages();
    var w1 := MergeAt(w, 1);
    assert w1 == [10 * MAX_ENTRIES, 0, 20 * MAX_ENTRIES + 1, 40 * MAX_ENTRIES];
    assert MergeFrom(w1, 2) == Merge(w1, []);
    assert MergeFrom(w, 1) == Merge(w1, [1]);
  }

  lemma ScatteredCompaction()
    ensures SortOf(ScatteredPages(), ScatteredPages())
    ensures Compacted(Ring(ScatteredPages(), [0], 4), ScatteredPages()).live
         == [0, 20 * MAX_ENTRIES + 1, 40 * MAX_ENTRIES]
  {
    hide MergeFrom, Sum;
    ScatteredMerge();
  }

  /** A queue of four single pages, of which only the two in the middle are neighbours: the merge is not
      at the front, so compaction forgets page 10 and offers page 0 instead. */
  lemma CompactionCanLoseAPage()
    ensures var r := Ring(ScatteredPages(), [0], 4);
      && SortOf(r.live, r.live) && Free(r, 10) && !Free(r, 0)
      && !Free(Compacted(r, r.live), 10) && Free(Compacted(r, r.live), 0)
  {
    hide MergeFrom, Sum, Compacted, Sorted;
    var w := ScatteredPages();
    var r := Ring(w, [0], 4);
    ScatteredCompaction();
    var after := Compacted(r, w).live;
    assert Covers(w[0], 10) && Covers(after[0], 0);
    CoverWitness(w, 10);
    CoverWitness(w, 0);
    CoverWitness(after, 0);
    CoverWitness(after, 10);
  }
}
