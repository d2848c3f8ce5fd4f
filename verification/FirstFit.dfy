/** What an allocation pass finds, and how it leaves the queue. */
module FirstFit {
  import opened PageEntry
  import opened Runs
  import opened Ring
  import opened Compaction
  import opened AllocatorSpec

  /** Entry `i` is the first that is long enough. */
  ghost predicate IsFirstFit(live: seq<Word>, need: nat, i: int) {
    0 <= i < |live| && Count(live[i]) >= need && forall k :: 0 <= k < i ==> Count(live[k]) < need
  }

  ghost predicate NoneFits(live: seq<Word>, need: nat) {
    forall k :: 0 <= k < |live| ==> Count(live[k]) < need
  }

  /** What is left of an entry, as a queue of at most one entry. */
  function LeftOf(e: Word, need: nat): seq<Word>
    requires need < 0x8000_0000
  {
    if Count(e) > need then [Remainder(e, need)] else []
  }

  /** Inside a pass an entry has just been taken out, so putting one back never compacts the ring. */
  lemma NoCompactionInsideAPass(r: Ring, v: Word, front: bool, r': Ring, exact: bool)
    requires r.live != [] && r.dead != []
    ensures Inserts(Dequeue(r), v, front, r', exact) <==> r' == Put(Dequeue(r), v, front)
  {
  }

  /** `n` turns of the ring. */
  function Turned(r: Ring, n: nat): (r': Ring)
    requires r.dead != [] && n <= |r.live|
    ensures r'.live == r.live[n..] + r.live[..n] && |r'.dead| == |r.dead| && r'.cnt == r.cnt
  {
    if n == 0 then r
    else
      var t := Turned(r, n - 1);
      assert t.live[0] == r.live[n - 1];
      assert r.live[n - 1..][1..] == r.live[n..];
      assert r.live[..n] == r.live[..n - 1] + [r.live[n - 1]];
      Turn(t)
  }

  /** A pass turns the ring over the entries that are too short. */
  lemma {:induction false} ScanSkips(r: Ring, n: int, need: nat, i: nat)
    requires r.dead != [] && need < 0x8000_0000 && i <= n && i <= |r.live|
    requires forall k :: 0 <= k < i ==> Count(r.live[k]) < need
    ensures ScanPass(r, n, need) == ScanPass(Turned(r, i), n - i, need)
  {
    if i != 0 {
      ScanSkips(r, n, need, i - 1);
      var t := Turned(r, i - 1);
      assert t.live[0] == r.live[i - 1];
    }
  }

  /** A pass over the whole queue succeeds exactly when some run is long enough. It takes the first such
      run, returns its base and leaves the remainder, the later entries and the earlier ones, in that
      order; a failed pass leaves the queue as it was. */
  lemma PassIsFirstFit(r: Ring, need: nat)
    requires r.dead != [] && need < 0x8000_0000 && r.cnt == |r.live|
    ensures forall i :: IsFirstFit(r.live, need, i) ==>
      var scan := ScanPass(r, r.cnt, need);
      && scan.Found? && scan.addr == Addr(r.live[i])
      && scan.after.live == LeftOf(r.live[i], need) + r.live[i + 1..] + r.live[..i]
      && scan.after.cnt == |scan.after.live|
    ensures NoneFits(r.live, need) ==>
      var scan := ScanPass(r, r.cnt, need);
      scan.NotFound? && scan.after.live == r.live && scan.after.cnt == r.cnt && scan.after.dead != []
    ensures ScanPass(r, r.cnt, need).Found? <==> exists i :: IsFirstFit(r.live, need, i)
    ensures !ScanPass(r, r.cnt, need).Starved?
  {
    forall i | IsFirstFit(r.live, need, i)
      ensures ScanPass(r, r.cnt, need) == Found(Addr(r.live[i]), Take(Turned(r, i), need))
      ensures Take(Turned(r, i), need).live == LeftOf(r.live[i], need) + r.live[i + 1..] + r.live[..i]
    {
      FoundAt(r, need, i);
    }
    hide ScanPass, Take, LeftOf, Count;
    if NoneFits(r.live, need) {
      NothingFound(r, need);
    } else {
      var i := FirstFitExists(r.live, need);
      assert IsFirstFit(r.live, need, i);
    }
  }

  lemma NothingFound(r: Ring, need: nat)
    requires r.dead != [] && need < 0x8000_0000 && r.cnt == |r.live| && NoneFits(r.live, need)
    ensures var scan := ScanPass(r, r.cnt, need);
      scan.NotFound? && scan.after.live == r.live && scan.after.cnt == r.cnt && scan.after.dead != []
  {
    hide Count;
    ScanSkips(r, r.cnt, need, |r.live|);
  }

  lemma FoundNow(r: Ring, n: int, need: nat)
    requires r.dead != [] && need < 0x8000_0000 && n > 0 && r.live != [] && Count(r.live[0]) >= need
    ensures ScanPass(r, n, need) == Found(Addr(r.live[0]), Take(r, need))
    ensures Take(r, need).live == LeftOf(r.live[0], need) + r.live[1..]
    ensures Take(r, need).cnt == r.cnt - 1 + |LeftOf(r.live[0], need)|
  {
  }

  lemma FoundAt(r: Ring, need: nat, i: int)
    requires r.dead != [] && need < 0x8000_0000 && r.cnt == |r.live| && IsFirstFit(r.live, need, i)
    ensures Turned(r, i).live != [] && Turned(r, i).live[0] == r.live[i]
    ensures ScanPass(r, r.cnt, need) == Found(Addr(r.live[i]), Take(Turned(r, i), need))
    ensures Take(Turned(r, i), need).live == LeftOf(r.live[i], need) + r.live[i + 1..] + r.live[..i]
    ensures Take(Turned(r, i), need).cnt == |Take(Turned(r, i), need).live|
  {
    hide BuildEntry, Turned, Addr, Count, ScanPass, LeftOf, Take;
    ScanSkips(r, r.cnt, need, i);
    var t := Turned(r, i);
    FoundNow(t, r.cnt - i, need);
    assert t.live[1..] == r.live[i + 1..] + r.live[..i];
  }

  lemma {:induction false} FirstFitExists(live: seq<Word>, need: nat) returns (i: nat)
    requires !NoneFits(live, need)
    ensures IsFirstFit(live, need, i)
  {
    i := 0;
    while Count(live[i]) < need
      invariant i < |live|
      invariant forall k :: 0 <= k < i ==> Count(live[k]) < need
      decreases |live| - i
    {
      i := i + 1;
    }
  }

  /** An allocation takes the first fit of the queue it finds, whenever there is one. */
  lemma AllocTakesFirstFit(s: Pmem, size: Word, s': Pmem, out: Outcome, exact: bool, i: int)
    requires Requestable(size) && s.ring.cnt == |s.ring.live|
    requires Allocs(s, size, s', out, exact) && IsFirstFit(s.ring.live, PagesNeeded(size), i)
    ensures out == Address(Addr(s.ring.live[i]))
    ensures s'.ring.live
         == LeftOf(s.ring.live[i], PagesNeeded(size)) + s.ring.live[i + 1..] + s.ring.live[..i]
  {
    hide Compacts;
    FoundAt(s.ring, PagesNeeded(size), i);
  }

  /** What the second pass does with the compacted queue: it takes the first fit, or it fails and the same
      queue is compacted once more. */
  ghost predicate SecondPass(mid: Ring, need: nat, s': Ring, out: Outcome, exact: bool)
    requires need < 0x8000_0000
  {
    if NoneFits(mid.live, need) then
      out == NoMemory && exists r: Ring :: SameLive(r, mid) && Compacts(r, s', exact)
    else exists i: nat ::
      IsFirstFit(mid.live, need, i) && out == Address(Addr(mid.live[i]))
      && s'.live == LeftOf(mid.live[i], need) + mid.live[i + 1..] + mid.live[..i]
  }

  predicate SameLive(r: Ring, s: Ring) { r.live == s.live }

  /** When nothing fits, the same queue is compacted, and the outcome and the final queue are what a pass over
      the compacted queue makes of it. */
  lemma AllocTriesTwice(s: Pmem, size: Word, s': Pmem, out: Outcome, exact: bool)
    requires Requestable(size) && s.ring.cnt == |s.ring.live| && s.ring.live != []
    requires Allocs(s, size, s', out, exact) && NoneFits(s.ring.live, PagesNeeded(size))
    ensures exists r: Ring, mid: Ring ::
      SameLive(r, s.ring) && Compacts(r, mid, exact) && SecondPass(mid, PagesNeeded(size), s'.ring, out, exact)
  {
    hide ScanPass, Compacts, LeftOf, Take, Turned;
    var need := PagesNeeded(size);
    PassIsFirstFit(s.ring, need);
    var r := ScanPass(s.ring, s.ring.cnt, need).after;
    var mid :| Compacts(r, mid, exact) && AllocsAgain(Pmem(mid, s.freeMem), size, s', out, exact);
    CompactsKeepsCount(r, mid, exact);
    PassIsFirstFit(mid, need);
    if NoneFits(mid.live, need) {
      assert SameLive(ScanPass(mid, mid.cnt, need).after, mid);
    } else {
      var i := FirstFitExists(mid.live, need);
      FoundAt(mid, need, i);
    }
    assert SameLive(r, s.ring);
    assert SecondPass(mid, need, s'.ring, out, exact);
  }

  /** An empty queue is compacted twice and gives nothing. If its slots are clear it stays as it was. */
  lemma AllocOnEmpty(s: Pmem, size: Word, s': Pmem, out: Outcome, exact: bool)
    requires Requestable(size) && s.ring.live == [] && s.ring.cnt == 0 && Allocs(s, size, s', out, exact)
    ensures out == NoMemory && s'.freeMem == s.freeMem
    ensures exists mid: Ring :: Compacts(s.ring, mid, exact) && Compacts(mid, s'.ring, exact)
    ensures AllZero(s.ring.dead) ==> s'.ring == s.ring
  {
    hide Compacts;
    var mid :| Compacts(s.ring, mid, exact) && AllocsAgain(Pmem(mid, s.freeMem), size, s', out, exact);
    EmptyCompacts(s.ring, mid, exact);
    assert ScanPass(mid, mid.cnt, PagesNeeded(size)) == NotFound(mid);
    if AllZero(s.ring.dead) {
      EmptyCompacts(mid, s'.ring, exact);
    }
  }

  /** Compacting an empty queue never raises its counter; with clear slots it changes nothing. */
  lemma EmptyCompacts(r: Ring, r': Ring, exact: bool)
    requires r.live == [] && r.cnt == 0 && Compacts(r, r', exact)
    ensures r'.cnt <= 0 && (AllZero(r.dead) ==> r' == r)
  {
    var w :| SortOf(Window(r), w) && r' == Compacted(r, w);
    MergeShape(w, 0);
    if AllZero(r.dead) {
      forall i | 0 <= i < |w| ensures w[i] == 0 {
        assert w[i] in multiset(r.dead);
      }
      ZerosDoNotMerge(w, 0);
      assert w == r.dead;
    }
  }

  /** Compacting a non-empty queue keeps the counter in step with the number of live entries. */
  lemma CompactsKeepsCount(r: Ring, r': Ring, exact: bool)
    requires r.dead != [] && r.live != [] && r.cnt == |r.live| && Compacts(r, r', exact)
    ensures r'.cnt == |r'.live| && r'.live != [] && r'.dead != []
  {
    var w :| SortOf(Window(r), w) && r' == Compacted(r, w);
    MergeShape(w, 0);
  }
}
