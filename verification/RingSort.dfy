/** The in-place quicksort of a window of the ring, where the window may wrap past the end. */
module RingSort {
  import opened PageEntry

  // ----- Ring positions -----

  /** A ring position reduced to a slot index: the remainder, for positions less than two turns. */
  function Wrap(i: nat, n: nat): nat
    requires 0 < n
  {
    if i < n then i else i - n
  }

  lemma WrapIsRemainder(i: nat, n: nat)
    requires 0 < n && i < 2 * n
    ensures Wrap(i, n) == i % n
  {
  }

  /** The slots read round the ring from position `o`. */
  function Rotate(s: seq<Word>, o: nat): (v: seq<Word>)
    requires o <= |s|
    ensures |v| == |s|
  {
    s[o..] + s[..o]
  }

  lemma RotateAt(s: seq<Word>, o: nat, k: nat)
    requires o < |s| && o <= k < o + |s|
    ensures Wrap(k, |s|) < |s| && Rotate(s, o)[k - o] == s[Wrap(k, |s|)]
  {
  }

  lemma RotateUpdate(s: seq<Word>, o: nat, k: nat, x: Word)
    requires o < |s| && o <= k < o + |s|
    ensures Rotate(s[Wrap(k, |s|) := x], o) == Rotate(s, o)[k - o := x]
  {
  }

  // ----- What sorting means -----

  ghost predicate Sorted(s: seq<Word>) {
    forall i, j :: 0 <= i < j < |s| ==> Addr(s[i]) <= Addr(s[j])
  }

  /** `t` rearranges `s` inside [lo, hi) and agrees with it elsewhere. */
  ghost predicate Rearranged(s: seq<Word>, t: seq<Word>, lo: nat, hi: nat)
    requires lo <= hi <= |s|
  {
    |t| == |s| && t[..lo] == s[..lo] && t[hi..] == s[hi..] && multiset(t[lo..hi]) == multiset(s[lo..hi])
  }

  ghost predicate AllAtMost(s: seq<Word>, bound: int) { forall i :: 0 <= i < |s| ==> Addr(s[i]) <= bound }

  ghost predicate AllAtLeast(s: seq<Word>, bound: int) { forall i :: 0 <= i < |s| ==> bound <= Addr(s[i]) }

  lemma RearrangedWider(s: seq<Word>, t: seq<Word>, lo: nat, hi: nat, lo': nat, hi': nat)
    requires lo' <= lo <= hi <= hi' <= |s|
    requires Rearranged(s, t, lo, hi)
    ensures Rearranged(s, t, lo', hi')
  {
    assert t[..lo'] == t[..lo][..lo'] == s[..lo'];
    assert t[hi'..] == t[hi..][hi' - hi..] == s[hi'..];
    assert t[lo'..lo] == t[..lo][lo'..] == s[lo'..lo];
    assert t[hi..hi'] == t[hi..][..hi' - hi] == s[hi..hi'];
    assert t[lo'..hi'] == t[lo'..lo] + t[lo..hi] + t[hi..hi'];
    assert s[lo'..hi'] == s[lo'..lo] + s[lo..hi] + s[hi..hi'];
  }

  lemma RearrangedSwap(s0: seq<Word>, s: seq<Word>, i: nat, j: nat, lo: nat, hi: nat)
    requires lo <= i < j < hi <= |s0| && Rearranged(s0, s, lo, hi)
    ensures Rearranged(s0, s[i := s[j]][j := s[i]], lo, hi)
  {
    var t := s[i := s[j]][j := s[i]];
    assert s[i..j + 1] == [s[i]] + s[i + 1..j] + [s[j]];
    assert t[i..j + 1] == [s[j]] + s[i + 1..j] + [s[i]];
    RearrangedWider(s, t, i, j + 1, lo, hi);
  }

  lemma RearrangedKeepsBounds(s: seq<Word>, t: seq<Word>, lo: nat, hi: nat, bound: int)
    requires lo <= hi <= |s| && Rearranged(s, t, lo, hi)
    ensures AllAtMost(s[lo..hi], bound) ==> AllAtMost(t[lo..hi], bound)
    ensures AllAtLeast(s[lo..hi], bound) ==> AllAtLeast(t[lo..hi], bound)
  {
    forall i | 0 <= i < hi - lo ensures t[lo..hi][i] in s[lo..hi] {
      assert t[lo..hi][i] in multiset(s[lo..hi]);
    }
  }

  // ----- The algorithm -----

  /** What one partition leaves: everything below the cut is at most the pivot, everything above at
      least. Sorting either half keeps it. */
  ghost predicate Cut(v: seq<Word>, lo: nat, mid: nat, hi: nat, pivot: int)
    requires lo <= mid <= hi <= |v|
  {
    AllAtMost(v[lo..mid], pivot) && AllAtLeast(v[mid..hi], pivot)
  }

  /** Exchanges two distinct slots by three XOR assignments. */
  method XorSwap(data: array<Word>, i: nat, j: nat, ghost o: nat)
    requires o < data.Length && o <= i < j < o + data.Length
    modifies data
    ensures Swapped(o, old(Rotate(data[..], o)), Rotate(data[..], o), i, j)
  {
    hide Rotate, Xor;
    var n := data.Length;
    ghost var v := Rotate(data[..], o);
    var a, b := data[Wrap(i, n)], data[Wrap(j, n)];
    RotateAt(data[..], o, i);
    RotateAt(data[..], o, j);
    WordXor(a, b);
    XorCancels(a, b);
    XorCancels(b, a);
    XorSymmetric(a, b);
    RotateUpdate(data[..], o, i, Xor(a, b));
    data[Wrap(i, n)] := Xor(data[Wrap(i, n)], data[Wrap(j, n)]);
    RotateUpdate(data[..], o, j, a);
    data[Wrap(j, n)] := Xor(data[Wrap(j, n)], data[Wrap(i, n)]);
    XorSymmetric(Xor(a, b), a);
    RotateUpdate(data[..], o, i, b);
    data[Wrap(i, n)] := Xor(data[Wrap(i, n)], data[Wrap(j, n)]);
    assert Rotate(data[..], o) == v[i - o := Xor(a, b)][j - o := a][i - o := b];
  }

  /** Every entry of ring positions [lo, hi) has an address below the bound; `v` is the ring read from
      position `o`. */
  ghost predicate AllBelow(o: nat, v: seq<Word>, lo: nat, hi: nat, bound: int) {
    o <= lo && hi - o <= |v| && forall k :: lo - o <= k < hi - o ==> Addr(v[k]) < bound
  }

  ghost predicate AllAbove(o: nat, v: seq<Word>, lo: nat, hi: nat, bound: int) {
    o <= lo && hi - o <= |v| && forall k :: lo - o <= k < hi - o ==> bound < Addr(v[k])
  }

  /** The address of the entry at a ring position. */
  ghost function AddrAt(o: nat, v: seq<Word>, k: nat): int {
    if o <= k < o + |v| then Addr(v[k - o]) else 0
  }

  lemma AddrAtSlot(s: seq<Word>, o: nat, k: nat)
    requires o < |s| && o <= k < o + |s|
    ensures Wrap(k, |s|) < |s| && AddrAt(o, Rotate(s, o), k) == Addr(s[Wrap(k, |s|)])
  {
    RotateAt(s, o, k);
  }

  lemma AllBelowGrows(o: nat, v: seq<Word>, lo: nat, hi: nat, bound: int)
    requires AllBelow(o, v, lo, hi, bound) && lo <= hi < o + |v| && AddrAt(o, v, hi) < bound
    ensures AllBelow(o, v, lo, hi + 1, bound)
  {
  }

  lemma AllAboveGrows(o: nat, v: seq<Word>, lo: nat, hi: nat, bound: int)
    requires AllAbove(o, v, lo + 1, hi, bound) && o <= lo < hi && bound < AddrAt(o, v, lo)
    ensures AllAbove(o, v, lo, hi, bound)
  {
  }

  /** The downward scan of the partition: the first position at or below `from` whose address is at
      most `piv`, given that there is one at `stop`. */
  method ScanDown(data: array<Word>, from: nat, piv: int, ghost stop: nat, ghost o: nat, ghost v: seq<Word>)
    returns (j: nat)
    requires o < data.Length && o <= stop <= from < o + data.Length
    requires v == Rotate(data[..], o) && AddrAt(o, v, stop) <= piv
    ensures v == Rotate(data[..], o)
    ensures stop <= j <= from && AddrAt(o, v, j) <= piv && AllAbove(o, v, j + 1, from + 1, piv)
  {
    j := from;
    AddrAtSlot(data[..], o, j);
    while Addr(data[Wrap(j, data.Length)]) > piv
      invariant stop <= j <= from
      invariant AllAbove(o, v, j + 1, from + 1, piv)
      decreases j
    {
      AddrAtSlot(data[..], o, j);
      AllAboveGrows(o, v, j, from + 1, piv);
      j := j - 1;
      AddrAtSlot(data[..], o, j);
    }
    AddrAtSlot(data[..], o, j);
  }

  /** The upward scan of the partition. */
  method ScanUp(data: array<Word>, from: nat, piv: int, ghost stop: nat, ghost o: nat, ghost v: seq<Word>)
    returns (i: nat)
    requires o < data.Length && o <= from <= stop < o + data.Length
    requires v == Rotate(data[..], o) && piv <= AddrAt(o, v, stop)
    ensures v == Rotate(data[..], o)
    ensures from <= i <= stop && piv <= AddrAt(o, v, i) && AllBelow(o, v, from, i, piv)
  {
    i := from;
    AddrAtSlot(data[..], o, i);
    while Addr(data[Wrap(i, data.Length)]) < piv
      invariant from <= i <= stop
      invariant AllBelow(o, v, from, i, piv)
      decreases stop - i
    {
      AddrAtSlot(data[..], o, i);
      AllBelowGrows(o, v, from, i, piv);
      i := i + 1;
      AddrAtSlot(data[..], o, i);
    }
    AddrAtSlot(data[..], o, i);
  }

  /** What to work on: positions [lo, hi) of the ring that reads `v0` from position `o`. */
  datatype Stretch = Stretch(o: nat, v0: seq<Word>, lo: nat, hi: nat) {
    predicate Fits() { o <= lo <= hi <= o + |v0| }
  }

  /** How far the scans of a partition have come: below `l` and from `r` on everything is on its side, and the
      entries at `low` and `high` stop the next scans. */
  datatype Scans = Scans(l: nat, r: nat, low: nat, high: nat)

  /** The partition so far: `v` rearranges the window, positions up to `l` hold addresses at most the pivot,
      from `r` on at least the pivot, and the two scans have an entry to stop at. */
  ghost predicate Split(w: Stretch, v: seq<Word>, c: Scans, piv: int) {
    && w.Fits() && w.lo <= c.l <= c.r <= w.hi && Rearranged(w.v0, v, w.lo - w.o, w.hi - w.o)
    && (forall k :: w.lo - w.o <= k < c.l - w.o ==> Addr(v[k]) <= piv)
    && (forall k :: c.r - w.o <= k < w.hi - w.o ==> piv <= Addr(v[k]))
    && w.lo <= c.low < c.r && c.l <= c.high + 1 && w.lo <= c.high < w.hi
    && AddrAt(w.o, v, c.low) <= piv <= AddrAt(w.o, v, c.high)
  }

  lemma SplitStart(w: Stretch, mid: nat, piv: int)
    requires w.Fits() && w.lo <= mid < w.hi && AddrAt(w.o, w.v0, mid) == piv
    ensures Split(w, w.v0, Scans(w.lo, w.hi, mid, mid), piv)
  {
  }

  lemma SplitBounds(w: Stretch, v: seq<Word>, c: Scans, piv: int)
    requires Split(w, v, c, piv)
    ensures AddrAt(w.o, v, c.low) <= piv <= AddrAt(w.o, v, c.high)
  {
  }

  lemma SplitSwap(w: Stretch, v: seq<Word>, u: seq<Word>, c: Scans, piv: int, i: nat, j: nat)
    requires Split(w, v, c, piv)
    requires c.l <= i < j < c.r && piv <= AddrAt(w.o, v, i) && AddrAt(w.o, v, j) <= piv
    requires AllBelow(w.o, v, c.l, i, piv) && AllAbove(w.o, v, j + 1, c.r, piv)
    requires Swapped(w.o, v, u, i, j)
    ensures Split(w, u, Scans(i + 1, j, i, j), piv)
  {
    hide Addr, Rearranged;
    var o := w.o;
    RearrangedSwap(w.v0, v, i - o, j - o, w.lo - o, w.hi - o);
    forall k | w.lo - o <= k < i + 1 - o ensures Addr(u[k]) <= piv {
      assert k < c.l - o ==> Addr(v[k]) <= piv;
    }
    forall k | j - o <= k < w.hi - o ensures piv <= Addr(u[k]) {
      assert c.r - o <= k ==> piv <= Addr(v[k]);
    }
  }

  lemma SplitDone(w: Stretch, v: seq<Word>, c: Scans, piv: int, i: nat, j: nat)
    requires Split(w, v, c, piv)
    requires j < c.r && w.lo <= j <= i <= w.hi && AddrAt(w.o, v, j) <= piv
    requires AllBelow(w.o, v, c.l, i, piv) && AllAbove(w.o, v, j + 1, c.r, piv)
    ensures Partitioned(w, v, j + 1, piv)
  {
    hide Addr;
  }

  ghost predicate Swapped(o: nat, v: seq<Word>, u: seq<Word>, i: nat, j: nat)
  {
    o <= i < j < o + |v| && u == v[i - o := v[j - o]][j - o := v[i - o]]
  }

  /** `v` rearranges the window, with everything below `mid` at most the pivot and everything from `mid` on at
      least the pivot. */
  ghost predicate Partitioned(w: Stretch, v: seq<Word>, mid: nat, pivot: int) {
    && w.Fits() && w.lo <= mid <= w.hi && |v| == |w.v0|
    && Rearranged(w.v0, v, w.lo - w.o, w.hi - w.o)
    && Cut(v, w.lo - w.o, mid - w.o, w.hi - w.o, pivot)
  }

  /** Hoare partition of the window [lo, hi] of ring positions around the middle entry. */
  method Partition(data: array<Word>, lo: nat, hi: nat, ghost o: nat) returns (p: nat, ghost pivot: int)
    requires o < data.Length && o <= lo < hi < o + data.Length
    modifies data
    ensures lo <= p < hi
    ensures Partitioned(Stretch(o, old(Rotate(data[..], o)), lo, hi + 1), Rotate(data[..], o), p + 1, pivot)
  {
    hide Rotate, Wrap, Addr, AddrAt, Split, AllBelow, AllAbove, Swapped, Partitioned;
    var mid := (lo + hi) / 2;
    AddrAtSlot(data[..], o, mid);
    var piv := Addr(data[Wrap(mid, data.Length)]);
    pivot := piv;
    ghost var w := Stretch(o, Rotate(data[..], o), lo, hi + 1);
    ghost var v, first, low, high := w.v0, true, mid, mid;
    SplitStart(w, mid, piv);
    var i: int := lo - 1;
    var j: int := hi + 1;
    while true
      invariant lo - 1 <= i < j <= hi + 1
      invariant if first then i == lo - 1 && j == hi + 1 && low == high == mid else i == low && high == j
      invariant lo <= low <= hi && lo <= high <= hi && v == Rotate(data[..], o)
      invariant Split(w, v, Scans(i + 1, j, low, high), piv)
      decreases j - i
    {
      ghost var c, u := Scans(i + 1, j, low, high), v;
      SplitBounds(w, v, c, piv);
      j := ScanDown(data, j - 1, piv, low, o, v);
      i := ScanUp(data, i + 1, piv, high, o, v);
      if i >= j {
        p := j;
        SplitDone(w, v, c, piv, i, j);
        return;
      }
      XorSwap(data, i, j, o);
      v := Rotate(data[..], o);
      SplitSwap(w, u, v, c, piv, i, j);
      first, low, high := false, i, j;
    }
  }

  lemma SortingAHalf(v: seq<Word>, t: seq<Word>, lo: nat, mid: nat, hi: nat, pivot: int, left: bool)
    requires lo <= mid <= hi <= |v| && Cut(v, lo, mid, hi, pivot)
    requires if left then Rearranged(v, t, lo, mid) else Rearranged(v, t, mid, hi)
    ensures Cut(t, lo, mid, hi, pivot) && Rearranged(v, t, lo, hi)
    ensures if left then t[mid..hi] == v[mid..hi] else t[lo..mid] == v[lo..mid]
  {
    if left {
      RearrangedWider(v, t, lo, mid, lo, hi);
      RearrangedKeepsBounds(v, t, lo, mid, pivot);
      assert t[mid..hi] == t[mid..][..hi - mid] == v[mid..hi];
    } else {
      RearrangedWider(v, t, mid, hi, lo, hi);
      RearrangedKeepsBounds(v, t, mid, hi, pivot);
      assert t[lo..mid] == t[..mid][lo..] == v[lo..mid];
    }
  }

  /** The loop of the quicksort has placed everything outside [lo, hi): each such entry is in order
      against every other entry of the window. */
  ghost predicate Placed(v: seq<Word>, start: nat, lo: nat, hi: nat, end: nat)
    requires start <= lo && hi <= end <= |v|
  {
    forall a, b :: start <= a < b < end && (a < lo || hi <= b) ==> Addr(v[a]) <= Addr(v[b])
  }

  lemma PlacedRearranged(v: seq<Word>, t: seq<Word>, start: nat, lo: nat, hi: nat, end: nat)
    requires start <= lo <= hi <= end <= |v|
    requires Placed(v, start, lo, hi, end) && Rearranged(v, t, lo, hi)
    ensures |t| == |v| && Placed(t, start, lo, hi, end)
  {
    forall a, b | start <= a < b < end && (a < lo || hi <= b) ensures Addr(t[a]) <= Addr(t[b]) {
      var a' := Origin(v, t, lo, hi, a);
      var b' := Origin(v, t, lo, hi, b);
    }
  }

  /** Where an entry of a rearrangement came from. */
  lemma Origin(v: seq<Word>, t: seq<Word>, lo: nat, hi: nat, k: nat) returns (k': nat)
    requires lo <= hi <= |v| && Rearranged(v, t, lo, hi) && k < |v|
    ensures k' < |v| && v[k'] == t[k]
    ensures if lo <= k < hi then lo <= k' < hi else k' == k
  {
    k' := k;
    if k < lo {
      assert t[k] == t[..lo][k];
    } else if hi <= k {
      assert t[k] == t[hi..][k - hi];
    } else {
      assert t[lo..hi][k - lo] in multiset(v[lo..hi]);
      var i :| 0 <= i < hi - lo && v[lo..hi][i] == t[k];
      k' := lo + i;
    }
  }

  lemma RearrangedThen(s: seq<Word>, t: seq<Word>, u: seq<Word>, lo: nat, hi: nat)
    requires lo <= hi <= |s| && Rearranged(s, t, lo, hi) && Rearranged(t, u, lo, hi)
    ensures |u| == |s| && Rearranged(s, u, lo, hi)
  {
  }

  /** The loop invariant of the quicksort: `v` rearranges the window, and all but [lo, hi) is placed. */
  ghost predicate Progress(w: Stretch, v: seq<Word>, lo: nat, hi: nat) {
    && w.Fits() && w.lo <= lo && w.lo <= hi <= w.hi && |v| == |w.v0|
    && Rearranged(w.v0, v, w.lo - w.o, w.hi - w.o)
    && Placed(v, w.lo - w.o, lo - w.o, hi - w.o, w.hi - w.o)
  }

  /** `v` is `v0` with positions [lo, hi) sorted. */
  ghost predicate SortsTo(o: nat, v0: seq<Word>, v: seq<Word>, lo: nat, hi: nat) {
    && o <= lo <= hi <= o + |v0| && |v| == |v0|
    && Rearranged(v0, v, lo - o, hi - o)
    && Sorted(v[lo - o..hi - o])
  }

  lemma ProgressStart(w: Stretch)
    requires w.Fits()
    ensures Progress(w, w.v0, w.lo, w.hi)
  {
  }

  lemma ProgressDone(w: Stretch, v: seq<Word>, lo: nat, hi: nat)
    requires Progress(w, v, lo, hi) && hi <= lo + 1
    ensures SortsTo(w.o, w.v0, v, w.lo, w.hi)
  {
  }

  /** One round: partition positions [lo, hi) of `v` into `t` at `mid`, then sort one half of `t` into `u`. */
  lemma ProgressStep(w: Stretch, v: seq<Word>, t: seq<Word>, u: seq<Word>, lo: nat, mid: nat, hi: nat, pivot: int,
                     left: bool)
    requires Progress(w, v, lo, hi) && lo <= hi
    requires Partitioned(Stretch(w.o, v, lo, hi), t, mid, pivot)
    requires if left then SortsTo(w.o, t, u, lo, mid) else SortsTo(w.o, t, u, mid, hi)
    ensures if left then Progress(w, u, mid, hi) else Progress(w, u, lo, mid)
  {
    hide Rearranged, Placed, Cut, Sorted;
    var o := w.o;
    PlacedStep(w.v0, v, t, u, w.lo - o, lo - o, mid - o, hi - o, w.hi - o, pivot, left);
  }

  lemma PlacedStep(v0: seq<Word>, v: seq<Word>, t: seq<Word>, u: seq<Word>, start: nat, lo: nat, mid: nat,
                   hi: nat, end: nat, pivot: int, left: bool)
    requires start <= lo <= mid <= hi <= end <= |v0| && |v| == |v0| && |t| == |v0|
    requires Rearranged(v0, v, start, end) && Placed(v, start, lo, hi, end)
    requires Rearranged(v, t, lo, hi) && Cut(t, lo, mid, hi, pivot)
    requires if left then Rearranged(t, u, lo, mid) else Rearranged(t, u, mid, hi)
    requires if left then Sorted(u[lo..mid]) else Sorted(u[mid..hi])
    ensures Rearranged(v0, u, start, end)
    ensures if left then Placed(u, start, mid, hi, end) else Placed(u, start, lo, mid, end)
  {
    hide Rearranged, Placed, Cut, Sorted;
    SortingAHalf(t, u, lo, mid, hi, pivot, left);
    RearrangedThen(v, t, u, lo, hi);
    RearrangedWider(v, u, lo, hi, start, end);
    RearrangedThen(v0, v, u, start, end);
    PlacedRearranged(v, u, start, lo, hi, end);
    PlacedHalf(u, start, lo, mid, hi, end, pivot, left);
  }

  lemma PlacedHalf(u: seq<Word>, start: nat, lo: nat, mid: nat, hi: nat, end: nat, pivot: int, left: bool)
    requires start <= lo <= mid <= hi <= end <= |u|
    requires Placed(u, start, lo, hi, end) && Cut(u, lo, mid, hi, pivot)
    requires if left then Sorted(u[lo..mid]) else Sorted(u[mid..hi])
    ensures if left then Placed(u, start, mid, hi, end) else Placed(u, start, lo, mid, end)
  {
    hide Addr;
    var l, r := u[lo..mid], u[mid..hi];
    assert forall k :: lo <= k < mid ==> u[k] == l[k - lo];
    assert forall k :: mid <= k < hi ==> u[k] == r[k - mid];
    forall a, b | start <= a < b < end && (if left then a < mid || hi <= b else a < lo || mid <= b)
      ensures Addr(u[a]) <= Addr(u[b])
    {
      if lo <= a && b < hi {
        if b < mid {
          assert Addr(l[a - lo]) <= Addr(l[b - lo]);
        } else if mid <= a {
          assert Addr(r[a - mid]) <= Addr(r[b - mid]);
        } else {
          assert Addr(l[a - lo]) <= pivot <= Addr(r[b - mid]);
        }
      }
    }
  }

  /** Sorts the window [lo0, hi0] of ring positions by address. The result is a rearrangement of the
      window, and no slot outside it changes, wherever the window wraps. */
  method Quicksort(data: array<Word>, lo0: nat, hi0: int, ghost o: nat)
    requires o < data.Length && o <= lo0 && lo0 - 1 <= hi0 < o + data.Length
    modifies data
    ensures SortsTo(o, old(Rotate(data[..], o)), Rotate(data[..], o), lo0, hi0 + 1)
    decreases hi0 - lo0
  {
    hide Rotate, Progress, SortsTo, Partitioned;
    var lo, hi := lo0, hi0;
    ghost var w := Stretch(o, Rotate(data[..], o), lo0, hi0 + 1);
    ghost var v := w.v0;
    ProgressStart(w);
    while hi > lo
      invariant lo0 <= lo && lo - 1 <= hi <= hi0
      invariant v == Rotate(data[..], o) && Progress(w, v, lo, hi + 1)
      decreases hi - lo
    {
      ghost var l, h, u := lo, hi + 1, v;
      var p, pivot := Partition(data, lo, hi, o);
      ghost var t := Rotate(data[..], o);
      if p - lo > hi - p {
        Quicksort(data, lo, p, o);
        v := Rotate(data[..], o);
        ProgressStep(w, u, t, v, l, p + 1, h, pivot, true);
        lo := p + 1;
      } else {
        Quicksort(data, p + 1, hi, o);
        v := Rotate(data[..], o);
        ProgressStep(w, u, t, v, l, p + 1, h, pivot, false);
        hi := p;
      }
    }
    ProgressDone(w, v, lo, hi + 1);
  }
}
