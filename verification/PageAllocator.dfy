/** The physical page allocator: a free list in a ring queue, and a counter of free memory. */
module PageAllocator {
  import opened PageEntry
  import opened Ring
  import opened RingSort
  import opened RingQueue
  import opened Compaction
  import opened AllocatorSpec

  lemma RotateBy(s: seq<Word>, o: nat, m: nat)
    requires o < |s| && m < |s|
    ensures Rotate(s, Wrap(o + m, |s|)) == Rotate(s, o)[m..] + Rotate(s, o)[..m]
  {
  }

  /** The number of slots compact_queue sorts: the live ones, or all of them when none is live. */
  function WindowSize(head: nat, tail: nat, size: nat): nat
    requires head < size && tail < size
  {
    if head == tail then size else Occupied(head, tail, size)
  }

  lemma WindowIsPrefix(s: seq<Word>, head: nat, tail: nat, cnt: int)
    requires head < |s| && tail < |s|
    ensures Window(RingOf(s, head, tail, cnt)) == Rotate(s, head)[..WindowSize(head, tail, |s|)]
  {
  }

  /** Slots `t` hold the merged window and head has moved on once per merge: that is the compacted ring. */
  lemma CompactedRing(s: seq<Word>, t: seq<Word>, head: nat, tail: nat, cnt: int, w: seq<Word>, m: nat)
    requires head < |s| && tail < |s| && |t| == |s|
    requires var n := WindowSize(head, tail, |s|);
      && |w| == n && m == |MergeFrom(w, 0).at| < |s|
      && Rotate(t, head)[..n] == MergeFrom(w, 0).entries
      && Rotate(t, head)[n..] == Rotate(s, head)[n..]
    ensures RingOf(t, Wrap(head + m, |s|), tail, cnt - m) == Compacted(RingOf(s, head, tail, cnt), w)
  {
    hide MergeFrom, Rotate, Wrap, Occupied;
    var n := WindowSize(head, tail, |s|);
    var r, r' := RingOf(s, head, tail, cnt), Compacted(RingOf(s, head, tail, cnt), w);
    WindowIsPrefix(s, head, tail, cnt);
    SlotsAfterMerging(r, w, MergeFrom(w, 0).entries, m);
    WrapHead(head, tail, m, |s|);
    RotateBy(t, head, m);
    assert Rotate(t, head) == MergeFrom(w, 0).entries + r.Slots()[n..];
    RingSplit(t, Wrap(head + m, |s|), tail, cnt - m, r'.live, r'.dead);
  }

  lemma RingSplit(s: seq<Word>, head: nat, tail: nat, cnt: int, live: seq<Word>, dead: seq<Word>)
    requires head < |s| && tail < |s|
    requires Rotate(s, head) == live + dead && |live| == Occupied(head, tail, |s|)
    ensures RingOf(s, head, tail, cnt) == Ring(live, dead, cnt)
  {
    hide Rotate, Occupied;
  }

  /** The slots of a compacted ring, read from the new head. */
  lemma SlotsAfterMerging(r: Ring, w: seq<Word>, e: seq<Word>, m: nat)
    requires |w| == |Window(r)| && MergeFrom(w, 0).entries == e && |MergeFrom(w, 0).at| == m
    ensures |e| == |w| && (m == 0 || m < |e|)
    ensures var u := e + r.Slots()[|w|..];
      Compacted(r, w).Slots() == u[m..] + u[..m]
    ensures |Compacted(r, w).live| == if m == 0 then |r.live| else |w| - m
    ensures Compacted(r, w).cnt == r.cnt - m
  {
    hide MergeFrom;
    MergeShape(w, 0);
    var rest := r.Slots()[|w|..];
    var u := e + rest;
    assert u[..m] == e[..m] && u[m..] == e[m..] + rest;
    if r.live == [] {
      assert rest == [];
    } else {
      assert rest == r.dead;
      assert e[m..] + (r.dead + e[..m]) == (e[m..] + r.dead) + e[..m];
    }
  }

  /** Moving the head on by `m` leaves that many fewer live slots, or all but `m` if none was live. */
  lemma WrapHead(head: nat, tail: nat, m: nat, size: nat)
    requires head < size && tail < size && (m == 0 || m < WindowSize(head, tail, size))
    ensures Wrap(head + m, size) < size
    ensures Occupied(Wrap(head + m, size), tail, size)
         == if m == 0 then Occupied(head, tail, size) else WindowSize(head, tail, size) - m
  {
  }

  /** The merge loop at ring position `lo`: the slots `s` still have to go through the merges of `w` from
      there on, `m` merges are done, and the slots outside the window are as in `rest`. */
  ghost predicate Merging(o: nat, s: seq<Word>, w: seq<Word>, lo: nat, m: nat, rest: seq<Word>) {
    && o < |s| && o <= lo && |w| + |rest| == |s|
    && var v := Rotate(s, o);
    && var now, all := MergeFrom(v[..|w|], lo - o), MergeFrom(w, 0);
    && v[|w|..] == rest
    && now.entries == all.entries
    && m + |now.at| == |all.at|
  }

  lemma MergingStart(o: nat, s: seq<Word>, len: nat)
    requires o < |s| && len <= |s|
    ensures Merging(o, s, Rotate(s, o)[..len], o, 0, Rotate(s, o)[len..])
  {
  }

  /** One step of the merge loop, on slot contents. */
  function MergeStep(s: seq<Word>, i: nat, j: nat): seq<Word>
    requires i < |s| && j < |s|
  {
    if Mergeable(s[i], s[j]) then s[j := Merged(s[i], s[j])][i := 0] else s
  }

  lemma MergeStepIs(s: seq<Word>, i: nat, j: nat)
    requires i < |s| && j < |s|
    ensures Mergeable(s[i], s[j]) ==> Merged(s[i], s[j]) == BuildEntry(Addr(s[i]), Count(s[i]) + Count(s[j]))
  {
  }

  lemma MergingStep(o: nat, s: seq<Word>, w: seq<Word>, lo: nat, m: nat, rest: seq<Word>)
    requires Merging(o, s, w, lo, m, rest) && lo + 2 < o + |w|
    ensures var i, j := Wrap(lo, |s|), Wrap(lo + 1, |s|);
      && i < |s| && j < |s|
      && Merging(o, MergeStep(s, i, j), w, lo + 1, if Mergeable(s[i], s[j]) then m + 1 else m, rest)
  {
    hide MergeFrom, Rotate, Wrap, Merged, Mergeable;
    var i, j, k := Wrap(lo, |s|), Wrap(lo + 1, |s|), lo - o;
    var v := Rotate(s, o);
    RotateAt(s, o, lo);
    RotateAt(s, o, lo + 1);
    MergeUnfolds(v[..|w|], k);
    if Mergeable(s[i], s[j]) {
      var e := Merged(s[i], s[j]);
      RotateUpdate(s, o, lo + 1, e);
      RotateUpdate(s[j := e], o, lo, 0);
      var u := v[k + 1 := e][k := 0];
      assert Rotate(MergeStep(s, i, j), o) == u;
      assert u[..|w|] == MergeAt(v[..|w|], k);
      assert u[|w|..] == v[|w|..];
    }
  }

  lemma MergeUnfolds(x: seq<Word>, k: nat)
    requires k + 2 < |x|
    ensures if Mergeable(x[k], x[k + 1])
            then MergeFrom(x, k).entries == MergeFrom(MergeAt(x, k), k + 1).entries
              && |MergeFrom(x, k).at| == 1 + |MergeFrom(MergeAt(x, k), k + 1).at|
            else MergeFrom(x, k) == MergeFrom(x, k + 1)
  {
  }

  lemma WrapStep(o: nat, m: nat, n: nat)
    requires o < n && m < n
    ensures Wrap(Wrap(o + m, n) + 1, n) == Wrap(o + m + 1, n) < n
  {
  }

  lemma MergingDone(o: nat, s0: seq<Word>, s: seq<Word>, tail: nat, cnt: int, w: seq<Word>, lo: nat, m: nat)
    requires o < |s| == |s0| && tail < |s| && |w| == WindowSize(o, tail, |s|)
    requires Merging(o, s, w, lo, m, Rotate(s0, o)[|w|..]) && o + |w| <= lo + 2 && m < |s|
    ensures RingOf(s, Wrap(o + m, |s|), tail, cnt - m) == Compacted(RingOf(s0, o, tail, cnt), w)
  {
    MergeShape(w, 0);
    CompactedRing(s0, s, o, tail, cnt, w, m);
  }

  /** After the sort, the window holds a sorting of what it held and the merge loop can start. */
  lemma SortedWindow(o: nat, s0: seq<Word>, s: seq<Word>, len: nat, tail: nat, cnt: int) returns (w: seq<Word>)
    requires o < |s0| == |s| && tail < |s0| && len == WindowSize(o, tail, |s0|)
    requires SortsTo(o, Rotate(s0, o), Rotate(s, o), o, o + len)
    ensures |w| == len && SortOf(Window(RingOf(s0, o, tail, cnt)), w)
    ensures Merging(o, s, w, o, 0, Rotate(s0, o)[len..])
  {
    w := Rotate(s, o)[..len];
    WindowIsPrefix(s0, o, tail, cnt);
    MergingStart(o, s, len);
  }

  class Allocator {
    const btmLevel: Queue
    var freeMem: Word

    ghost predicate Valid()
      reads this, btmLevel
    {
      btmLevel.Valid()
    }

    ghost function Value(): (s: Pmem)
      requires Valid()
      reads this, btmLevel, btmLevel.queue
      ensures s.ring.dead != []
    {
      Pmem(btmLevel.Value(), freeMem)
    }

    constructor (q: Queue)
      requires q.Valid()
      ensures btmLevel == q && Valid() && Value() == Pmem(q.Value(), 0)
    {
      btmLevel := q;
      freeMem := 0;
    }

    /** The merge loop of compact_queue over the sorted ring positions [lo0, hi]. */
    method MergeNeighbours(lo0: nat, hi: int, ghost o: nat, ghost w: seq<Word>, ghost rest: seq<Word>)
      returns (lo: nat, ghost m: nat)
      requires Valid() && btmLevel.head == o == lo0 && hi == o + |w| - 1 && 0 < |w| <= btmLevel.size
      requires Merging(o, btmLevel.queue[..], w, o, 0, rest)
      modifies btmLevel, btmLevel.queue
      ensures Valid() && btmLevel.queue == old(btmLevel.queue) && btmLevel.size == old(btmLevel.size)
      ensures btmLevel.tail == old(btmLevel.tail)
      ensures Merging(o, btmLevel.queue[..], w, lo, m, rest) && o + |w| <= lo + 2 && m < |w|
      ensures btmLevel.head == Wrap(o + m, btmLevel.size) && btmLevel.entCnt == old(btmLevel.entCnt) - m
    {
      hide Merging, Merged, Count, Addr, BuildEntry;
      var q := btmLevel;
      var n := q.size;
      lo, m := lo0, 0;
      while lo < hi - 1
        invariant o <= lo <= hi
        invariant q.queue == old(q.queue) && q.size == n == q.queue.Length && q.tail == old(q.tail)
        invariant Merging(o, q.queue[..], w, lo, m, rest)
        invariant m <= lo - o && q.head == Wrap(o + m, n) < n && q.entCnt == old(q.entCnt) - m
      {
        ghost var s := q.queue[..];
        MergingStep(o, s, w, lo, m, rest);
        WrapStep(o, m, n);
        var i, j := Wrap(lo, n), Wrap(lo + 1, n);
        var pgCnt := Count(q.queue[i]);
        var pgAddr := Addr(q.queue[i]);
        var nPgAddr := Addr(q.queue[j]);
        var nPgCnt := pgCnt + Count(q.queue[j]);
        if pgCnt * PAGE_SIZE + pgAddr == nPgAddr && nPgCnt < MAX_ENTRIES {
          var nEnt := BuildEntry(pgAddr, nPgCnt);
          q.queue[j] := nEnt;
          q.queue[i] := 0;
          q.head := Wrap(q.head + 1, n);
          q.entCnt := q.entCnt - 1;
          m := m + 1;
        }
        MergeStepIs(s, i, j);
        assert q.queue[..] == MergeStep(s, i, j);
        lo := lo + 1;
      }
    }

    /** compact_queue: sorts the ring between head and tail, then merges neighbours. */
    method CompactQueue()
      requires Valid()
      modifies btmLevel, btmLevel.queue
      ensures Valid() && btmLevel.queue == old(btmLevel.queue) && btmLevel.size == old(btmLevel.size)
      ensures Compacts(old(btmLevel.Value()), btmLevel.Value(), false)
    {
      hide RingOf, Rotate, SortsTo, Merging, Compacted, SortOf, Count, Addr, BuildEntry;
      var q := btmLevel;
      var n := q.size;
      ghost var o, s0, tail, cnt := q.head, q.queue[..], q.tail, q.entCnt;
      var lo: nat := q.head;
      var hi: int := q.tail - 1;
      if hi < lo {
        hi := hi + n;
      }
      ghost var len := hi + 1 - lo;
      Quicksort(q.queue, lo, hi, o);
      ghost var w := SortedWindow(o, s0, q.queue[..], len, tail, cnt);
      ghost var rest := Rotate(s0, o)[len..];
      ghost var m;
      lo, m := MergeNeighbours(lo, hi, o, w, rest);
      MergingDone(o, s0, q.queue[..], tail, cnt, w, lo, m);
    }

    /** insert_queue. `ok` is false, and the call panics, exactly when the ring is full, was compacted and is
        still full. */
    method InsertQueue(val: Word) returns (ok: bool)
      requires Valid()
      modifies btmLevel, btmLevel.queue
      ensures Valid() && btmLevel.queue == old(btmLevel.queue) && btmLevel.size == old(btmLevel.size)
      ensures |old(btmLevel.Value()).dead| > 1 ==> ok
      ensures ok ==> Inserts(old(btmLevel.Value()), val, false, btmLevel.Value(), false)
      ensures !ok ==> JamsAt(old(btmLevel.Value()), btmLevel.Value())
    {
      hide RingOf;
      ok := btmLevel.TryEnqueue(val);
      if !ok {
        CompactQueue();
        ok := btmLevel.TryEnqueue(val);
      }
    }

    /** insert_queue_front. */
    method InsertQueueFront(val: Word) returns (ok: bool)
      requires Valid()
      modifies btmLevel, btmLevel.queue
      ensures Valid() && btmLevel.queue == old(btmLevel.queue) && btmLevel.size == old(btmLevel.size)
      ensures |old(btmLevel.Value()).dead| > 1 ==> ok
      ensures ok ==> Inserts(old(btmLevel.Value()), val, true, btmLevel.Value(), false)
      ensures !ok ==> JamsAt(old(btmLevel.Value()), btmLevel.Value())
    {
      hide RingOf;
      ok := btmLevel.TryEnqueueFront(val);
      if !ok {
        CompactQueue();
        ok := btmLevel.TryEnqueueFront(val);
      }
    }

    /** pagealloc_free: checks the alignment, then inserts the range in chunks. `ok` is false when the
        call panics: on a misaligned range, or when the ring jams before all chunks are in. */
    method Free(addr0: Word, size: Word) returns (ok: bool)
      requires Valid()
      modifies this, btmLevel, btmLevel.queue
      ensures Valid() && btmLevel.queue == old(btmLevel.queue) && btmLevel.size == old(btmLevel.size)
      ensures ok ==> Frees(old(Value()), addr0, size, Value(), false)
      ensures if addr0 % PAGE_SIZE != 0 || size % PAGE_SIZE != 0 then !ok && Value() == old(Value())
              else !ok ==> Jams(old(btmLevel.Value()), Chunks(addr0, size / PAGE_SIZE), btmLevel.Value())
    {
      hide RingOf, BuildEntry, Inserts, Freeing, AddWord, Compacts, Jams, Chunks, JamsAt;
      if addr0 % PAGE_SIZE != 0 || size % PAGE_SIZE != 0 {
        return false;
      }
      var addr := addr0;
      var pageCnt: nat := size / PAGE_SIZE;
      ghost var r0 := btmLevel.Value();
      freeMem := AddWord(freeMem, size);
      FreeingStart(r0, addr0, pageCnt);
      var pg0 := 0;
      while pg0 < pageCnt
        invariant 0 <= pg0
        invariant Valid() && btmLevel.queue == old(btmLevel.queue) && btmLevel.size == old(btmLevel.size)
        invariant freeMem == AddWord(old(freeMem), size)
        invariant Freeing(r0, addr0, pageCnt, addr, pageCnt - pg0, btmLevel.Value())
      {
        var curPg := pageCnt - pg0;
        if pageCnt - pg0 >= MAX_ENTRIES {
          curPg := MAX_ENTRIES;
        }
        ghost var before, at := btmLevel.Value(), addr;
        var val := BuildEntry(addr, curPg);
        addr := AddWord(addr, curPg * PAGE_SIZE);
        var inserted := InsertQueue(val);
        if !inserted {
          FreeingJams(r0, addr0, pageCnt, at, pageCnt - pg0, before, btmLevel.Value());
          return false;
        }
        FreeingStep(r0, addr0, pageCnt, at, pageCnt - pg0, before, btmLevel.Value());
        pg0 := pg0 + MAX_ENTRIES;
      }
      FreeingDone(r0, addr0, pageCnt, addr, pageCnt - pg0, btmLevel.Value());
      return true;
    }

    /** One pass of the allocation loop: at most `ent_cnt` entries are taken from the head; the first that
        is long enough is split, the others go to the back. */
    method Pass(size: Word, pgCnt: nat) returns (out: Outcome)
      requires Valid() && pgCnt < 0x8000_0000
      modifies this, btmLevel, btmLevel.queue
      ensures Valid() && btmLevel.queue == old(btmLevel.queue) && btmLevel.size == old(btmLevel.size)
      ensures var scan := ScanPass(old(btmLevel.Value()), old(btmLevel.entCnt), pgCnt);
        if out.Panic? then scan.Starved?
        else scan == (if out.Address? then Found(out.addr, btmLevel.Value()) else NotFound(btmLevel.Value()))
      ensures freeMem == if out.Address? then SubWord(old(freeMem), size) else old(freeMem)
    {
      hide RingOf, Compacts, BuildEntry, Addr, Count;
      var maxIter := btmLevel.EntCnt();
      ghost var r0 := btmLevel.Value();
      var i := 0;
      while i < maxIter
        invariant 0 <= i && (i <= maxIter || i == 0)
        invariant Valid() && btmLevel.queue == old(btmLevel.queue) && btmLevel.size == old(btmLevel.size)
        invariant freeMem == old(freeMem)
        invariant ScanPass(r0, r0.cnt, pgCnt) == ScanPass(btmLevel.Value(), maxIter - i, pgCnt)
      {
        ghost var r := btmLevel.Value();
        var ok, deq := btmLevel.TryDequeue();
        if !ok {
          return Panic;
        }
        if Count(deq) >= pgCnt {
          var retAddr := Addr(deq);
          RemainderIs(deq, pgCnt);
          var nAddr := AddWord(retAddr, pgCnt * PAGE_SIZE);
          var nPgCnt := Count(deq) - pgCnt;
          if nPgCnt > 0 {
            var _ := InsertQueueFront(BuildEntry(nAddr, nPgCnt));
          }
          freeMem := SubWord(freeMem, size);
          return Address(retAddr);
        } else {
          var _ := InsertQueue(deq);
        }
        i := i + 1;
      }
      return NoMemory;
    }

    /** pagealloc_alloc: a pass, then a compaction; twice at most. */
    method Alloc(size0: Word) returns (out: Outcome)
      requires Valid() && Requestable(size0)
      modifies this, btmLevel, btmLevel.queue
      ensures Valid() && btmLevel.queue == old(btmLevel.queue) && btmLevel.size == old(btmLevel.size)
      ensures Allocs(old(Value()), size0, Value(), out, false)
    {
      hide RingOf, Compacts, ScanPass;
      var size := RoundUp(size0);
      var j := 0;
      ghost var s0 := Value();
      while j < 2
        invariant 0 <= j <= 2
        invariant Valid() && btmLevel.queue == old(btmLevel.queue) && btmLevel.size == old(btmLevel.size)
        invariant freeMem == s0.freeMem
        invariant j == 0 ==> Value() == s0
        invariant j == 1 ==> FailedOnce(s0, size0, Value())
        invariant j == 2 ==> Allocs(s0, size0, Value(), NoMemory, false)
      {
        ghost var start := Value();
        out := Pass(size, size / PAGE_SIZE);
        if !out.NoMemory? {
          PassEnds(s0, start, size0, Value(), out, j);
          return out;
        }
        ghost var failed := btmLevel.Value();
        CompactQueue();
        PassFails(s0, start, size0, failed, Value(), j);
        j := j + 1;
      }
      return NoMemory;
    }
  }

  /** The address of what is left of an entry does not overflow. */
  lemma RemainderIs(e: Word, need: nat)
    requires need < 0x8000_0000
    ensures Remainder(e, need) == BuildEntry(AddWord(Addr(e), need * PAGE_SIZE), Count(e) - need)
  {
    var addr := Addr(e) + need * PAGE_SIZE;
    assert addr < WORD_LIMIT;
    assert AddWord(Addr(e), need * PAGE_SIZE) == addr;
    hide BuildEntry, AddWord;
  }

  /** The chunks of the range up to `addr` are inserted, those of the `left` pages from there are not. */
  ghost predicate Freeing(r0: Ring, addr0: Word, pages: nat, addr: Word, left: int, r: Ring) {
    exists done ::
      && Chunks(addr0, pages) == done + Chunks(addr, if left > 0 then left else 0)
      && InsertsAll(r0, done, r, false)
  }

  lemma FreeingStart(r0: Ring, addr0: Word, pages: nat)
    ensures Freeing(r0, addr0, pages, addr0, pages, r0)
  {
    var done: seq<Word> := [];
    assert Chunks(addr0, pages) == done + Chunks(addr0, pages);
    assert InsertsAll(r0, done, r0, false);
  }

  lemma FirstChunk(addr: Word, left: nat)
    requires left > 0
    ensures var n := if left >= MAX_ENTRIES then MAX_ENTRIES else left;
      Chunks(addr, left) == [BuildEntry(addr, n)] + Chunks(AddWord(addr, n * PAGE_SIZE), left - n)
  {
  }

  lemma FreeingStep(r0: Ring, addr0: Word, pages: nat, addr: Word, left: nat, r: Ring, r': Ring)
    requires Freeing(r0, addr0, pages, addr, left, r) && left > 0
    requires var n := if left >= MAX_ENTRIES then MAX_ENTRIES else left;
      Inserts(r, BuildEntry(addr, n), false, r', false)
    ensures var n := if left >= MAX_ENTRIES then MAX_ENTRIES else left;
      Freeing(r0, addr0, pages, AddWord(addr, n * PAGE_SIZE), left - MAX_ENTRIES, r')
  {
    hide BuildEntry, Inserts, InsertsAll, AddWord, Chunks;
    var n := if left >= MAX_ENTRIES then MAX_ENTRIES else left;
    var done :| Chunks(addr0, pages) == done + Chunks(addr, left) && InsertsAll(r0, done, r, false);
    var v, next := BuildEntry(addr, n), AddWord(addr, n * PAGE_SIZE);
    FirstChunk(addr, left);
    InsertsOneMore(r0, done, v, r, r');
    assert done + ([v] + Chunks(next, left - n)) == (done + [v]) + Chunks(next, left - n);
    assert left - n == if left - MAX_ENTRIES > 0 then left - MAX_ENTRIES else 0;
  }

  /** A ring that is full, and still full after a compaction, before the chunk at `addr` is in. */
  lemma FreeingJams(r0: Ring, addr0: Word, pages: nat, addr: Word, left: nat, r: Ring, r': Ring)
    requires Freeing(r0, addr0, pages, addr, left, r) && left > 0
    requires JamsAt(r, r')
    ensures Jams(r0, Chunks(addr0, pages), r')
  {
    hide BuildEntry, InsertsAll, AddWord, Chunks, JamsAt;
    var done :| Chunks(addr0, pages) == done + Chunks(addr, left) && InsertsAll(r0, done, r, false);
    FirstChunk(addr, left);
    assert Chunks(addr0, pages)[..|done|] == done;
  }

  lemma InsertsOneMore(r0: Ring, vs: seq<Word>, v: Word, r: Ring, r': Ring)
    requires InsertsAll(r0, vs, r, false) && Inserts(r, v, false, r', false)
    ensures InsertsAll(r0, vs + [v], r', false)
  {
    hide Inserts;
    assert (vs + [v])[..|vs|] == vs;
  }

  lemma FreeingDone(r0: Ring, addr0: Word, pages: nat, addr: Word, left: int, r: Ring)
    requires Freeing(r0, addr0, pages, addr, left, r) && left <= 0
    ensures InsertsAll(r0, Chunks(addr0, pages), r, false)
  {
    var done :| Chunks(addr0, pages) == done + Chunks(addr, 0) && InsertsAll(r0, done, r, false);
    assert done == Chunks(addr0, pages);
  }

  /** The first pass found nothing and the ring was compacted. */
  ghost predicate FailedOnce(s0: Pmem, size: Word, s: Pmem)
    requires Requestable(size)
  {
    && s0.ring.dead != [] && s.freeMem == s0.freeMem
    && var scan := ScanPass(s0.ring, s0.ring.cnt, PagesNeeded(size));
    && scan.NotFound? && Compacts(scan.after, s.ring, false)
  }

  lemma PassEnds(s0: Pmem, start: Pmem, size: Word, s: Pmem, out: Outcome, j: int)
    requires Requestable(size) && start.ring.dead != [] && start.freeMem == s0.freeMem
    requires if j == 0 then start == s0 else FailedOnce(s0, size, start)
    requires var scan := ScanPass(start.ring, start.ring.cnt, PagesNeeded(size));
      if out.Panic? then scan.Starved?
      else out.Address? && scan == Found(out.addr, s.ring) && s.freeMem == SubWord(s0.freeMem, RoundUp(size))
    ensures Allocs(s0, size, s, out, false)
  {
    hide ScanPass, Compacts;
    if j != 0 {
      assert AllocsAgain(start, size, s, out, false);
      assert start == Pmem(start.ring, s0.freeMem);
    }
  }

  lemma PassFails(s0: Pmem, start: Pmem, size: Word, failed: Ring, s: Pmem, j: int)
    requires Requestable(size) && start.ring.dead != [] && start.freeMem == s0.freeMem == s.freeMem
    requires if j == 0 then start == s0 else FailedOnce(s0, size, start)
    requires ScanPass(start.ring, start.ring.cnt, PagesNeeded(size)) == NotFound(failed)
    requires Compacts(failed, s.ring, false)
    ensures if j == 0 then FailedOnce(s0, size, s) else Allocs(s0, size, s, NoMemory, false)
  {
    hide ScanPass, Compacts;
    if j != 0 {
      assert AllocsAgain(start, size, s, NoMemory, false);
      assert start == Pmem(start.ring, s0.freeMem);
    }
  }
}
