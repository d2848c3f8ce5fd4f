/** What the physical page allocator does to the free-list ring, as functions and relations. */
module AllocatorSpec {
  import opened PageEntry
  import opened Runs
  import opened Ring
  import opened Compaction

  /** The allocator's state: the ring and the free-memory counter, which wraps like uint64_t. */
  datatype Pmem = Pmem(ring: Ring, freeMem: Word)

  function AddWord(a: Word, b: Word): Word { (a + b) % WORD_LIMIT }

  function SubWord(a: Word, b: Word): Word { (a - b) % WORD_LIMIT }

  // ----- Inserting -----

  /** Inserting compacts first when the ring is full; `front` chooses the end. The call panics, and has no
      outcome here, when the ring is still full after that. */
  ghost predicate Inserts(r: Ring, v: Word, front: bool, r': Ring, exact: bool) {
    if |r.dead| > 1 then r' == Put(r, v, front)
    else exists mid :: Compacts(r, mid, exact) && |mid.dead| > 1 && r' == Put(mid, v, front)
  }

  function Put(r: Ring, v: Word, front: bool): Ring
    requires |r.dead| > 1
  {
    if front then EnqueueFront(r, v) else Enqueue(r, v)
  }

  /** The entries pagealloc_free makes of a range: full-sized ones and a last, shorter one. */
  function Chunks(addr: Word, pages: nat): seq<Word>
    decreases pages
  {
    if pages == 0 then []
    else
      var n := if pages >= MAX_ENTRIES then MAX_ENTRIES else pages;
      [BuildEntry(addr, n)] + Chunks(AddWord(addr, n * PAGE_SIZE), pages - n)
  }

  ghost predicate InsertsAll(r: Ring, vs: seq<Word>, r': Ring, exact: bool)
    decreases |vs|
  {
    if vs == [] then r' == r
    else
      var init, last := vs[..|vs| - 1], vs[|vs| - 1];
      exists mid :: InsertsAll(r, init, mid, exact) && Inserts(mid, last, false, r', exact)
  }

  /** Inserting the entries in order comes to one that finds the ring full, and still full after compacting
      it. */
  ghost predicate Jams(r: Ring, vs: seq<Word>, r': Ring) {
    exists k: nat, mid: Ring :: k < |vs| && InsertsAll(r, vs[..k], mid, false) && JamsAt(mid, r')
  }

  ghost predicate JamsAt(mid: Ring, r': Ring) { mid.Full() && Compacts(mid, r', false) && r'.Full() }

  /** pagealloc_free of an aligned range that does not panic. */
  ghost predicate Frees(s: Pmem, addr: Word, size: Word, s': Pmem, exact: bool) {
    && addr % PAGE_SIZE == 0 && size % PAGE_SIZE == 0
    && s'.freeMem == AddWord(s.freeMem, size)
    && InsertsAll(s.ring, Chunks(addr, size / PAGE_SIZE), s'.ring, exact)
  }

  // ----- Allocating -----

  datatype Scan = Found(addr: Word, after: Ring) | NotFound(after: Ring) | Starved

  /** The entry left of `e` when its first `need` pages are taken. */
  function Remainder(e: Word, need: nat): Word
    requires need < 0x8000_0000
  {
    BuildEntry(Addr(e) + need * PAGE_SIZE, Count(e) - need)
  }

  /** The ring after taking `need` pages from its first entry. */
  function Take(r: Ring, need: nat): Ring
    requires r.live != [] && r.dead != [] && need < 0x8000_0000 && Count(r.live[0]) >= need
  {
    var e := r.live[0];
    if Count(e) > need then EnqueueFront(Dequeue(r), Remainder(e, need)) else Dequeue(r)
  }

  /** The ring after moving its first entry to the back. */
  function Turn(r: Ring): (r': Ring)
    requires r.live != [] && r.dead != []
    ensures |r'.dead| == |r.dead|
  {
    Enqueue(Dequeue(r), r.live[0])
  }

  /** One pass of the allocation loop, looking at `n` more entries. */
  function ScanPass(r: Ring, n: int, need: nat): Scan
    requires r.dead != [] && need < 0x8000_0000
    decreases n
  {
    if n <= 0 then NotFound(r)
    else if r.live == [] then Starved
    else if Count(r.live[0]) >= need then Found(Addr(r.live[0]), Take(r, need))
    else ScanPass(Turn(r), n - 1, need)
  }

  datatype Outcome = Address(addr: Word) | NoMemory | Panic

  function PagesNeeded(size: Word): nat { RoundUp(size) / PAGE_SIZE }

  /** The caller's size, in pages, fits the int32_t the allocator keeps it in. */
  predicate Requestable(size: Word) { PagesNeeded(size) < 0x8000_0000 }

  /** The pages of an allocation hold its size, and no page less would; a size inside the last page of the address space
      wraps to none. */
  lemma PagesCoverSize(size: Word)
    ensures size <= 0xffff_ffff_ffff_f000 ==> size <= 4096 * PagesNeeded(size) < size + 4096
    ensures size > 0xffff_ffff_ffff_f000 ==> PagesNeeded(size) == 0
  {
    RoundUpMeaning(size);
  }

  /** pagealloc_alloc: a pass, and after a failed pass a compaction; twice at most. */
  ghost predicate Allocs(s: Pmem, size: Word, s': Pmem, out: Outcome, exact: bool)
    requires Requestable(size)
  {
    && s.ring.dead != []
    && match ScanPass(s.ring, s.ring.cnt, PagesNeeded(size)) {
      case Found(a, r) => out == Address(a) && s' == Pmem(r, SubWord(s.freeMem, RoundUp(size)))
      case Starved => out == Panic
      case NotFound(r) =>
        exists mid :: Compacts(r, mid, exact) && AllocsAgain(Pmem(mid, s.freeMem), size, s', out, exact)
    }
  }

  /** The second pass. */
  ghost predicate AllocsAgain(s: Pmem, size: Word, s': Pmem, out: Outcome, exact: bool)
    requires Requestable(size)
  {
    && s.ring.dead != []
    && match ScanPass(s.ring, s.ring.cnt, PagesNeeded(size)) {
      case Found(a, r) => out == Address(a) && s' == Pmem(r, SubWord(s.freeMem, RoundUp(size)))
      case Starved => out == Panic
      case NotFound(r) => out == NoMemory && s'.freeMem == s.freeMem && Compacts(r, s'.ring, exact)
    }
  }

  // ----- Facts shared by the proofs -----

  /** The chunks of a range tile it: each page of the range is covered once, no other page at all. */
  lemma {:induction false} ChunksTile(addr: Word, pages: nat, p: int)
    requires addr % PAGE_SIZE == 0 && addr / PAGE_SIZE + pages <= PAGE_LIMIT
    ensures Cover(Chunks(addr, pages), p) == if addr / PAGE_SIZE <= p < addr / PAGE_SIZE + pages then 1 else 0
    ensures Total(Chunks(addr, pages)) == pages
    ensures AllInReach(Chunks(addr, pages))
    decreases pages
  {
    if pages != 0 {
      var n := if pages >= MAX_ENTRIES then MAX_ENTRIES else pages;
      var e := BuildEntry(addr, n);
      var next := AddWord(addr, n * PAGE_SIZE);
      EntryRoundTrip(addr, n);
      assert next == addr + n * PAGE_SIZE;
      ChunksTile(next, pages - n, p);
      var rest := Chunks(next, pages - n);
      SumConcat([e], rest, CoverOf(p));
      SumConcat([e], rest, CountOf());
      SumOne(e, CoverOf(p));
      SumOne(e, CountOf());
    }
  }

  /** With more dead slots than entries to insert, nothing is ever compacted. */
  lemma {:induction false} RoomIsExact(r: Ring, vs: seq<Word>, r': Ring)
    requires InsertsAll(r, vs, r', false) && |r.dead| > |vs|
    ensures InsertsAll(r, vs, r', true) && |r'.dead| == |r.dead| - |vs|
    decreases |vs|
  {
    if vs != [] {
      var init, last := vs[..|vs| - 1], vs[|vs| - 1];
      var mid :| InsertsAll(r, init, mid, false) && Inserts(mid, last, false, r', false);
      RoomIsExact(r, init, mid);
      assert Inserts(mid, last, false, r', true);
    }
  }

  /** So such a ring does not jam. */
  lemma RoomNeverJams(r: Ring, vs: seq<Word>, r': Ring)
    requires |r.dead| > |vs|
    ensures !Jams(r, vs, r')
  {
    hide InsertsAll, Compacts;
    if Jams(r, vs, r') {
      var k: nat, mid: Ring :| k < |vs| && InsertsAll(r, vs[..k], mid, false) && JamsAt(mid, r');
      RoomIsExact(r, vs[..k], mid);
    }
  }

  /** A run of pages makes one entry for each 2^20 of them, and one for the rest. */
  lemma {:induction false} ChunkCount(addr: Word, pages: nat)
    ensures |Chunks(addr, pages)| == (pages + MAX_ENTRIES - 1) / MAX_ENTRIES
    decreases pages
  {
    if pages >= MAX_ENTRIES {
      ChunkCount(AddWord(addr, MAX_ENTRIES * PAGE_SIZE), pages - MAX_ENTRIES);
    } else if pages > 0 {
      ChunkCount(AddWord(addr, pages * PAGE_SIZE), 0);
    }
  }
}
