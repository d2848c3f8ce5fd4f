/** Packed free-list entries: one 64-bit word holds a page address and a run length. */
module PageEntry {

  const PAGE_SIZE := 4096
  const MAX_ENTRIES := 0x10_0000
  const PAGE_LIMIT := 0x1000_0000_0000
  const WORD_LIMIT := 0x1_0000_0000_0000_0000

  /** uint64_t. */
  type Word = x: int | 0 <= x < 0x1_0000_0000_0000_0000

  // ----- The entry codec -----

  /** BUILD_ENTRY: the address is masked to a page boundary and shifted left by 8, losing what
      overflows 64 bits; the run length less one fills the low 20 bits. */
  function BuildEntry(addr: Word, pages: int): Word {
    (addr / PAGE_SIZE) % PAGE_LIMIT * MAX_ENTRIES + (pages - 1) % MAX_ENTRIES
  }

  /** GET_ADDR divided by the page size. */
  function Page(e: Word): nat { e / MAX_ENTRIES }

  /** GET_ADDR. */
  function Addr(e: Word): Word { Page(e) * PAGE_SIZE }

  /** GET_PG_CNT. */
  function Count(e: Word): nat { e % MAX_ENTRIES + 1 }

  predicate Covers(e: Word, p: int) { Page(e) <= p < Page(e) + Count(e) }

  /** No page of the entry lies beyond what the 44-bit page field can name. */
  predicate InReach(e: Word) { Page(e) + Count(e) <= PAGE_LIMIT }

  /** ALIGN(x, 4096) in 64-bit unsigned arithmetic: the final increment wraps. */
  function RoundUp(x: Word): Word {
    if x == 0 then 0 else ((x - 1) / PAGE_SIZE * PAGE_SIZE + PAGE_SIZE) % WORD_LIMIT
  }

  /** Encoding then decoding gives back the page and the run length, for every page the address
      field can hold and every run length the count field can hold; a run of 2^20 pages fits
      although the field has only 20 bits. */
  lemma EntryRoundTrip(addr: Word, pages: int)
    requires addr / PAGE_SIZE < PAGE_LIMIT
    requires 1 <= pages <= MAX_ENTRIES
    ensures Page(BuildEntry(addr, pages)) == addr / PAGE_SIZE
    ensures Count(BuildEntry(addr, pages)) == pages
    ensures forall p :: Covers(BuildEntry(addr, pages), p) <==> addr / PAGE_SIZE <= p < addr / PAGE_SIZE + pages
  {
    assert (pages - 1) % MAX_ENTRIES == pages - 1;
  }

  /** Decoding then encoding is the identity on every word, so no two words name the same run. */
  lemma EntryCanonical(e: Word)
    ensures BuildEntry(Addr(e), Count(e)) == e
  {
    assert Addr(e) / PAGE_SIZE == Page(e) < PAGE_LIMIT;
  }

  /** Rounding up is exact below the last page of the address space and wraps to zero inside it. */
  lemma RoundUpMeaning(x: Word)
    ensures RoundUp(x) % PAGE_SIZE == 0
    ensures x <= WORD_LIMIT - PAGE_SIZE ==> x <= RoundUp(x) < x + PAGE_SIZE
    ensures x > WORD_LIMIT - PAGE_SIZE ==> RoundUp(x) == 0
  {
    if x > WORD_LIMIT - PAGE_SIZE {
      assert (x - 1) / PAGE_SIZE == WORD_LIMIT / PAGE_SIZE - 1;
    }
  }

  // ----- The XOR swap -----

  /** Bitwise exclusive or, bit by bit. */
  function Xor(a: nat, b: nat): nat
    decreases a + b
  {
    if a == 0 && b == 0 then 0 else (a + b) % 2 + 2 * Xor(a / 2, b / 2)
  }

  lemma {:induction false} XorBit(a: nat, b: nat)
    ensures Xor(a, b) % 2 == (a + b) % 2
    ensures Xor(a, b) / 2 == Xor(a / 2, b / 2)
  {
    if a != 0 || b != 0 {
      var h := Xor(a / 2, b / 2);
      assert Xor(a, b) == (a + b) % 2 + 2 * h;
    }
  }

  /** Why the three in-place XOR assignments exchange two slots. */
  lemma {:induction false} XorCancels(a: nat, b: nat)
    ensures Xor(b, Xor(a, b)) == a
    decreases a + b
  {
    if a != 0 || b != 0 {
      XorCancels(a / 2, b / 2);
      var x := Xor(a, b);
      XorBit(a, b);
      XorBit(b, x);
      SameHalves(a, Xor(b, x), b, x);
    }
  }

  lemma SameHalves(a: nat, y: nat, b: nat, x: nat)
    requires y / 2 == a / 2 && y % 2 == (b + x) % 2 && x % 2 == (a + b) % 2
    ensures y == a
  {
  }

  lemma {:induction false} XorSymmetric(a: nat, b: nat)
    ensures Xor(a, b) == Xor(b, a)
    decreases a + b
  {
    if a != 0 || b != 0 {
      XorSymmetric(a / 2, b / 2);
    }
  }

  lemma {:induction false} XorBounded(a: nat, b: nat, bits: nat, limit: nat)
    requires limit == Pow2(bits)
    requires a < limit && b < limit
    ensures Xor(a, b) < limit
    decreases bits
  {
    if bits != 0 {
      XorBounded(a / 2, b / 2, bits - 1, Pow2(bits - 1));
    }
  }

  function Pow2(n: nat): nat { if n == 0 then 1 else 2 * Pow2(n - 1) }

  lemma WordXor(a: Word, b: Word)
    ensures Xor(a, b) < WORD_LIMIT
  {
    assert Pow2(8) == 0x100;
    assert Pow2(16) == 0x1_0000;
    assert Pow2(24) == 0x100_0000;
    assert Pow2(32) == 0x1_0000_0000;
    assert Pow2(40) == 0x100_0000_0000;
    assert Pow2(48) == 0x1_0000_0000_0000;
    assert Pow2(56) == 0x100_0000_0000_0000;
    XorBounded(a, b, 64, WORD_LIMIT);
  }
}
