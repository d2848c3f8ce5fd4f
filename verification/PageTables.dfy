/** The arithmetic of page sizes, blocks and carries. */
module PageTables {
  import PageEntry
  import opened Paging

  const WORD := PageEntry.WORD_LIMIT
  const PHYS_LIMIT := 0x10_0000_0000_0000

  /** Results of vmem_map_st and vmem_unmap_st: 0 and the three error codes; Panicked ends the run. */
  datatype Status = Done | AlreadyMapped | Continue | NoMapping | Panicked

  // ----- Which page size a call uses -----

  /** The level whose pages a call at level `lv` maps: the first that is available and divides the size. */
  function LeafFrom(size: nat, huge: bool, lv: nat): (leaf: nat)
    requires lv <= 3
    ensures lv <= leaf <= 3
    decreases 3 - lv
  {
    if lv == 3 || (size % Span(lv + 1) == 0 && LargeAvail(lv, huge)) then lv else LeafFrom(size, huge, lv + 1)
  }

  /** The size of page, in bytes, that a call for `size` bytes maps with: the largest of 1GiB, where the processor has
      such pages, 2MiB and 4KiB that divides the size. */
  function PageBytes(size: nat, huge: bool): nat {
    if huge && size % 0x4000_0000 == 0 then 0x4000_0000
    else if size % 0x20_0000 == 0 then 0x20_0000
    else 0x1000
  }

  lemma PageSizeChosen(size: nat, huge: bool)
    ensures LeafFrom(size, huge, 0)
         == if huge && size % 0x4000_0000 == 0 then 1 else if size % 0x20_0000 == 0 then 2 else 3
    ensures Span(LeafFrom(size, huge, 0) + 1) == PageBytes(size, huge)
  {
    GigabyteIsMegabytes(size);
    assert LeafFrom(size, huge, 2) == if size % 0x20_0000 == 0 then 2 else 3;
    assert LeafFrom(size, huge, 1) == if huge && size % 0x4000_0000 == 0 then 1 else LeafFrom(size, huge, 2);
  }

  lemma GigabyteIsMegabytes(size: nat)
    ensures size % 0x4000_0000 == 0 ==> size % 0x20_0000 == 0
  {
    if size % 0x4000_0000 == 0 {
      assert Span(2) == 0x4000_0000 && Span(3) == 0x20_0000;
      AlignedUp(size, 2, 3);
    }
  }

  /** The address rounded down to the page size of the call. */
  function Base(virt: nat, leaf: nat): (b: nat)
    requires leaf <= 3
    ensures b <= virt
  {
    virt - virt % Span(leaf + 1)
  }

  /** The range does not stay within one Span(k)-sized block. */
  predicate Crosses(base: nat, size: nat, k: nat)
    requires k <= 4
  {
    size > 0 && Block(base, k) != Block(base + size - 1, k)
  }

  /** Wherever the range runs on from one table of level j+1 into the next, the start is aligned to what a
      slot of such a table covers: a 1GiB crossing asks for 2MiB, a 512GiB crossing for 1GiB. */
  ghost predicate CarryOk(base: nat, size: nat) {
    forall j {:trigger Crosses(base, size, j + 1)} :: 0 <= j <= 2 && Crosses(base, size, j + 1) ==>
      base % Span(j + 2) == 0
  }

  /** What vmem_map_st adds after a level below has run off the end of its table. */
  function Carry(virt: nat, lv: nat): nat
    requires lv <= 2
  {
    (512 - Index(virt, lv + 1)) * Span(lv + 2)
  }

  lemma CarryIs(virt: nat, lv: nat)
    requires lv <= 2
    ensures Carry(virt, lv) == (512 - Index(virt, lv + 1)) * Span(lv + 2) && Index(virt, lv) < 512
  {
  }

  /** The carry is the rest of the block if and only if the address is a multiple of what a slot one level
      down covers; otherwise it skips that remainder beyond the block. */
  lemma CarryIsExactIffAligned(virt: nat, lv: nat)
    requires lv <= 2
    ensures virt + Carry(virt, lv) == (Block(virt, lv + 1) + 1) * Span(lv + 1) + virt % Span(lv + 2)
    ensures virt + Carry(virt, lv) == (Block(virt, lv + 1) + 1) * Span(lv + 1) <==> virt % Span(lv + 2) == 0
  {
    BlockNest(virt, lv + 1);
    BlockBounds(virt, lv + 2);
    if lv == 0 {} else if lv == 1 {} else {}
  }

  // ----- Arithmetic of positions -----

  lemma SlotOfBlock(n: nat, lv: nat, m: nat)
    requires lv <= 3
    ensures (m + 1) * Span(lv + 1) == m * Span(lv + 1) + Span(lv + 1)
    ensures (n * 512 + 512) * Span(lv + 1) == (n + 1) * Span(lv)
  {
    if lv == 0 {} else if lv == 1 {} else if lv == 2 {} else {}
  }

  lemma {:induction false} SameBlockAbove(a: nat, b: nat, k: nat, j: nat)
    requires j <= k <= 4 && Block(a, k) == Block(b, k)
    ensures Block(a, j) == Block(b, j)
    decreases k
  {
    hide Block;
    if j < k {
      BlockNest(a, k - 1);
      BlockNest(b, k - 1);
      SameBlockAbove(a, b, k - 1, j);
    }
  }

  lemma BaseFacts(virt: nat, leaf: nat, k: nat)
    requires k <= leaf + 1 <= 4
    ensures Base(virt, leaf) == Block(virt, leaf + 1) * Span(leaf + 1)
    ensures Block(Base(virt, leaf), k) == Block(virt, k)
    ensures Base(virt, leaf) % Span(leaf + 1) == 0
  {
    BlockBounds(virt, leaf + 1);
    BlockUnique(Base(virt, leaf), leaf + 1, Block(virt, leaf + 1));
    BlockBounds(Base(virt, leaf), leaf + 1);
    SameBlockAbove(Base(virt, leaf), virt, leaf + 1, k);
  }

  lemma BaseShift(at: nat, off: nat, leaf: nat)
    requires leaf <= 3 && at % Span(leaf + 1) == 0 && off < Span(leaf + 1)
    ensures Base(at + off, leaf) == at
    ensures forall k :: 0 <= k <= leaf + 1 ==> Block(at + off, k) == Block(at, k)
  {
    hide Block, Span;
    BlockBounds(at, leaf + 1);
    BlockBounds(at + off, leaf + 1);
    BlockUnique(at + off, leaf + 1, Block(at, leaf + 1));
    forall k | 0 <= k <= leaf + 1 ensures Block(at + off, k) == Block(at, k) {
      SameBlockAbove(at + off, at, leaf + 1, k);
    }
  }

  lemma {:induction false} BlockStartAligned(n: nat, k: nat, j: nat)
    requires k <= j <= 4
    ensures n * Span(k) % Span(j) == 0
    decreases j - k
  {
    if k == j {
      BlockUnique(n * Span(k), k, n);
      BlockBounds(n * Span(k), k);
    } else {
      BlockStartAligned(n * 512, k + 1, j);
      SpanSplits(n, k);
    }
  }

  lemma SpanSplits(n: nat, k: nat)
    requires k <= 3
    ensures n * Span(k) == n * 512 * Span(k + 1)
  {
    if k == 0 {} else if k == 1 {} else if k == 2 {} else {}
  }

  lemma AlignedUp(a: nat, k: nat, j: nat)
    requires k <= j <= 4 && a % Span(k) == 0
    ensures a % Span(j) == 0
  {
    BlockBounds(a, k);
    BlockStartAligned(Block(a, k), k, j);
  }

  /** Sizes that leave the same remainders are mapped with the same page size. */
  lemma {:induction false} LeafSame(size: nat, left: nat, huge: bool, lv: nat)
    requires lv <= 3 && forall k :: lv + 1 <= k <= 4 ==> left % Span(k) == size % Span(k)
    ensures LeafFrom(left, huge, lv) == LeafFrom(size, huge, lv)
    decreases 3 - lv
  {
    if lv < 3 {
      LeafSame(size, left, huge, lv + 1);
    }
  }

  /** A carry, and a wrap of the 64-bit size, take whole slots of the level below off the size, so the call
      and all its recursive calls use the same page size. */
  lemma LeafKept(size: nat, carry: nat, left: nat, huge: bool, lv: nat)
    requires lv <= 2 && carry % Span(lv + 2) == 0 && (left == size - carry || left == size - carry + WORD)
    ensures LeafFrom(left, huge, lv + 1) == LeafFrom(size, huge, lv + 1)
    ensures forall k :: lv + 2 <= k <= 4 ==> left % Span(k) == size % Span(k)
  {
    forall k | lv + 2 <= k <= 4 ensures left % Span(k) == size % Span(k) {
      AlignedUp(carry, lv + 2, k);
      CarriedRemainder(size, carry, left, k);
    }
    LeafSame(size, left, huge, lv + 1);
  }

  lemma CarriedRemainder(size: nat, carry: nat, left: nat, k: nat)
    requires k <= 4 && carry % Span(k) == 0 && (left == size - carry || left == size - carry + WORD)
    ensures left % Span(k) == size % Span(k)
  {
    BlockBounds(size, k);
    BlockBounds(carry, k);
    hide Block;
    var n := Block(size, k) - Block(carry, k) + if left == size - carry then 0 else WORD / Span(k);
    assert n * Span(k) + size % Span(k) == left by {
      if k == 0 {} else if k == 1 {} else if k == 2 {} else if k == 3 {} else {}
    }
    RemainderUnique(left, k, n, size % Span(k));
  }

  lemma RemainderUnique(x: nat, k: nat, n: int, r: nat)
    requires k <= 4 && x == n * Span(k) + r && r < Span(k)
    ensures x % Span(k) == r
  {
    assert n >= 0 by {
      if k == 0 {} else if k == 1 {} else if k == 2 {} else if k == 3 {} else {}
    }
    BlockUnique(x, k, n);
    BlockBounds(x, k);
  }

  lemma AddWhole(x: nat, y: nat, k: nat)
    requires k <= 4 && x % Span(k) == 0
    ensures (x + y) % Span(k) == y % Span(k)
  {
    BlockBounds(x, k);
    BlockBounds(y, k);
    hide Block;
    var n := Block(x, k) + Block(y, k);
    assert n * Span(k) + y % Span(k) == x + y by {
      if k == 0 {} else if k == 1 {} else if k == 2 {} else if k == 3 {} else {}
    }
    RemainderUnique(x + y, k, n, y % Span(k));
  }

  /** The offset in a block, taken in a smaller block. */
  lemma OffsetOfOffset(x: nat, j: nat, k: nat)
    requires j <= k <= 4
    ensures x % Span(j) % Span(k) == x % Span(k)
  {
    hide Block;
    BlockBounds(x, j);
    BlockStartAligned(Block(x, j), j, k);
    AddWhole(Block(x, j) * Span(j), x % Span(j), k);
  }

  lemma RemainderKept(a: nat, less: nat, k: nat)
    requires k <= 4 && less <= a && less % Span(k) == 0
    ensures (a - less) % Span(k) == a % Span(k)
  {
    BlockBounds(a, k);
    BlockBounds(less, k);
    var q, c := Block(a, k), Block(less, k);
    DifferenceOfBlocks(q, c, k);
    BlockUnique(a - less, k, q - c);
    BlockBounds(a - less, k);
  }

  lemma DifferenceOfBlocks(q: nat, c: nat, k: nat)
    requires k <= 4
    ensures (q - c) * Span(k) == q * Span(k) - c * Span(k)
  {
    if k == 0 {} else if k == 1 {} else if k == 2 {} else if k == 3 {} else {}
  }
}
