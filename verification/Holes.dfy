/** Which addresses of its range a mapping call skips: where the carry between two tables is not exact, the
    call resumes behind the start of the next slot. */
module Holes {
  import opened Paging
  import opened PageTables

  /** The address is in a later slot of level `j` than the start of the range, and nearer to that slot's
      beginning than the start is to the beginning of the slot one level down that holds it. */
  predicate SkippedAt(a: nat, va: nat, j: nat)
    requires j <= 2
  {
    Block(va, j + 1) > Block(a, j + 1) && va % Span(j + 1) < a % Span(j + 2)
  }

  /** A mapping that starts at `a` skips the address. */
  ghost predicate Hole(a: nat, va: nat) {
    exists j :: 0 <= j <= 2 && SkippedAt(a, va, j)
  }

  /** The range that starts at `a` ends inside a hole, so the carry over it exceeds what is left of the size,
      and the size wraps. */
  ghost predicate Under(a: nat, goal: nat) {
    exists j :: 0 <= j <= 2 && SkippedAt(a, goal, j) && goal % Span(j + 1) > 0
  }

  /** What a mapping from `a` to `end` maps. */
  ghost function Region(a: nat, end: nat): iset<nat> {
    iset va: nat | a <= va < end && !Hole(a, va)
  }

  // ----- Block arithmetic -----

  lemma ModShrinks(x: nat, k: nat)
    requires k <= 3
    ensures x % Span(k + 1) <= x % Span(k) && x % Span(k) < Span(k)
    ensures Span(k + 1) <= Span(k)
  {
    BlockBounds(x, k);
    BlockBounds(x, k + 1);
    BlockNest(x, k);
    hide Block;
    if k == 0 {} else if k == 1 {} else if k == 2 {} else {}
  }

  /** The distance of two addresses of one block is that of their offsets. */
  lemma SameBlockOffsets(x: nat, y: nat, k: nat)
    requires k <= 4 && Block(x, k) == Block(y, k)
    ensures x - y == x % Span(k) - y % Span(k)
  {
    BlockBounds(x, k);
    BlockBounds(y, k);
  }

  lemma {:induction false} BlocksGrow(x: nat, y: nat, k: nat, j: nat)
    requires k <= j <= 4 && Block(x, k) < Block(y, k)
    ensures Block(x, j) < Block(y, j)
    decreases j - k
  {
    hide Block;
    if k < j {
      BlockNest(x, k);
      BlockNest(y, k);
      BlocksGrow(x, y, k + 1, j);
    }
  }

  lemma BlockMonotone(x: nat, y: nat, k: nat)
    requires k <= 4 && x <= y
    ensures Block(x, k) <= Block(y, k)
  {
    BlockBounds(x, k);
    BlockBounds(y, k);
    if k == 0 {} else if k == 1 {} else if k == 2 {} else if k == 3 {} else {}
  }

  /** Only a block's first address is in another block than the address before. */
  lemma BlockEdge(x: nat, k: nat)
    requires k <= 4 && x > 0 && Block(x, k) != Block(x - 1, k)
    ensures x % Span(k) == 0
  {
    BlockBounds(x, k);
    BlockBounds(x - 1, k);
    if x % Span(k) != 0 {
      BlockUnique(x - 1, k, Block(x, k));
    }
  }

  // ----- Holes -----

  lemma NoHoleAtStart(a: nat)
    ensures !Hole(a, a) && !Under(a, a)
  {
    hide Block;
  }

  /** Inside the table of its pages a call skips nothing. */
  lemma NoHoleInTable(a: nat, va: nat, leaf: nat)
    requires 1 <= leaf <= 3 && a % Span(leaf + 1) == 0 && Block(va, leaf) == Block(a, leaf)
    ensures !Hole(a, va)
  {
    hide Block, Span;
    forall j | 0 <= j <= 2 ensures !SkippedAt(a, va, j) {
      if j + 1 <= leaf {
        SameBlockAbove(va, a, leaf, j + 1);
      } else {
        AlignedUp(a, leaf + 1, j + 2);
      }
    }
  }

  /** A range that ends where a table ends, or before, does not end in a hole of levels above. */
  lemma TableEndNotUnder(a: nat, goal: nat, lv: nat)
    requires lv <= 3 && goal == (Block(a, lv) + 1) * Span(lv)
    ensures !Under(a, goal) && goal > a
  {
    hide Block, Span;
    BlockBounds(a, lv);
    SlotOfBlock(0, 3, 0);
    EndOfBlock(a, lv, goal);
    forall j | 0 <= j <= 2 && SkippedAt(a, goal, j) ensures goal % Span(j + 1) == 0 {
      if j + 1 <= lv {
        SameBlockAbove(goal - 1, a, lv, j + 1);
        BlockEdge(goal, j + 1);
      } else {
        BlockStartAligned(Block(a, lv) + 1, lv, j + 1);
      }
    }
  }

  lemma EndOfBlock(a: nat, lv: nat, goal: nat)
    requires lv <= 4 && goal == (Block(a, lv) + 1) * Span(lv)
    ensures a < goal && Block(goal - 1, lv) == Block(a, lv) && Block(goal, lv) == Block(a, lv) + 1
  {
    BlockBounds(a, lv);
    if lv == 0 {} else if lv == 1 {} else if lv == 2 {} else if lv == 3 {} else {}
  }

  // ----- Resuming in a later slot -----

  /** Where a call that starts at `a` works in slot `n` of level `lv`: at `a` itself in its first slot, and
      later as far behind the slot's beginning as `a` is behind that of its slot one level down. */
  predicate AtSlot(a: nat, lv: nat, n: nat, b: nat)
    requires lv <= 2
  {
    if n == Block(a, lv + 1) then b == a
    else n > Block(a, lv + 1) && b == n * Span(lv + 1) + a % Span(lv + 2) && n / 512 == Block(a, lv)
  }

  lemma AtSlotFacts(a: nat, lv: nat, n: nat, b: nat)
    requires lv <= 2 && AtSlot(a, lv, n, b)
    ensures Block(b, lv + 1) == n && b >= a && Block(b, lv) == Block(a, lv)
    ensures b % Span(lv + 2) == a % Span(lv + 2) && n * Span(lv + 1) <= b
    ensures b < n * Span(lv + 1) + Span(lv + 1)
  {
    BlockNest(a, lv);
    if n == Block(a, lv + 1) {
      BlockBounds(a, lv + 1);
    } else {
      ModShrinks(a, lv + 1);
      BlockBounds(a, lv + 1);
      BlockUnique(b, lv + 1, n);
      BlockNest(b, lv);
      ResumeOffset(a, lv, n, b, lv + 2);
      LaterBlocksLater(a, lv + 1, n);
    }
  }

  lemma LaterBlocksLater(a: nat, k: nat, n: nat)
    requires k <= 4 && n > Block(a, k)
    ensures n * Span(k) > a
  {
    BlockBounds(a, k);
    if k == 0 {} else if k == 1 {} else if k == 2 {} else if k == 3 {} else {}
  }

  lemma ResumeOffset(a: nat, lv: nat, n: nat, b: nat, k: nat)
    requires lv + 2 <= k <= 4 && b == n * Span(lv + 1) + a % Span(lv + 2)
    ensures b % Span(k) == a % Span(k)
  {
    BlockStartAligned(n, lv + 1, k);
    AddWhole(n * Span(lv + 1), a % Span(lv + 2), k);
    OffsetOfOffset(a, lv + 2, k);
  }

  /** From where the call resumes on, the slot's holes are those of a call that starts there. */
  lemma SkippedShift(a: nat, lv: nat, n: nat, b: nat, va: nat, j: nat)
    requires lv <= 2 && AtSlot(a, lv, n, b) && Block(va, lv + 1) == n && va >= b && j <= 2
    ensures SkippedAt(a, va, j) <==> SkippedAt(b, va, j)
  {
    hide Block, Span;
    if n != Block(a, lv + 1) {
      AtSlotFacts(a, lv, n, b);
      if j < lv {
        SameBlockAbove(va, b, lv + 1, j + 1);
        SameBlockAbove(a, b, lv, j + 1);
      } else if j == lv {
        ResumedBehind(b, va, lv + 1, n);
        ModOfResumed(a, lv, n, b);
      } else {
        ResumeOffset(a, lv, n, b, j + 2);
        BlocksGrow(a, b, lv + 1, j + 1);
        BlockMonotone(b, va, j + 1);
        if Block(va, j + 1) == Block(b, j + 1) {
          SameBlockOffsets(va, b, j + 1);
          ModShrinks(b, j + 1);
        }
      }
    }
  }

  lemma ResumedBehind(b: nat, va: nat, k: nat, n: nat)
    requires k <= 4 && Block(b, k) == n == Block(va, k) && va >= b
    ensures va % Span(k) >= b % Span(k)
  {
    SameBlockOffsets(va, b, k);
  }

  lemma ModOfResumed(a: nat, lv: nat, n: nat, b: nat)
    requires lv <= 2 && AtSlot(a, lv, n, b) && n != Block(a, lv + 1)
    ensures b % Span(lv + 1) == a % Span(lv + 2)
  {
    AtSlotFacts(a, lv, n, b);
    BlockBounds(b, lv + 1);
  }

  lemma HoleShift(a: nat, lv: nat, n: nat, b: nat, va: nat)
    requires lv <= 2 && AtSlot(a, lv, n, b) && Block(va, lv + 1) == n && va >= b
    ensures Hole(a, va) <==> Hole(b, va)
    ensures Under(a, va) <==> Under(b, va)
  {
    hide SkippedAt, AtSlot;
    forall j | 0 <= j <= 2 ensures SkippedAt(a, va, j) <==> SkippedAt(b, va, j) {
      SkippedShift(a, lv, n, b, va, j);
    }
  }

  /** A call that resumes at `b` and ends in that slot ends in a hole of its own or of the whole call. */
  lemma UnderShift(a: nat, lv: nat, n: nat, b: nat, goal: nat)
    requires lv <= 2 && AtSlot(a, lv, n, b) && b <= goal <= n * Span(lv + 1) + Span(lv + 1)
    ensures Under(a, goal) <==> Under(b, goal)
  {
    hide Hole, Under, Span, AtSlot, Block;
    AtSlotFacts(a, lv, n, b);
    SlotOfBlock(0, lv, n);
    SlotAfter(a, lv, n, b);
    if goal < n * Span(lv + 1) + Span(lv + 1) {
      BlockUnique(goal, lv + 1, n);
      HoleShift(a, lv, n, b, goal);
    } else {
      TableEndNotUnder(b, goal, lv + 1);
      SlotEndNotUnder(a, lv, n, goal);
    }
  }

  lemma SlotAfter(a: nat, lv: nat, n: nat, b: nat)
    requires lv <= 2 && AtSlot(a, lv, n, b)
    ensures n >= Block(a, lv + 1) && n / 512 == Block(a, lv)
  {
    BlockNest(a, lv);
  }

  lemma SlotEndNotUnder(a: nat, lv: nat, n: nat, goal: nat)
    requires lv <= 2 && n >= Block(a, lv + 1) && n / 512 == Block(a, lv) && goal == (n + 1) * Span(lv + 1)
    ensures !Under(a, goal)
  {
    hide Block, Span;
    forall j | 0 <= j <= 2 && SkippedAt(a, goal, j) ensures goal % Span(j + 1) == 0 {
      if j >= lv {
        BlockStartAligned(n + 1, lv + 1, j + 1);
      } else {
        SlotBefore(lv, n, goal);
        SameBlockAbove(goal - 1, a, lv, j + 1);
        BlockEdge(goal, j + 1);
      }
    }
  }

  lemma SlotBefore(lv: nat, n: nat, goal: nat)
    requires lv <= 3 && goal == (n + 1) * Span(lv + 1)
    ensures goal > 0 && Block(goal - 1, lv + 1) == n && Block(goal - 1, lv) == n / 512
  {
    SlotOfBlock(0, lv, n);
    var start := n * Span(lv + 1);
    BlockUnique(start, lv + 1, n);
    EndOfBlock(start, lv + 1, goal);
    BlockNest(goal - 1, lv);
  }

  /** The next slot: the addresses before the call resumes are holes. */
  lemma NextSlotSkips(a: nat, lv: nat, n: nat, b: nat, va: nat)
    requires lv <= 2 && AtSlot(a, lv, n, b) && n != Block(a, lv + 1) && n * Span(lv + 1) <= va < b
    ensures Hole(a, va)
    ensures va > n * Span(lv + 1) ==> Under(a, va)
  {
    AtSlotFacts(a, lv, n, b);
    BlockUnique(va, lv + 1, n);
    BlockBounds(va, lv + 1);
    assert SkippedAt(a, va, lv);
  }

  /** The carry moves the address from slot `n` to where the call resumes in slot `n + 1`; `r` is the part of
      the address below the page size. */
  lemma CarryToNext(a: nat, lv: nat, n: nat, b: nat, r: nat, leaf: nat)
    requires lv < leaf <= 3 && AtSlot(a, lv, n, b) && a % Span(leaf + 1) == 0 && r < Span(leaf + 1)
    ensures b + r + Carry(b + r, lv) == (n + 1) * Span(lv + 1) + a % Span(lv + 2) + r
    ensures Carry(b + r, lv) % Span(lv + 2) == 0
    ensures Base(b + r, leaf) == b && b % Span(leaf + 1) == 0
    ensures forall k :: 0 <= k <= leaf + 1 ==> Block(b + r, k) == Block(b, k)
  {
    hide Block, Carry, Base;
    AtSlotFacts(a, lv, n, b);
    if n != Block(a, lv + 1) {
      ResumeOffset(a, lv, n, b, leaf + 1);
    }
    BaseShift(b, r, leaf);
    CarryIsExactIffAligned(b + r, lv);
    CarryIsWhole(b + r, lv);
    OffsetsAdd(b, r, lv, leaf);
  }

  lemma CarryIsWhole(virt: nat, lv: nat)
    requires lv <= 2
    ensures Carry(virt, lv) % Span(lv + 2) == 0
  {
    BlockStartAligned(512 - Index(virt, lv + 1), lv + 2, lv + 2);
  }

  lemma OffsetsAdd(b: nat, r: nat, lv: nat, leaf: nat)
    requires lv < leaf <= 3 && b % Span(leaf + 1) == 0 && r < Span(leaf + 1)
    ensures (b + r) % Span(lv + 2) == b % Span(lv + 2) + r
  {
    BaseShift(b, r, leaf);
    SameBlockOffsets(b + r, b, lv + 2);
  }

  // ----- Regions -----

  lemma RegionSplits(a: nat, lv: nat, n: nat, b: nat, d: nat)
    requires lv <= 2 && AtSlot(a, lv, n, b) && b + d <= n * Span(lv + 1) + Span(lv + 1)
    ensures Region(a, b + d) == Region(a, b) + Region(b, b + d)
  {
    hide Hole, Span;
    AtSlotFacts(a, lv, n, b);
    forall va: nat | b <= va < b + d ensures Hole(a, va) <==> Hole(b, va) {
      BlockUnique(va, lv + 1, n);
      HoleShift(a, lv, n, b, va);
    }
  }

  /** Up to where the call resumes nothing is added. */
  lemma RegionUpToNext(a: nat, lv: nat, n: nat, b: nat)
    requires lv <= 2 && AtSlot(a, lv, n, b) && n != Block(a, lv + 1)
    ensures Region(a, b) == Region(a, n * Span(lv + 1))
  {
    hide Hole, Span;
    AtSlotFacts(a, lv, n, b);
    forall va: nat | n * Span(lv + 1) <= va < b ensures Hole(a, va) {
      NextSlotSkips(a, lv, n, b, va);
    }
  }

  lemma RegionEmpty(a: nat)
    ensures Region(a, a) == iset{}
  {
  }

  // ----- When there are no holes -----

  /** The range has no holes, and does not end in one, if and only if its carries are exact. */
  lemma NoHolesIffCarryOk(a: nat, size: nat)
    ensures CarryOk(a, size) <==> forall va: nat :: a <= va < a + size ==> !Hole(a, va)
    ensures CarryOk(a, size) ==> !Under(a, a + size)
  {
    hide Block, Span;
    if CarryOk(a, size) {
      forall va: nat | a <= va < a + size ensures !Hole(a, va) {
        CarryOkSkipsNothing(a, size, va);
      }
      CarryOkEndsWell(a, size);
    } else {
      var j :| 0 <= j <= 2 && Crosses(a, size, j + 1) && a % Span(j + 2) != 0;
      var va := FirstSkipped(a, size, j);
      assert Hole(a, va);
    }
  }

  lemma CarryOkSkipsNothing(a: nat, size: nat, va: nat)
    requires CarryOk(a, size) && a <= va < a + size
    ensures !Hole(a, va)
  {
    hide Block, Span;
    forall j | 0 <= j <= 2 ensures !SkippedAt(a, va, j) {
      if Block(va, j + 1) > Block(a, j + 1) {
        BlockMonotone(va, a + size - 1, j + 1);
        assert Crosses(a, size, j + 1);
      }
    }
  }

  lemma CarryOkEndsWell(a: nat, size: nat)
    requires CarryOk(a, size)
    ensures !Under(a, a + size)
  {
    hide Block, Span;
    var goal := a + size;
    forall j | 0 <= j <= 2 && SkippedAt(a, goal, j) ensures goal % Span(j + 1) == 0 {
      assert !Crosses(a, size, j + 1);
      if size > 0 {
        BlockEdge(goal, j + 1);
      }
    }
  }

  /** The first address of the next slot, where a misaligned carry steps over it. */
  lemma FirstSkipped(a: nat, size: nat, j: nat) returns (va: nat)
    requires j <= 2 && Crosses(a, size, j + 1) && a % Span(j + 2) != 0
    ensures va == (Block(a, j + 1) + 1) * Span(j + 1) && a <= va < a + size && SkippedAt(a, va, j)
  {
    va := (Block(a, j + 1) + 1) * Span(j + 1);
    EndOfBlock(a, j + 1, va);
    BlockStartAligned(Block(a, j + 1) + 1, j + 1, j + 1);
    if a + size <= va {
      BlockMonotone(a, a + size - 1, j + 1);
      BlockMonotone(a + size - 1, va - 1, j + 1);
    }
  }
}
