/** The interrupt-vector allocator. */
module Vectors {

  const VECTORS := 256
  const FIRST_IRQ := 32

  /** Vectors [base, base+cnt) exist and none is blocked. */
  predicate FreeRun(blocked: seq<bool>, base: int, cnt: int) {
    0 <= base && base + cnt <= |blocked| && forall c :: base <= c < base + cnt ==> !blocked[c]
  }

  /** The table after blocking [base, base+cnt). */
  function Block(blocked: seq<bool>, base: int, cnt: int): (b: seq<bool>)
    ensures |b| == |blocked|
    ensures forall c :: 0 <= c < |b| ==> b[c] == (blocked[c] || base <= c < base + cnt)
  {
    seq(|blocked|, c requires 0 <= c < |blocked| => blocked[c] || base <= c < base + cnt)
  }

  /** The lowest free run of `cnt` vectors at or above 32 that ends below the last vector. */
  predicate IsLowestRun(blocked: seq<bool>, base: int, cnt: int) {
    && 32 <= base && base + cnt < 256 && FreeRun(blocked, base, cnt)
    && forall b :: 32 <= b < base ==> !FreeRun(blocked, b, cnt)
  }

  predicate NoRun(blocked: seq<bool>, cnt: int) {
    forall b :: 32 <= b && b + cnt < 256 ==> !FreeRun(blocked, b, cnt)
  }

  /** One call: what is asked for, the result and the base it leaves, and the table before and after. */
  ghost predicate Allocates(b: seq<bool>, cnt: int, exclusive: bool, fixed: bool, base: int,
                            ret: int, base': int, b': seq<bool>) {
    && (ret == 0 || ret == -1)
    && b' == (if ret == 0 && exclusive then Block(b, base', cnt) else b)
    && if fixed || (base != 0 && FreeRun(b, base, cnt)) then base' == base && (ret == 0 <==> FreeRun(b, base, cnt))
       else if ret == 0 then IsLowestRun(b, base', cnt) else base' == base && NoRun(b, cnt)
  }

  class VectorTable {
    const blocked: array<bool>

    constructor ()
      ensures blocked.Length == VECTORS && fresh(blocked) && forall c :: 0 <= c < VECTORS ==> !blocked[c]
    {
      blocked := new bool[VECTORS](_ => false);
    }

    /** interrupt_allocate. A fixed request, and a search that starts from a hint, must lie inside the
        table; the code indexes it unchecked. */
    method Allocate(cnt: int, exclusive: bool, fixed: bool, base: int) returns (ret: int, base': int)
      requires blocked.Length == VECTORS
      requires (fixed || base != 0) ==> 0 <= base && base + cnt <= VECTORS
      modifies blocked
      ensures Allocates(old(blocked[..]), cnt, exclusive, fixed, base, ret, base', blocked[..])
      decreases !fixed
    {
      ghost var b := blocked[..];
      base' := base;
      if fixed {
        var c := 0;
        while c < cnt
          invariant 0 <= c && (c <= cnt || c == 0) && blocked[..] == b
          invariant forall k :: base <= k < base + c ==> !b[k]
        {
          if blocked[base + c] {
            return -1, base;
          }
          c := c + 1;
        }
        if exclusive {
          BlockRun(base, cnt);
        }
        return 0, base;
      }
      if base != 0 {
        var err;
        err, base' := Allocate(cnt, exclusive, true, base);
        if err == 0 {
          return 0, base';
        }
      }
      var runOff, runLen := FIRST_IRQ, 0;
      for i := FIRST_IRQ to VECTORS
        invariant runOff + runLen == i && FIRST_IRQ <= runOff && 0 <= runLen && blocked[..] == b
        invariant forall k :: runOff <= k < i ==> !b[k]
        invariant runOff > FIRST_IRQ ==> b[runOff - 1]
        invariant cnt > 0 || i == FIRST_IRQ
        invariant cnt > 0 ==> forall s :: FIRST_IRQ <= s && s + cnt < i ==> !FreeRun(b, s, cnt)
      {
        if runLen >= cnt {
          if exclusive {
            BlockRun(runOff, cnt);
          }
          return 0, runOff;
        }
        if blocked[i] {
          runLen := 0;
          runOff := i + 1;
        } else {
          runLen := runLen + 1;
        }
      }
      return -1, base';
    }

    /** The loop that blocks the vectors of a run. */
    method BlockRun(base: int, cnt: int)
      requires blocked.Length == VECTORS && 0 <= base && base + cnt <= VECTORS
      modifies blocked
      ensures blocked[..] == Block(old(blocked[..]), base, cnt)
    {
      ghost var b := blocked[..];
      var c := 0;
      while c < cnt
        invariant 0 <= c && (c <= cnt || c == 0)
        invariant blocked[..] == Block(b, base, c)
      {
        blocked[base + c] := true;
        c := c + 1;
      }
      assert Block(b, base, c) == Block(b, base, cnt);
    }
  }

  // ----- Every run -----

  datatype Call = Call(cnt: int, exclusive: bool, fixed: bool, base: int, ret: int, base': int)

  /** The call was granted these vectors for itself. */
  predicate Grants(call: Call, v: int) { call.ret == 0 && call.exclusive && call.base' <= v < call.base' + call.cnt }

  ghost predicate IsRun(tables: seq<seq<bool>>, calls: seq<Call>) {
    && |tables| == |calls| + 1
    && forall i :: 0 <= i < |calls| ==>
         var k := calls[i];
         Allocates(tables[i], k.cnt, k.exclusive, k.fixed, k.base, k.ret, k.base', tables[i + 1])
  }

  /** Once granted, a vector stays blocked. */
  lemma {:induction false} GrantedStaysBlocked(tables: seq<seq<bool>>, calls: seq<Call>, i: nat, j: nat, v: int)
    requires IsRun(tables, calls) && i < j <= |calls| && Grants(calls[i], v)
    ensures 0 <= v < |tables[j]| && tables[j][v]
    decreases j - i
  {
    var k := calls[j - 1];
    assert Allocates(tables[j - 1], k.cnt, k.exclusive, k.fixed, k.base, k.ret, k.base', tables[j]);
    if i < j - 1 {
      GrantedStaysBlocked(tables, calls, i, j - 1, v);
    }
  }

  lemma GrantedWasFree(tables: seq<seq<bool>>, calls: seq<Call>, i: nat, v: int)
    requires IsRun(tables, calls) && i < |calls| && Grants(calls[i], v)
    ensures 0 <= v < |tables[i]| && !tables[i][v]
  {
    var k := calls[i];
    assert Allocates(tables[i], k.cnt, k.exclusive, k.fixed, k.base, k.ret, k.base', tables[i + 1]);
  }

  /** In every run, whichever path granted them, no vector is granted exclusively twice. */
  lemma ExclusiveGrantsAreDisjoint(tables: seq<seq<bool>>, calls: seq<Call>, i: nat, j: nat, v: int)
    requires IsRun(tables, calls) && i < |calls| && j < |calls| && Grants(calls[i], v) && Grants(calls[j], v)
    ensures i == j
  {
    if i < j {
      GrantedWasFree(tables, calls, j, v);
      GrantedStaysBlocked(tables, calls, i, j, v);
    } else if j < i {
      GrantedWasFree(tables, calls, i, v);
      GrantedStaysBlocked(tables, calls, j, i, v);
    }
  }
}
