/** The array-backed ring queue, used by one thread at a time. */
module RingQueue {
  import opened PageEntry
  import opened Ring
  import opened RingSort

  /** Stepping the head forward moves the first entry of the rotated view to its end. */
  lemma RotateForward(s: seq<Word>, o: nat)
    requires o < |s|
    ensures Rotate(s, Wrap(o + 1, |s|)) == Rotate(s, o)[1..] + Rotate(s, o)[..1]
  {
  }

  lemma RotateBackward(s: seq<Word>, o: nat)
    requires o < |s|
    ensures var v := Rotate(s, o);
      Rotate(s, if o > 0 then o - 1 else |s| - 1) == v[|s| - 1..] + v[..|s| - 1]
  {
  }

  /** The number of slots from `head` round to `tail`. */
  function Occupied(head: nat, tail: nat, size: nat): nat
    requires head < size && tail < size
  {
    if head <= tail then tail - head else tail + size - head
  }

  /** The ring held in slots `s` between `head` and `tail`. */
  ghost function RingOf(s: seq<Word>, head: nat, tail: nat, cnt: int): (r: Ring)
    requires head < |s| && tail < |s|
    ensures r.Size() == |s| && r.Slots() == Rotate(s, head) && r.cnt == cnt
    ensures |r.live| == Occupied(head, tail, |s|)
    ensures r.live == [] <==> head == tail
    ensures r.Full() <==> head == Wrap(tail + 1, |s|)
  {
    var v := Rotate(s, head);
    var n := Occupied(head, tail, |s|);
    assert v == v[..n] + v[n..];
    Ring(v[..n], v[n..], cnt)
  }

  lemma RingEnqueued(s: seq<Word>, head: nat, tail: nat, cnt: int, val: Word)
    requires head < |s| && tail < |s| && head != Wrap(tail + 1, |s|)
    ensures RingOf(s[tail := val], head, Wrap(tail + 1, |s|), cnt + 1) == Enqueue(RingOf(s, head, tail, cnt), val)
  {
    var v := Rotate(s, head);
    var n := Occupied(head, tail, |s|);
    RotateUpdate(s, head, head + n, val);
    assert Rotate(s[tail := val], head) == v[n := val];
    assert v[n := val][..n + 1] == v[..n] + [val];
    assert v[n := val][n + 1..] == v[n..][1..];
  }

  lemma RingEnqueuedFront(s: seq<Word>, head: nat, tail: nat, cnt: int, val: Word)
    requires head < |s| && tail < |s| && head != Wrap(tail + 1, |s|)
    ensures var head' := if head > 0 then head - 1 else |s| - 1;
      RingOf(s[head' := val], head', tail, cnt + 1) == EnqueueFront(RingOf(s, head, tail, cnt), val)
  {
    var v := Rotate(s, head);
    var n := Occupied(head, tail, |s|);
    var head' := if head > 0 then head - 1 else |s| - 1;
    RotateBackward(s, head);
    RotateUpdate(s, head', head', val);
    var u := Rotate(s[head' := val], head');
    assert u == [val] + v[..|s| - 1];
    assert u[..n + 1] == [val] + v[..n];
    assert u[n + 1..] == v[n..][..|s| - n - 1];
  }

  lemma RingDequeued(s: seq<Word>, head: nat, tail: nat, cnt: int)
    requires head < |s| && tail < |s| && head != tail
    ensures RingOf(s, head, tail, cnt).live[0] == s[head]
    ensures RingOf(s[head := 0], Wrap(head + 1, |s|), tail, cnt - 1) == Dequeue(RingOf(s, head, tail, cnt))
  {
    var v := Rotate(s, head);
    var n := Occupied(head, tail, |s|);
    var t := s[head := 0];
    RotateUpdate(s, head, head, 0);
    RotateForward(t, head);
    var u := Rotate(t, Wrap(head + 1, |s|));
    assert u == v[1..] + [0];
    assert u[..n - 1] == v[..n][1..];
    assert u[n - 1..] == v[n..] + [0];
  }

  class Queue {
    var queue: array<Word>
    var size: int
    var entCnt: int
    var head: nat
    var tail: nat

    ghost predicate Valid()
      reads this
    {
      0 < size == queue.Length && head < size && tail < size
    }

    /** The ring read from its head. */
    ghost function Value(): Ring
      requires Valid()
      reads this, queue
    {
      RingOf(queue[..], head, tail, entCnt)
    }

    /** A queue object in zeroed storage, before queue_init. */
    constructor ()
      ensures !Valid() && fresh(queue)
    {
      queue := new Word[0];
      size, entCnt, head, tail := 0, 0, 0, 0;
    }

    /** queue_init: reserves zeroed slots, or fails if malloc has no memory for them; then the queue has no
        slots any more, and its other fields are as before. A size of 0 is not refused. */
    method Init(sz: int, memory: bool) returns (status: int)
      requires memory ==> sz >= 0
      modifies this
      ensures status == (if memory then 0 else -1) && fresh(queue) && queue.Length == if memory then sz else 0
      ensures if memory then size == sz && entCnt == head == tail == 0
              else size == old(size) && entCnt == old(entCnt) && head == old(head) && tail == old(tail)
      ensures Valid() <==> memory && sz > 0
      ensures memory && sz > 0 ==> Value() == Ring([], seq(sz, _ => 0), 0)
    {
      if !memory {
        queue := new Word[0];
        return -1;
      }
      queue := new Word[sz](_ => 0);
      size, entCnt, head, tail := sz, 0, 0, 0;
      assert Rotate(queue[..], 0) == seq(sz, _ => 0);
      return 0;
    }

    method TryEnqueue(val: Word) returns (ok: bool)
      requires Valid()
      modifies this, queue
      ensures Valid() && queue == old(queue) && size == old(size)
      ensures ok <==> !old(Value()).Full()
      ensures Value() == if ok then Enqueue(old(Value()), val) else old(Value())
    {
      hide RingOf;
      var curTail := tail;
      if head == Wrap(curTail + 1, size) {
        return false;
      }
      RingEnqueued(queue[..], head, tail, entCnt, val);
      queue[curTail] := val;
      tail := Wrap(curTail + 1, size);
      entCnt := entCnt + 1;
      return true;
    }

    method TryEnqueueFront(val: Word) returns (ok: bool)
      requires Valid()
      modifies this, queue
      ensures Valid() && queue == old(queue) && size == old(size)
      ensures ok <==> !old(Value()).Full()
      ensures Value() == if ok then EnqueueFront(old(Value()), val) else old(Value())
    {
      hide RingOf;
      var curTail := tail;
      var curHead := head;
      if curHead == Wrap(curTail + 1, size) {
        return false;
      }
      RingEnqueuedFront(queue[..], head, tail, entCnt, val);
      if curHead > 0 {
        head := Wrap(curHead - 1, size);
      } else {
        head := size - 1;
      }
      queue[head] := val;
      entCnt := entCnt + 1;
      return true;
    }

    /** Takes the entry at the head and clears its slot. */
    method TryDequeue() returns (ok: bool, val: Word)
      requires Valid()
      modifies this, queue
      ensures Valid() && queue == old(queue) && size == old(size)
      ensures ok <==> old(Value()).live != []
      ensures ok ==> val == old(Value()).live[0]
      ensures Value() == if ok then Dequeue(old(Value())) else old(Value())
    {
      hide RingOf;
      var curHead := head;
      if curHead == tail {
        return false, 0;
      }
      RingDequeued(queue[..], head, tail, entCnt);
      val := queue[curHead];
      queue[curHead] := 0;
      head := Wrap(curHead + 1, size);
      entCnt := entCnt - 1;
      return true, val;
    }

    /** The counter that an allocation uses to bound its scan. */
    method EntCnt() returns (n: int)
      requires Valid()
      ensures n == Value().cnt
    {
      return entCnt;
    }
  }
}
