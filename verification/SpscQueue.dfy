/** The ring queue shared by one thread that enqueues and one that dequeues, step by step. */
module SpscQueue {
  import opened PageEntry
  import opened RingSort
  import opened RingQueue

  /** Where the enqueueing thread is inside queue_tryenqueue: about to load tail, about to load head,
      about to store the value, about to store tail, about to count. */
  datatype Producer =
    | PIdle
    | PLoadTail(val: Word)
    | PLoadHead(val: Word, curTail: nat)
    | PStore(val: Word, curTail: nat)
    | PPublish(val: Word, curTail: nat)
    | PCount

  /** Where the dequeueing thread is inside queue_trydequeue. */
  datatype Consumer =
    | CIdle
    | CLoadHead
    | CLoadTail(curHead: nat)
    | CRead(curHead: nat)
    | CClear(curHead: nat, val: Word)
    | CRelease(curHead: nat, val: Word)
    | CCount(val: Word)

  /** Shared memory, the two threads, and the history: values in the order their tail stores published
      them, values in the order their head stores released them, and values already returned. */
  datatype State = State(slots: seq<Word>, head: nat, tail: nat, cnt: int, prod: Producer, cons: Consumer,
                         published: seq<Word>, released: seq<Word>, returned: seq<Word>)

  predicate WellSized(s: State) { s.head < |s.slots| && s.tail < |s.slots| }

  ghost predicate Init(s: State) {
    && 0 < |s.slots| && s.head == s.tail == s.cnt == 0 && s.prod == PIdle && s.cons == CIdle
    && s.published == s.released == s.returned == []
  }

  /** The value a full test compares with head. */
  function Next(i: nat, n: nat): nat
    requires i < n
  {
    Wrap(i + 1, n)
  }

  // ----- The steps -----

  /** One load or store of the enqueueing thread; `val` is what a new call is given. */
  function ProducerStep(s: State, val: Word): State
    requires WellSized(s)
  {
    match s.prod
    case PIdle => s.(prod := PLoadTail(val))
    case PLoadTail(v) => s.(prod := PLoadHead(v, s.tail))
    case PLoadHead(v, t) =>
      if t < |s.slots| && s.head == Next(t, |s.slots|) then s.(prod := PIdle) else s.(prod := PStore(v, t))
    case PStore(v, t) => if t < |s.slots| then s.(slots := s.slots[t := v], prod := PPublish(v, t)) else s
    case PPublish(v, t) =>
      if t < |s.slots| then s.(tail := Next(t, |s.slots|), prod := PCount, published := s.published + [v]) else s
    case PCount => s.(cnt := s.cnt + 1, prod := PIdle)
  }

  /** One load or store of the dequeueing thread. */
  function ConsumerStep(s: State): State
    requires WellSized(s)
  {
    match s.cons
    case CIdle => s.(cons := CLoadHead)
    case CLoadHead => s.(cons := CLoadTail(s.head))
    case CLoadTail(h) => if h == s.tail then s.(cons := CIdle) else s.(cons := CRead(h))
    case CRead(h) => if h < |s.slots| then s.(cons := CClear(h, s.slots[h])) else s
    case CClear(h, v) => if h < |s.slots| then s.(slots := s.slots[h := 0], cons := CRelease(h, v)) else s
    case CRelease(h, v) =>
      if h < |s.slots| then s.(head := Next(h, |s.slots|), cons := CCount(v), released := s.released + [v]) else s
    case CCount(v) => s.(cnt := s.cnt - 1, cons := CIdle, returned := s.returned + [v])
  }

  /** Whose step it is, and for one that begins a call of queue_tryenqueue, the value that call is given. */
  datatype Label = Call(val: Word) | Produce | Consume

  ghost predicate Step(s: State, l: Label, s': State) {
    && WellSized(s)
    && match l
       case Call(val) => s.prod.PIdle? && s' == ProducerStep(s, val)
       case Produce => !s.prod.PIdle? && s' == ProducerStep(s, 0)
       case Consume => s' == ConsumerStep(s)
  }

  ghost predicate IsRun(ss: seq<State>, ls: seq<Label>) {
    |ss| == |ls| + 1 && Init(ss[0]) && forall i :: 0 <= i < |ls| ==> Step(ss[i], ls[i], ss[i + 1])
  }

  // ----- The invariant -----

  /** The slots, with a value the consumer has cleared but not released put back. */
  function Restored(s: State): seq<Word> {
    if s.cons.CRelease? && s.cons.curHead < |s.slots| then s.slots[s.cons.curHead := s.cons.val] else s.slots
  }

  /** The queue's abstract content. */
  ghost function Content(s: State): seq<Word>
    requires WellSized(s)
  {
    RingOf(Restored(s), s.head, s.tail, 0).live
  }

  predicate ProducerOk(s: State)
    requires WellSized(s)
  {
    match s.prod
    case PLoadHead(_, t) => t == s.tail
    case PStore(_, t) => t == s.tail && s.head != Next(t, |s.slots|)
    case PPublish(v, t) => t == s.tail && s.head != Next(t, |s.slots|) && s.slots[t] == v
    case _ => true
  }

  predicate ConsumerOk(s: State)
    requires WellSized(s)
  {
    match s.cons
    case CLoadTail(h) => h == s.head
    case CRead(h) => h == s.head != s.tail
    case CClear(h, v) => h == s.head != s.tail && s.slots[h] == v
    case CRelease(h, v) => h == s.head != s.tail && s.slots[h] == 0
    case _ => true
  }

  ghost predicate Inv(s: State) {
    && WellSized(s) && ProducerOk(s) && ConsumerOk(s)
    && s.published == s.released + Content(s)
    && s.released == s.returned + (if s.cons.CCount? then [s.cons.val] else [])
    && s.cnt + (if s.prod.PCount? then 1 else 0) - (if s.cons.CCount? then 1 else 0) == |Content(s)|
  }

  /** Storing into the slot at tail leaves the content alone. */
  lemma StoreAtTail(s: seq<Word>, head: nat, tail: nat, v: Word)
    requires head < |s| && tail < |s|
    ensures RingOf(s[tail := v], head, tail, 0).live == RingOf(s, head, tail, 0).live
  {
    var n := Occupied(head, tail, |s|);
    RotateUpdate(s, head, head + n, v);
    var u := Rotate(s, head);
    assert Rotate(s[tail := v], head) == u[n := v];
    assert u[n := v][..n] == u[..n];
  }

  /** What each step of the enqueueing thread does to the content: the tail store appends, every other
      step leaves it. */
  lemma ProducerKeepsInv(s: State, val: Word)
    requires Inv(s)
    ensures Inv(ProducerStep(s, val))
    ensures Content(ProducerStep(s, val))
         == if s.prod.PPublish? then Content(s) + [s.prod.val] else Content(s)
  {
    hide RingOf, Rotate;
    match s.prod
    case PStore(v, t) => StoreKeepsContent(s, val);
    case PPublish(v, t) => PublishAppends(s, val);
    case _ =>
  }

  lemma StoreKeepsContent(s: State, val: Word)
    requires WellSized(s) && ProducerOk(s) && ConsumerOk(s) && s.prod.PStore?
    ensures Content(ProducerStep(s, val)) == Content(s)
  {
    hide RingOf, Rotate;
    StoreAtTail(Restored(s), s.head, s.tail, s.prod.val);
    assert Restored(ProducerStep(s, val)) == Restored(s)[s.tail := s.prod.val];
  }

  lemma PublishAppends(s: State, val: Word)
    requires WellSized(s) && ProducerOk(s) && ConsumerOk(s) && s.prod.PPublish?
    ensures Content(ProducerStep(s, val)) == Content(s) + [s.prod.val]
  {
    hide RingOf, Rotate;
    var r, v := Restored(s), s.prod.val;
    assert r[s.tail := v] == r;
    RingEnqueued(r, s.head, s.tail, 0, v);
    RingIgnoresCount(r, s.head, Next(s.tail, |r|), 1);
  }

  lemma RingIgnoresCount(s: seq<Word>, head: nat, tail: nat, cnt: int)
    requires head < |s| && tail < |s|
    ensures RingOf(s, head, tail, cnt).live == RingOf(s, head, tail, 0).live
  {
  }

  /** And of the dequeueing thread: the head store takes the first value, which is the one read. */
  lemma ConsumerKeepsInv(s: State)
    requires Inv(s)
    ensures Inv(ConsumerStep(s))
    ensures if s.cons.CRelease? then Content(s) == [s.cons.val] + Content(ConsumerStep(s))
            else Content(ConsumerStep(s)) == Content(s)
  {
    hide RingOf, Rotate;
    var s' := ConsumerStep(s);
    match s.cons
    case CClear(h, v) =>
      assert Restored(s') == s.slots[h := 0][h := v] == s.slots;
    case CRelease(h, v) =>
      ReleaseAtHead(s);
    case _ =>
  }

  lemma ReleaseAtHead(s: State)
    requires WellSized(s) && ConsumerOk(s) && s.cons.CRelease?
    ensures Content(s) == [s.cons.val] + Content(ConsumerStep(s))
  {
    hide RingOf, Rotate;
    var r := Restored(s);
    RingDequeued(r, s.head, s.tail, 0);
    RingIgnoresCount(r[s.head := 0], Wrap(s.head + 1, |r|), s.tail, -1);
    assert r[s.head := 0] == s.slots;
  }

  lemma StepKeepsInv(s: State, l: Label, s': State)
    requires Inv(s) && Step(s, l, s')
    ensures Inv(s')
  {
    hide Inv, ProducerStep, ConsumerStep;
    if l.Consume? {
      ConsumerKeepsInv(s);
    } else {
      ProducerKeepsInv(s, if l.Call? then l.val else 0);
    }
  }

  lemma {:induction false} RunKeepsInv(ss: seq<State>, ls: seq<Label>, i: nat)
    requires IsRun(ss, ls) && i < |ss|
    ensures Inv(ss[i])
  {
    if i > 0 {
      RunKeepsInv(ss, ls, i - 1);
      StepKeepsInv(ss[i - 1], ls[i - 1], ss[i]);
    }
  }

  // ----- The calls of a run -----

  /** The value that the latest of the calls among the first `n` steps was given. */
  function Given(ls: seq<Label>, n: nat): Word
    requires n <= |ls|
  {
    if n == 0 then 0 else if ls[n - 1].Call? then ls[n - 1].val else Given(ls, n - 1)
  }

  /** What the calls that have stored tail by then were given, in order: tail moves once in each of them. */
  function Accepted(ss: seq<State>, ls: seq<Label>, n: nat): seq<Word>
    requires n <= |ls| && |ss| == |ls| + 1
  {
    if n == 0 then []
    else Accepted(ss, ls, n - 1) + if ss[n].tail != ss[n - 1].tail then [Given(ls, n)] else []
  }

  /** The call in progress carries the value it was given. */
  predicate Carries(s: State, v: Word) {
    match s.prod
    case PLoadTail(w) => w == v
    case PLoadHead(w, _) => w == v
    case PStore(w, _) => w == v
    case PPublish(w, _) => w == v
    case _ => true
  }

  /** The values published are, in order, those given to the calls that have stored tail. */
  lemma {:induction false} PublishedIsGiven(ss: seq<State>, ls: seq<Label>, n: nat)
    requires IsRun(ss, ls) && n <= |ls|
    ensures ss[n].published == Accepted(ss, ls, n) && Carries(ss[n], Given(ls, n))
  {
    if n > 0 {
      hide Inv, Step, Carries, Init;
      PublishedIsGiven(ss, ls, n - 1);
      RunKeepsInv(ss, ls, n - 1);
      assert Step(ss[n - 1], ls[n - 1], ss[n - 1 + 1]);
      CarriesOn(ss[n - 1], ls[n - 1], ss[n], Given(ls, n - 1));
      TailMoves(ss[n - 1], ls[n - 1], ss[n]);
    } else {
      assert Init(ss[0]);
    }
  }

  lemma CarriesOn(s: State, l: Label, s': State, v: Word)
    requires Step(s, l, s') && Carries(s, v)
    ensures Carries(s', if l.Call? then l.val else v)
    ensures s.prod.PPublish? ==> s.prod.val == v && !l.Call?
  {
  }

  /** Only the step that publishes moves tail, and it does. */
  lemma TailMoves(s: State, l: Label, s': State)
    requires Inv(s) && Step(s, l, s')
    ensures s'.tail != s.tail <==> !l.Consume? && s.prod.PPublish?
    ensures s'.published == s.published + if s'.tail != s.tail then [s.prod.val] else []
  {
    hide RingOf;
  }

  // ----- What every interleaving guarantees -----

  /** First in, first out: what dequeue calls have returned is a prefix of what the enqueue calls that have stored
      tail were given, and between the two sit at most size-1 values, in order. */
  lemma Fifo(ss: seq<State>, ls: seq<Label>, i: nat)
    requires IsRun(ss, ls) && i < |ss|
    ensures WellSized(ss[i]) && ss[i].returned <= Accepted(ss, ls, i) == ss[i].published
    ensures ss[i].published == ss[i].released + Content(ss[i])
    ensures |ss[i].published| - |ss[i].released| <= |ss[i].slots| - 1
  {
    PublishedIsGiven(ss, ls, i);
    RunKeepsInv(ss, ls, i);
  }

  /** The slot the enqueueing thread is about to write or publish is never the one the other thread is
      about to read, clear or release. */
  lemma NoSlotConflict(ss: seq<State>, ls: seq<Label>, i: nat)
    requires IsRun(ss, ls) && i < |ss|
    requires ss[i].prod.PStore? || ss[i].prod.PPublish?
    requires ss[i].cons.CRead? || ss[i].cons.CClear? || ss[i].cons.CRelease?
    ensures ss[i].prod.curTail != ss[i].cons.curHead
  {
    RunKeepsInv(ss, ls, i);
  }

  /** The slot of a value that has been read is cleared before it is released. */
  lemma ReleasedSlotIsClear(ss: seq<State>, ls: seq<Label>, i: nat)
    requires IsRun(ss, ls) && i < |ss| && ss[i].cons.CRelease?
    ensures ss[i].cons.curHead < |ss[i].slots| && ss[i].slots[ss[i].cons.curHead] == 0
  {
    RunKeepsInv(ss, ls, i);
  }

  /** A call answers "full" exactly if the queue holds size-1 values when it loads head, and "empty"
      exactly if it holds none when the other call loads tail. */
  lemma AnswersAreTrue(ss: seq<State>, ls: seq<Label>, i: nat, val: Word)
    requires IsRun(ss, ls) && i < |ss|
    ensures WellSized(ss[i])
    ensures ss[i].prod.PLoadHead? ==>
      (ProducerStep(ss[i], val).prod.PIdle? <==> |Content(ss[i])| == |ss[i].slots| - 1)
    ensures ss[i].cons.CLoadTail? ==> (ConsumerStep(ss[i]).cons.CIdle? <==> Content(ss[i]) == [])
  {
    RunKeepsInv(ss, ls, i);
  }

  /** `ent_cnt` is the number of values in the queue, short of a published value not yet counted and over
      by a released value not yet discounted. */
  lemma CounterLag(ss: seq<State>, ls: seq<Label>, i: nat)
    requires IsRun(ss, ls) && i < |ss|
    ensures WellSized(ss[i])
    ensures ss[i].cnt == |Content(ss[i])| - (if ss[i].prod.PCount? then 1 else 0)
                                          + (if ss[i].cons.CCount? then 1 else 0)
  {
    RunKeepsInv(ss, ls, i);
  }
}
