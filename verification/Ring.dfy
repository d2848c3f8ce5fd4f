/** The value of the free-list ring, read from its head: the live entries, then the dead slots. */
module Ring {
  import opened PageEntry

  /** `live` is what a reader of the queue sees, in dequeue order; `dead` are the slots from tail
      round to head; `cnt` is the separately kept entry counter. */
  datatype Ring = Ring(live: seq<Word>, dead: seq<Word>, cnt: int) {
    function Size(): nat { |live| + |dead| }

    /** One slot is always left unused. */
    predicate Full() { |dead| == 1 }

    function Slots(): seq<Word> { live + dead }
  }

  function Enqueue(r: Ring, v: Word): Ring
    requires |r.dead| > 1
  {
    Ring(r.live + [v], r.dead[1..], r.cnt + 1)
  }

  function EnqueueFront(r: Ring, v: Word): Ring
    requires |r.dead| > 1
  {
    Ring([v] + r.live, r.dead[..|r.dead| - 1], r.cnt + 1)
  }

  /** The slot a value is taken from is cleared. */
  function Dequeue(r: Ring): Ring
    requires r.live != []
  {
    Ring(r.live[1..], r.dead + [0], r.cnt - 1)
  }
}
