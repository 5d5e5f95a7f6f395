// The control block of the queue (eg_queue_ctx_s without the buffer
// pointer) as a value: its invariant, the transitions that put, get_copy
// and release_last make on it, and what a whole history of such calls does
// to the fill count and to the high-water mark.
module QueueControl {
  import opened EgQueueTypes

  /** The counters of eg_queue.c:11-16. */
  datatype Control = Control(
    itemSize: uint32,  // bytes per slot
    itemsNo: uint32,   // number of slots
    head: uint32,      // next slot to write
    tail: uint32,      // oldest occupied slot
    used: uint32,      // occupied slots
    maxUsed: uint32)   // highest `used` seen since init

  /** What holds between operations. `head` is `tail + used` taken round the
      ring, written without `%` (see Position for the `%` form); a queue of
      zero slots keeps both indices at 0. */
  predicate Inv(c: Control) {
    c.used <= c.itemsNo && c.used <= c.maxUsed <= c.itemsNo &&
    if c.itemsNo == 0 then c.head == 0 && c.tail == 0
    else
      c.head < c.itemsNo && c.tail < c.itemsNo &&
      c.head == (if c.tail + c.used < c.itemsNo then c.tail + c.used else c.tail + c.used - c.itemsNo)
  }

  /** The control block right after a successful init (eg_queue.c:31-35). */
  function Reset(itemSize: uint32, itemsNo: uint32): (c: Control)
    ensures Inv(c) && c.used == 0 && c.maxUsed == 0
    ensures c.itemSize == itemSize && c.itemsNo == itemsNo
  {
    Control(itemSize, itemsNo, 0, 0, 0, 0)
  }

  /** `i++; i %= n;` on an index of a ring of `n` slots. */
  function Next(i: uint32, n: uint32): (r: uint32)
    requires i < n
    ensures r < n
    ensures r == if i + 1 == n then 0 else i + 1
  {
    var j := i + 1;
    if j < n then
      ModSmall(j, n);
      j % n
    else
      ModWrap(j, n);
      j % n
  }

  /** The slot holding the `i`-th oldest item (`i == used` names the slot
      the next put writes). */
  function Position(c: Control, i: nat): (k: uint32)
    requires Inv(c) && 0 < c.itemsNo && i <= c.used
    ensures k < c.itemsNo
    ensures k == (c.tail + i) % c.itemsNo
    ensures i == c.used ==> k == c.head
  {
    var x := c.tail + i;
    if x < c.itemsNo then
      ModSmall(x, c.itemsNo);
      x
    else
      ModWrap(x, c.itemsNo);
      x - c.itemsNo
  }

  /** Taking a value below twice the modulus round the ring subtracts the
      modulus once. */
  lemma ModWrap(x: int, n: int)
    requires 0 < n <= x < 2 * n
    ensures x % n == x - n
  {
  }

  /** A value below the modulus is its own remainder. */
  lemma ModSmall(x: int, n: int)
    requires 0 <= x && 0 < n
    ensures x < n ==> x % n == x
  {
  }

  /** The control-block update of a successful put (eg_queue.c:58-67). */
  function Pushed(c: Control): (d: Control)
    requires Inv(c) && c.used < c.itemsNo
    ensures Inv(d)
    ensures d.itemSize == c.itemSize && d.itemsNo == c.itemsNo && d.tail == c.tail
    ensures d.used == c.used + 1 && d.maxUsed == Max(c.maxUsed, d.used)
  {
    var used := c.used + 1;
    c.(head := Next(c.head, c.itemsNo), used := used,
       maxUsed := if used > c.maxUsed then used else c.maxUsed)
  }

  /** The control-block update of a successful get_copy or release_last
      (eg_queue.c:89-93, 122-126). */
  function Popped(c: Control): (d: Control)
    requires Inv(c) && 0 < c.used
    ensures Inv(d)
    ensures d.itemSize == c.itemSize && d.itemsNo == c.itemsNo && d.head == c.head
    ensures d.used == c.used - 1 && d.maxUsed == c.maxUsed
  {
    c.(tail := Next(c.tail, c.itemsNo), used := c.used - 1)
  }

  /** A put leaves the queued items where they are and places the new one in
      the slot that was `head`. */
  lemma PositionAfterPush(c: Control, i: nat)
    requires Inv(c) && c.used < c.itemsNo && i <= c.used
    ensures Inv(Pushed(c))
    ensures Position(Pushed(c), i) == Position(c, i)
    ensures i < c.used ==> Position(c, i) != c.head
  {
  }

  /** After a get the `i`-th oldest item is the one that was `i + 1`-th. */
  lemma PositionAfterPop(c: Control, i: nat)
    requires Inv(c) && 0 < c.used && i < c.used
    ensures Inv(Popped(c))
    ensures Position(Popped(c), i) == Position(c, i + 1)
  {
  }

  /** The effect a call has on the counters: a put of an item that fits the
      slot, or a get_copy into a slot-sized buffer / a release_last. A put of
      an oversized item changes nothing and needs no event. */
  datatype Event = Enqueue | Dequeue

  /** One call: a put on a full queue returns ERR_FULL and a get on an empty
      one ERR_EMPTY, both without changing the block. */
  function Step(c: Control, e: Event): (d: Control)
    requires Inv(c)
    ensures Inv(d)
    ensures d.itemSize == c.itemSize && d.itemsNo == c.itemsNo
    ensures d.maxUsed == Max(c.maxUsed, d.used)
  {
    match e
    case Enqueue =>
      if c.used >= c.itemsNo then c
      else Pushed(c)
    case Dequeue =>
      if c.used == 0 then c
      else Popped(c)
  }

  function Max(a: int, b: int): int {
    if a < b then b else a
  }

  /** The block after a history of calls. */
  function Run(c: Control, es: seq<Event>): (d: Control)
    requires Inv(c)
    ensures Inv(d)
    ensures d.itemSize == c.itemSize && d.itemsNo == c.itemsNo
    ensures c.maxUsed <= d.maxUsed
    decreases |es|
  {
    if es == [] then c else Run(Step(c, es[0]), es[1..])
  }

  /** The largest fill count the block passes through along a history,
      counting the starting one. */
  function PeakUsed(c: Control, es: seq<Event>): nat
    requires Inv(c)
    decreases |es|
  {
    if es == [] then c.used else Max(c.used, PeakUsed(Step(c, es[0]), es[1..]))
  }

  /** The high-water mark after a history is the larger of the one before and
      the highest fill count reached along the way. */
  lemma {:induction false} MaxUsedIsPeak(c: Control, es: seq<Event>)
    requires Inv(c)
    ensures Run(c, es).maxUsed == Max(c.maxUsed, PeakUsed(c, es))
    decreases |es|
  {
    if es != [] {
      var d := Step(c, es[0]);
      MaxUsedIsPeak(d, es[1..]);
      assert PeakUsed(d, es[1..]) >= d.used;
    }
  }

  /** From init on, get_max_used reports exactly the highest fill count the
      queue has had. */
  lemma HighWaterMarkFromInit(itemSize: uint32, itemsNo: uint32, es: seq<Event>)
    ensures Run(Reset(itemSize, itemsNo), es).maxUsed == PeakUsed(Reset(itemSize, itemsNo), es)
    ensures Run(Reset(itemSize, itemsNo), es).used <= Run(Reset(itemSize, itemsNo), es).maxUsed <= itemsNo
  {
    MaxUsedIsPeak(Reset(itemSize, itemsNo), es);
  }

  /** A put on a full queue fails however often it is repeated. */
  lemma {:induction false} FullStaysFull(c: Control, k: nat)
    requires Inv(c) && c.used == c.itemsNo
    ensures Run(c, seq(k, _ => Enqueue)) == c
    decreases k
  {
    if k > 0 {
      var es := seq(k, _ => Enqueue);
      assert es[0] == Enqueue && es[1..] == seq(k - 1, _ => Enqueue);
      FullStaysFull(c, k - 1);
    }
  }
}
