// The queue engine of eg_queue.c: a control block bound to caller-supplied
// storage cut into `itemsNo` slots of `itemSize` bytes, and the six
// operations on it. The abstract contents (the queued items, oldest first,
// each padded to the slot size) are a ghost field tied to the storage by
// Valid().
module EgQueue {
  import opened EgQueueTypes
  import opened Bytes
  import opened QueueControl

  /** `item_size * items_no` as eg_queue.c:26 computes it: a `uint32_t`
      product, taken modulo 2^32. */
  function Mul32(a: uint32, b: uint32): (r: uint32)
    ensures a * b < UINT32_LIMIT ==> r == a * b
  {
    ModSmall(a * b, UINT32_LIMIT);
    (a * b) % UINT32_LIMIT
  }

  /** The init guard as written: reject when the wrapped product exceeds
      the buffer size. */
  predicate InitRejectsAsWritten(bufSize: uint32, itemSize: uint32, itemsNo: uint32) {
    Mul32(itemSize, itemsNo) > bufSize
  }

  /** The geometry the caller asks for fits in `bufSize` bytes. */
  predicate GeometryFits(bufSize: uint32, itemSize: uint32, itemsNo: uint32) {
    itemSize * itemsNo <= bufSize
  }

  /** Where the product does not wrap, the guard as written rejects exactly
      the geometries that do not fit. */
  lemma GuardsAgreeWithoutWrap(bufSize: uint32, itemSize: uint32, itemsNo: uint32)
    requires itemSize * itemsNo < UINT32_LIMIT
    ensures InitRejectsAsWritten(bufSize, itemSize, itemsNo) == !GeometryFits(bufSize, itemSize, itemsNo)
  {
  }

  /** The guard as written accepts 65536 slots of 65536 bytes in a buffer of
      0 bytes: the product is 2^32, which wraps to 0, while slot 0 alone
      already ends past the buffer. */
  lemma WrappedGuardAdmitsOversizedGeometry()
    ensures !InitRejectsAsWritten(0, 0x10000, 0x10000)
    ensures !GeometryFits(0, 0x10000, 0x10000)
    ensures SlotStart(0, 0x10000) + 0x10000 > 0
  {
    assert 0x10000 * 0x10000 == UINT32_LIMIT;
  }

  /** Past that check the slot offsets wrap as well: the guard as written
      accepts 2^31 + 1 slots of 2 bytes in a 2-byte buffer, 2^31 is then a
      valid slot index, and its offset `head * item_size` at eg_queue.c:54
      wraps to 0, the offset of slot 0. */
  lemma WrappedGuardAdmitsWrappingOffsets()
    ensures !InitRejectsAsWritten(2, 2, 0x8000_0001)
    ensures 0x8000_0000 < 0x8000_0001 && Mul32(0x8000_0000, 2) == Mul32(0, 2) == 0
  {
    assert 2 * 0x8000_0001 == UINT32_LIMIT + 2;
    assert 0x8000_0000 * 2 == UINT32_LIMIT;
  }

  /** With the unwrapped guard every slot lies inside the caller's buffer,
      which is what the check at eg_queue.c:26 is for. */
  lemma FittingGeometryHoldsEverySlot(bufSize: uint32, itemSize: uint32, itemsNo: uint32, k: nat)
    requires GeometryFits(bufSize, itemSize, itemsNo) && k < itemsNo
    ensures SlotStart(itemsNo, itemSize) <= bufSize
    ensures SlotStart(k, itemSize) + itemSize <= bufSize
  {
    SlotStartIsProduct(itemsNo, itemSize);
    SlotsInOrder(k, itemsNo, itemSize);
  }

  /** The `i`-th oldest item is the content of slot `(tail + i) % itemsNo`. */
  ghost predicate HoldsItem(c: Control, s: seq<uint8>, contents: seq<seq<uint8>>, i: nat)
    requires Inv(c) && SlotStart(c.itemsNo, c.itemSize) <= |s| && |contents| == c.used && i < |contents|
  {
    contents[i] == Slot(s, c.itemSize, c.itemsNo, Position(c, i))
  }

  /** The storage `s`, as cut up by the control block `c`, holds `contents`
      in its slots, oldest first from `tail`. */
  ghost predicate Layout(c: Control, s: seq<uint8>, contents: seq<seq<uint8>>) {
    Inv(c) && SlotStart(c.itemsNo, c.itemSize) <= |s| &&
    |contents| == c.used &&
    forall i :: 0 <= i < |contents| ==> HoldsItem(c, s, contents, i)
  }

  /** The oldest item is the slot at `tail`. */
  lemma OldestIsTailSlot(c: Control, s: seq<uint8>, contents: seq<seq<uint8>>)
    requires Layout(c, s, contents) && 0 < c.used
    ensures SlotStart(c.tail, c.itemSize) + c.itemSize <= SlotStart(c.itemsNo, c.itemSize)
    ensures contents[0] == Slot(s, c.itemSize, c.itemsNo, c.tail)
    ensures contents[0] == s[SlotStart(c.tail, c.itemSize)..SlotStart(c.tail, c.itemSize) + c.itemSize]
  {
    SlotsInOrder(c.tail, c.itemsNo, c.itemSize);
    assert HoldsItem(c, s, contents, 0);
    assert Position(c, 0) == c.tail;
  }

  /** Writing an item's padded bytes into slot `head` and advancing the
      counters as put does appends that item to the contents. */
  lemma PushKeepsLayout(c: Control, s: seq<uint8>, contents: seq<seq<uint8>>, v: seq<uint8>)
    requires Layout(c, s, contents) && c.used < c.itemsNo && |v| == c.itemSize
    ensures SlotStart(c.head, c.itemSize) + c.itemSize <= SlotStart(c.itemsNo, c.itemSize)
    ensures Layout(Pushed(c), Overwrite(s, SlotStart(c.head, c.itemSize), v), contents + [v])
  {
    SlotsInOrder(c.head, c.itemsNo, c.itemSize);
    var s', contents' := Overwrite(s, SlotStart(c.head, c.itemSize), v), contents + [v];
    forall i | 0 <= i < |contents'|
      ensures HoldsItem(Pushed(c), s', contents', i)
    {
      PositionAfterPush(c, i);
      var k := Position(c, i);
      SlotAfterOverwrite(s, c.itemSize, c.itemsNo, c.head, k, v);
      if i < c.used {
        assert HoldsItem(c, s, contents, i);
        assert contents'[i] == Slot(s, c.itemSize, c.itemsNo, k);
      } else {
        assert k == c.head;
      }
    }
  }

  /** Advancing `tail` as get_copy and release_last do drops the oldest item
      from the contents; the storage is not touched. */
  lemma PopKeepsLayout(c: Control, s: seq<uint8>, contents: seq<seq<uint8>>)
    requires Layout(c, s, contents) && 0 < c.used
    ensures Layout(Popped(c), s, contents[1..])
  {
    forall i | 0 <= i < |contents| - 1
      ensures HoldsItem(Popped(c), s, contents[1..], i)
    {
      PositionAfterPop(c, i);
      assert HoldsItem(c, s, contents, i + 1);
    }
  }

  /** An `eg_queue_t` object. */
  class Queue {
    var itemsBuf: array?<uint8>
    var itemSize: uint32
    var itemsNo: uint32
    var head: uint32
    var tail: uint32
    var used: uint32
    var maxUsed: uint32

    /** The queued items, oldest first, each as the `itemSize` bytes of its slot. */
    ghost var Contents: seq<seq<uint8>>

    function Ctl(): Control
      reads this
    {
      Control(itemSize, itemsNo, head, tail, used, maxUsed)
    }

    /** A queue that init has bound to its storage: the counters keep their
        invariant, the `itemsNo * itemSize` bytes of slots fit in the
        storage and in a `uint32_t`, and the `i`-th oldest item is the
        content of slot `(tail + i) % itemsNo`. */
    ghost predicate Valid()
      reads this, itemsBuf
    {
      itemsBuf != null &&
      SlotStart(itemsNo, itemSize) < UINT32_LIMIT &&
      Layout(Ctl(), itemsBuf[..], Contents)
    }

    /** An `eg_queue_t` that init has not yet been called on. It is not
        Valid(), so no operation but Init accepts it; the null buffer and
        zero counters only give its fields a value (in C an automatic
        object is indeterminate). */
    constructor ()
      ensures !Valid()
      ensures itemsBuf == null && Ctl() == Reset(0, 0) && Contents == []
    {
      itemsBuf := null;
      itemSize, itemsNo := 0, 0;
      head, tail, used, maxUsed := 0, 0, 0, 0;
      Contents := [];
    }

    /** eg_queue_init: binds the queue to `itemsBuf` if `itemsNo` slots of
        `itemSize` bytes fit in its `bufSize` bytes, and empties it. */
    method Init(itemsBuf: array<uint8>, bufSize: uint32, itemSize: uint32, itemsNo: uint32) returns (status: Status)
      requires bufSize <= itemsBuf.Length
      modifies this
      ensures status == if GeometryFits(bufSize, itemSize, itemsNo) then Ok else ErrBufferSize
      ensures status == ErrBufferSize ==> unchanged(this)
      ensures status == Ok ==> Valid() && this.itemsBuf == itemsBuf && Ctl() == Reset(itemSize, itemsNo) && Contents == []
    {
      if itemSize * itemsNo > bufSize {
        return ErrBufferSize;
      }
      SlotStartIsProduct(itemsNo, itemSize);
      this.itemsBuf := itemsBuf;
      this.itemSize, this.itemsNo := itemSize, itemsNo;
      head, tail, used, maxUsed := 0, 0, 0, 0;
      Contents := [];
      return Ok;
    }

    /** eg_queue_put: a full queue is reported before an oversized item; on
        success the item, zero-padded to the slot size, overwrites slot
        `head`, no other byte of the storage changes, and the item becomes
        the newest one. */
    method Put(item: seq<uint8>) returns (status: Status)
      requires Valid()
      requires |item| < UINT32_LIMIT
      modifies this, itemsBuf
      ensures Valid() && itemsBuf == old(itemsBuf)
      ensures status == if old(used) >= old(itemsNo) then ErrFull
                        else if |item| > old(itemSize) then ErrItemSize
                        else Ok
      ensures status != Ok ==> unchanged(this) && unchanged(itemsBuf)
      ensures status == Ok ==> Ctl() == Pushed(old(Ctl()))
      ensures status == Ok ==> Contents == old(Contents) + [Pad(item, itemSize)]
      ensures status == Ok ==>
        SlotStart(old(head), itemSize) + itemSize <= itemsBuf.Length &&
        itemsBuf[..] == Overwrite(old(itemsBuf[..]), SlotStart(old(head), itemSize), Pad(item, itemSize))
      ensures |item| <= old(itemSize) ==> Ctl() == Step(old(Ctl()), Enqueue)
    {
      if used >= itemsNo {
        return ErrFull;
      }
      if |item| > itemSize {
        return ErrItemSize;
      }
      ghost var before := itemsBuf[..];
      WriteSlot(item);
      AdvanceHead(before, Pad(item, itemSize));
      return Ok;
    }

    /** eg_queue_get_copy: a destination shorter than a slot is reported
        before an empty queue; on success `bufSize` bytes from the start of
        slot `tail` are copied to the front of `buf` (the first `itemSize`
        of them are the oldest item) and that item leaves the queue. */
    method GetCopy(buf: array<uint8>, bufSize: uint32) returns (status: Status)
      requires Valid()
      requires bufSize <= buf.Length && buf != itemsBuf
      requires bufSize <= itemSize || used == 0 || SlotStart(tail, itemSize) + bufSize <= itemsBuf.Length
      modifies this, buf
      ensures Valid() && itemsBuf == old(itemsBuf)
      ensures bufSize < old(itemSize) ==> status == ErrItemSize && unchanged(this) && unchanged(buf)
      ensures old(itemSize) <= bufSize && old(used) == 0 ==> status == ErrEmpty && unchanged(this) && unchanged(buf)
      ensures old(itemSize) <= bufSize && 0 < old(used) ==>
        status == Ok &&
        Ctl() == Popped(old(Ctl())) && Contents == old(Contents)[1..] &&
        SlotStart(old(tail), itemSize) + bufSize <= itemsBuf.Length &&
        buf[..bufSize] == itemsBuf[SlotStart(old(tail), itemSize)..SlotStart(old(tail), itemSize) + bufSize] &&
        buf[bufSize..] == old(buf[bufSize..]) &&
        buf[..itemSize] == old(Contents)[0]
      ensures bufSize >= old(itemSize) ==> Ctl() == Step(old(Ctl()), Dequeue)
    {
      if bufSize < itemSize {
        status := ErrItemSize;
      } else if used == 0 {
        status := ErrEmpty;
      } else {
        CopyOldest(buf, bufSize);
        AdvanceTail();
        status := Ok;
      }
    }

    /** eg_queue_get_last: on a non-empty queue, the offset in the storage of
        the oldest item's slot; nothing changes. */
    method GetLast() returns (status: Status, offset: uint32)
      requires Valid()
      ensures status == if used == 0 then ErrEmpty else Ok
      ensures status == Ok ==>
        offset == tail * itemSize &&
        offset + itemSize <= itemsBuf.Length &&
        itemsBuf[offset..offset + itemSize] == Contents[0]
    {
      if used == 0 {
        return ErrEmpty, 0;
      }
      OldestIsTailSlot(Ctl(), itemsBuf[..], Contents);
      SlotStartIsProduct(tail, itemSize);
      return Ok, tail * itemSize;
    }

    /** eg_queue_release_last: the oldest item leaves the queue without being
        read, by the same counter update as a successful get_copy. */
    method ReleaseLast() returns (status: Status)
      requires Valid()
      modifies this
      ensures Valid() && itemsBuf == old(itemsBuf)
      ensures status == if old(used) == 0 then ErrEmpty else Ok
      ensures status == ErrEmpty ==> unchanged(this)
      ensures status == Ok ==> Ctl() == Popped(old(Ctl())) && Contents == old(Contents)[1..]
      ensures Ctl() == Step(old(Ctl()), Dequeue)
    {
      if used == 0 {
        return ErrEmpty;
      }
      AdvanceTail();
      return Ok;
    }

    /** eg_queue_get_max_used: the high-water mark, which bounds the current
        fill count from above and the capacity from below. */
    method GetMaxUsed() returns (r: uint32)
      requires Valid()
      ensures r == maxUsed
      ensures |Contents| <= r <= itemsNo
    {
      return maxUsed;
    }

    /** The copy at eg_queue.c:54-56: the item's bytes into slot `head`,
        then zeros to the end of the slot. */
    method WriteSlot(item: seq<uint8>)
      requires Valid() && used < itemsNo && |item| <= itemSize
      modifies itemsBuf
      ensures SlotStart(head, itemSize) + itemSize <= SlotStart(itemsNo, itemSize)
      ensures itemsBuf[..] == Overwrite(old(itemsBuf[..]), SlotStart(head, itemSize), Pad(item, itemSize))
    {
      ghost var before := itemsBuf[..];
      SlotsInOrder(head, itemsNo, itemSize);
      SlotStartIsProduct(head, itemSize);
      var target := head * itemSize;
      CopyInto(itemsBuf, target, item);
      ZeroFill(itemsBuf, target + |item|, itemSize - |item|);
      OverwriteAdjacent(before, target, item, Zeros(itemSize - |item|));
    }

    /** The counter update at eg_queue.c:58-67, once slot `head` of the
        storage `before` has been overwritten with `v`: `v` becomes the
        newest item. */
    method AdvanceHead(ghost before: seq<uint8>, ghost v: seq<uint8>)
      requires itemsBuf != null && SlotStart(itemsNo, itemSize) < UINT32_LIMIT
      requires Layout(Ctl(), before, Contents) && used < itemsNo && |v| == itemSize
      requires SlotStart(head, itemSize) + itemSize <= |before|
      requires itemsBuf[..] == Overwrite(before, SlotStart(head, itemSize), v)
      modifies this
      ensures Valid() && itemsBuf == old(itemsBuf)
      ensures Ctl() == Pushed(old(Ctl())) && Contents == old(Contents) + [v]
    {
      ghost var c := Ctl();
      PushKeepsLayout(c, before, Contents, v);
      head := head + 1;
      head := head % itemsNo;
      used := used + 1;
      if used > maxUsed {
        maxUsed := used;
      }
      Contents := Contents + [v];
      assert Ctl() == Pushed(c);
    }

    /** The copy at eg_queue.c:85-87: `bufSize` bytes from the start of
        slot `tail` into `buf`, which begin with the oldest item. */
    method CopyOldest(buf: array<uint8>, bufSize: uint32)
      requires Valid() && 0 < used && itemSize <= bufSize <= buf.Length && buf != itemsBuf
      requires bufSize <= itemSize || SlotStart(tail, itemSize) + bufSize <= itemsBuf.Length
      modifies buf
      ensures SlotStart(tail, itemSize) + bufSize <= itemsBuf.Length
      ensures buf[..bufSize] == itemsBuf[SlotStart(tail, itemSize)..SlotStart(tail, itemSize) + bufSize]
      ensures buf[bufSize..] == old(buf[bufSize..])
      ensures buf[..itemSize] == Contents[0]
    {
      OldestIsTailSlot(Ctl(), itemsBuf[..], Contents);
      ghost var start := SlotStart(tail, itemSize);
      ghost var slot := itemsBuf[start..start + bufSize];
      assert Contents[0] == slot[..itemSize];
      SlotStartIsProduct(tail, itemSize);
      var source := tail * itemSize;
      CopyInto(buf, 0, itemsBuf[source..source + bufSize]);
      assert itemsBuf[start..start + bufSize] == slot;
      assert buf[..bufSize] == slot;
      assert buf[..itemSize] == slot[..itemSize];
    }

    /** The counter update at eg_queue.c:89-93 and 122-126: the oldest item
        leaves the queue. */
    method AdvanceTail()
      requires Valid() && 0 < used
      modifies this
      ensures Valid() && itemsBuf == old(itemsBuf)
      ensures Ctl() == Popped(old(Ctl())) && Contents == old(Contents)[1..]
      ensures Ctl() == Step(old(Ctl()), Dequeue)
    {
      ghost var c := Ctl();
      PopKeepsLayout(c, itemsBuf[..], Contents);
      tail := tail + 1;
      tail := tail % itemsNo;
      used := used - 1;
      Contents := Contents[1..];
      assert Ctl() == Popped(c);
    }
  }

  /** The items, in order, each padded to a slot of `size` bytes. */
  function PadAll(items: seq<seq<uint8>>, size: nat): (r: seq<seq<uint8>>)
    requires forall x <- items :: |x| <= size
    ensures |r| == |items|
    ensures forall i :: 0 <= i < |items| ==> r[i] == Pad(items[i], size)
  {
    if items == [] then [] else [Pad(items[0], size)] + PadAll(items[1..], size)
  }

  lemma PrefixGrows(s: seq<seq<uint8>>, i: nat)
    requires i < |s|
    ensures s[..i + 1] == s[..i] + [s[i]]
  {
  }

  /** Puts every item into a queue with room for all of them: each put
      succeeds and the items are queued behind the existing ones, padded. */
  method PutAll(q: Queue, items: seq<seq<uint8>>)
    requires q.Valid() && |q.Contents| + |items| <= q.itemsNo
    requires forall x <- items :: |x| <= q.itemSize
    modifies q, q.itemsBuf
    ensures q.Valid() && q.itemsBuf == old(q.itemsBuf)
    ensures q.itemSize == old(q.itemSize) && q.itemsNo == old(q.itemsNo)
    ensures q.Contents == old(q.Contents) + PadAll(items, q.itemSize)
  {
    ghost var padded := PadAll(items, q.itemSize);
    var i := 0;
    while i < |items|
      invariant 0 <= i <= |items|
      invariant q.Valid() && q.itemsBuf == old(q.itemsBuf)
      invariant q.itemSize == old(q.itemSize) && q.itemsNo == old(q.itemsNo)
      invariant q.Contents == old(q.Contents) + padded[..i]
      invariant q.used as int + |items| - i <= q.itemsNo
    {
      assert |items[i]| <= q.itemSize;
      var status := q.Put(items[i]);
      assert status == Ok;
      PrefixGrows(padded, i);
      i := i + 1;
    }
    assert padded[..i] == padded;
  }

  /** Takes `n` items out of a queue holding at least `n` with get_copy into
      a slot-sized buffer: each call succeeds, and the copies are the oldest
      `n` items in queue order. */
  method GetAll(q: Queue, n: nat, buf: array<uint8>) returns (out: seq<seq<uint8>>)
    requires q.Valid() && n <= |q.Contents|
    requires buf.Length == q.itemSize && buf != q.itemsBuf
    modifies q, buf
    ensures q.Valid() && q.itemsBuf == old(q.itemsBuf)
    ensures q.itemSize == old(q.itemSize) && q.itemsNo == old(q.itemsNo)
    ensures out == old(q.Contents)[..n] && q.Contents == old(q.Contents)[n..]
  {
    out := [];
    var i := 0;
    while i < n
      invariant 0 <= i <= n
      invariant q.Valid() && q.itemsBuf == old(q.itemsBuf)
      invariant q.itemSize == old(q.itemSize) && q.itemsNo == old(q.itemsNo)
      invariant out == old(q.Contents)[..i] && q.Contents == old(q.Contents)[i..]
    {
      var status := q.GetCopy(buf, q.itemSize);
      assert status == Ok;
      assert buf[..] == buf[..q.itemSize];
      out := out + [buf[..]];
      i := i + 1;
    }
  }

  /** First in, first out: into an empty queue, `|items|` puts followed by as
      many get_copies into a slot-sized buffer hand back the items in the
      order they were put, each zero-padded to the slot size. */
  method PutAllThenGetAll(q: Queue, items: seq<seq<uint8>>, buf: array<uint8>) returns (out: seq<seq<uint8>>)
    requires q.Valid() && q.Contents == [] && |items| <= q.itemsNo
    requires forall x <- items :: |x| <= q.itemSize
    requires buf.Length == q.itemSize && buf != q.itemsBuf
    modifies q, q.itemsBuf, buf
    ensures q.Valid() && q.Contents == [] && q.itemsBuf == old(q.itemsBuf)
    ensures q.itemSize == old(q.itemSize)
    ensures out == PadAll(items, q.itemSize)
  {
    PutAll(q, items);
    out := GetAll(q, |items|, buf);
  }

  /** The zero-copy way to take an item (eg_queue.h:60-78): get_last, read
      the slot where it lies, then release_last. On a non-empty queue it
      yields the oldest item and leaves the queue exactly as a successful
      get_copy into a slot-sized buffer does. */
  method ReadInPlaceThenRelease(q: Queue) returns (status: Status, item: seq<uint8>)
    requires q.Valid()
    modifies q
    ensures q.Valid() && q.itemsBuf == old(q.itemsBuf)
    ensures status == if old(q.used) == 0 then ErrEmpty else Ok
    ensures status == ErrEmpty ==> unchanged(q)
    ensures status == Ok ==>
      item == old(q.Contents)[0] &&
      q.Ctl() == Popped(old(q.Ctl())) && q.Contents == old(q.Contents)[1..]
  {
    var offset;
    status, offset := q.GetLast();
    if status != Ok {
      return status, [];
    }
    item := q.itemsBuf[offset..offset + q.itemSize];
    status := q.ReleaseLast();
  }
}
