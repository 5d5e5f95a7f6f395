# eg_queue in Dafny

eg_queue is a small C library for embedded targets. It provides a first-in,
first-out queue of fixed-size items, stored in a buffer the caller supplies.

An `eg_queue_t` object holds a control block with these fields:
- the buffer pointer;
- the slot size `item_size`;
- the number of slots `items_no`;
- the write index `head` and the read index `tail`;
- the fill count `used`;
- the high-water mark `max_used`.

Six operations act on the queue. Each returns an `eg_queue_error_e`:
- `eg_queue_init` binds the object to a buffer and empties it. It first checks that `items_no` slots of `item_size` bytes fit in `buf_size`.
- `eg_queue_put` copies an item into slot `head` and zero-fills the rest of the slot.
- `eg_queue_get_copy` copies slot `tail` out, then drops that item.
- `eg_queue_get_last` hands out the address of slot `tail`.
- `eg_queue_release_last` drops the item at slot `tail` without reading it.
- `eg_queue_get_max_used` reports the high-water mark.

The header calls the oldest item, the next one to leave, the "last" item.

The model has four modules:
- `EgQueueTypes` (eg_queue_h.dfy) holds the C integer types and the result enumeration with its numeric values.
- `Bytes` (bytes.dfy) models the storage as bytes:
  - `memcpy` and `memset` as methods over arrays, proved against the `Overwrite` function;
  - the layout of the slots;
  - the zero padding of a short item.
- `QueueControl` (control.dfy) models the control block as a value. It covers:
  - its invariant: `used <= items_no`, `used <= max_used <= items_no`, and `head == (tail + used) % items_no`;
  - the updates that a successful put, and a successful get_copy or release_last, make;
  - histories of calls, and what they do to the high-water mark.
- `EgQueue` (eg_queue.dfy) holds the rest:
  - the class `Queue`, whose fields are those of `eg_queue_ctx_s` with the storage as an `array`;
  - a ghost `Contents`, the queued items oldest first, each as the bytes of its slot;
  - `Valid()`, which ties `Contents` to the storage;
  - the six operations as methods;
  - client methods that chain them: the FIFO property and the zero-copy read.

The counters are `uint32` (0 to 2^32-1) and the bytes are `uint8`.
- The products `head * item_size` and `tail * item_size` stay below 2^32. `Valid()` requires `items_no * item_size < 2^32`, and the corrected init check guarantees this.
- The product in the init check at eg_queue.c:26 wraps around modulo 2^32, so the check as written can accept a geometry whose true size is 2^32 bytes or more. For such a geometry the slot offsets `head * item_size` (eg_queue.c:54) and `tail * item_size` (eg_queue.c:85, 107) wrap as well, and a put can write over another slot (see Findings).
- `EgQueue.Queue.Init` does not use `Mul32`: it compares the unbounded product (the corrected check). `Valid()` requires `SlotStart(itemsNo, itemSize) < UINT32_LIMIT`, which rules those geometries out, so no offset the operations compute wraps. The wrap-around is modelled on its own, by `Mul32`, `InitRejectsAsWritten` and `WrappedGuardAdmitsWrappingOffsets`, which describe the code as written.

## Model

| member | source | states |
|---|---|---|
| EgQueueTypes.Code | eg_queue.h:18-25 | each result code has the value C gives its enumerator in declaration order, and the value is 0 exactly for `EG_QUEUE_OK` |
| EgQueueTypes.StatusOf | eg_queue.h:18-25 | every value 0 to 4 is the code of the status it is read back as, so no two enumerators share a value |
| Bytes.Pad | eg_queue.c:54-56 | the slot written for an item of at most `item_size` bytes is `item_size` bytes long, starts with the item and is 0 in every byte after it |
| Bytes.Overwrite | eg_queue.c:55-56 | writing `v` at `off` keeps the length, puts `v` in `[off, off+|v|)` and keeps every byte before and after that range |
| Bytes.OverwriteAdjacent | eg_queue.c:55-56 | the `memcpy` of the item followed by the `memset` of the rest of the slot is one write of the two pieces joined |
| Bytes.SlotStartIsProduct | eg_queue.c:54 | the offset of slot `k` is `k * item_size` |
| Bytes.SlotsInOrder | eg_queue.c:54 | a lower slot ends at or before a higher one begins, so every slot lies in the first `items_no * item_size` bytes |
| Bytes.Slot | eg_queue.c:54 | slot `k` of `n` is the `item_size` bytes from offset `k * item_size`, and it lies inside the storage |
| Bytes.SlotAfterOverwrite | eg_queue.c:54-56 | writing slot `head` gives that slot the written bytes and leaves every other slot as it was |
| Bytes.CopyInto | eg_queue.c:55 | `memcpy` into an array: afterwards the array is its old contents with the source written at the offset |
| Bytes.ZeroFill | eg_queue.c:56 | `memset(…, 0, n)` into an array: afterwards the array is its old contents with `n` zeros written at the offset |
| QueueControl.Reset | eg_queue.c:31-35 | the block after init keeps the invariant, is empty, has high-water mark 0 and the requested geometry |
| QueueControl.Next | eg_queue.c:59-60 | `i++; i %= n` keeps the index below `n`, and wraps it to 0 exactly when it reaches `n` |
| QueueControl.Position | eg_queue.c:13-15 | the `i`-th oldest item is in slot `(tail + i) % items_no`, and `i == used` names slot `head`: the invariant is `head == (tail + used) % items_no` |
| QueueControl.Inv | eg_queue.c:11-16 | defines what holds between calls: `used <= items_no`, `used <= max_used <= items_no`, both indices below `items_no` (both 0 when there are no slots), and `head` is `tail + used` taken round the ring |
| QueueControl.Pushed | eg_queue.c:58-67 | the counter update of a successful put keeps the invariant and the geometry, leaves `tail` alone, adds one to `used` and raises `max_used` to `used` when it is lower |
| QueueControl.Popped | eg_queue.c:89-93 | the counter update of a successful get_copy or release_last keeps the invariant and the geometry, leaves `head` and `max_used` alone and takes one from `used` |
| QueueControl.PositionAfterPush | eg_queue.c:54-61 | a put does not move any queued item, and it never writes a slot that holds one |
| QueueControl.PositionAfterPop | eg_queue.c:89-93 | after a get, the `i`-th oldest item is the one that was `i+1`-th |
| QueueControl.Step | eg_queue.c:45-93 | any call keeps the invariant and the geometry, and the high-water mark after it is the larger of the old mark and the new fill count; a put on a full queue and a get on an empty one change nothing |
| QueueControl.Run | eg_queue.c:64-67 | over any history of calls the invariant and the geometry hold, and the high-water mark never goes down |
| QueueControl.MaxUsedIsPeak | eg_queue.c:64-67 | after any history, `max_used` is the larger of its starting value and the highest fill count reached |
| QueueControl.HighWaterMarkFromInit | eg_queue.h:80-82 | from init on, `max_used` is exactly the highest fill count the queue has had, and it lies between the current fill count and the capacity |
| QueueControl.FullStaysFull | eg_queue.c:45-48 | puts on a full queue leave the block as it was, however many are made |
| EgQueue.InitRejectsAsWritten | eg_queue.c:26 | defines the init check as written: reject when the `uint32_t` product `Mul32(item_size, items_no)` exceeds `buf_size` |
| EgQueue.Mul32 | eg_queue.c:26 | the `uint32_t` product is the true product whenever that is below 2^32 |
| EgQueue.GuardsAgreeWithoutWrap | eg_queue.c:26-29 | when the product does not wrap, the init check as written rejects exactly the geometries that do not fit |
| EgQueue.WrappedGuardAdmitsOversizedGeometry | eg_queue.c:26-29 | the check as written accepts 65536 slots of 65536 bytes in a 0-byte buffer, although slot 0 alone overruns it |
| EgQueue.WrappedGuardAdmitsWrappingOffsets | eg_queue.c:54 | the check as written accepts 2^31+1 slots of 2 bytes in a 2-byte buffer, and 2^31 is then a valid slot index whose `uint32_t` offset wraps to 0, the offset of slot 0 |
| EgQueue.FittingGeometryHoldsEverySlot | eg_queue.h:31-32 | with the unwrapped check, every slot lies inside the caller's buffer |
| EgQueue.OldestIsTailSlot | eg_queue.c:85 | the oldest queued item is the content of slot `tail`, which lies inside the storage |
| EgQueue.PushKeepsLayout | eg_queue.c:54-67 | writing the padded item into slot `head` and advancing the counters appends that item to the contents |
| EgQueue.PopKeepsLayout | eg_queue.c:89-93 | advancing `tail` drops the oldest item from the contents and leaves the storage alone |
| EgQueue.Queue.Valid | eg_queue.c:8-17 | defines a queue that init has bound to its storage: the counters keep `Inv`, the slots fit in the storage and in 32 bits, and the `i`-th oldest item of `Contents` is the content of slot `(tail + i) % items_no` |
| EgQueue.Queue.constructor | eg_queue.h:10-13 | an object that init has not been called on: it is not `Valid()`, so no operation but `Init` accepts it (its fields are set to null and 0 only to give them a value; in C an automatic `eg_queue_t` is indeterminate) |
| EgQueue.Queue.Init | eg_queue.c:22-38 | `ERR_BUFFER_SIZE` and no change when the slots do not fit in `buf_size`; otherwise the queue is bound to the buffer, empty, high-water mark 0, with the requested geometry |
| EgQueue.Queue.Put | eg_queue.c:40-70 | `ERR_FULL` is checked before `ERR_ITEM_SIZE`, and neither error changes the queue or the storage. On success the padded item overwrites slot `head` and only that slot, the counters make the `Pushed` step, and the item becomes the newest of the contents |
| EgQueue.Queue.GetCopy | eg_queue.c:72-96 | `ERR_ITEM_SIZE` for a buffer shorter than a slot is checked before `ERR_EMPTY`, and neither error changes anything. On success the first `buf_size` bytes of `buf` are those from the start of slot `tail`, the rest of `buf` is untouched, its first `item_size` bytes are the oldest item, and that item leaves the queue |
| EgQueue.Queue.GetLast | eg_queue.c:98-110 | `ERR_EMPTY` on an empty queue; otherwise the offset `tail * item_size` of a slot inside the storage that holds the oldest item; nothing changes either way |
| EgQueue.Queue.ReleaseLast | eg_queue.c:112-129 | `ERR_EMPTY` and no change on an empty queue; otherwise the same counter update and contents change as a successful get_copy |
| EgQueue.Queue.GetMaxUsed | eg_queue.c:131-136 | the high-water mark, which is at least the current fill count and at most the capacity |
| EgQueue.Queue.WriteSlot | eg_queue.c:54-56 | the storage afterwards is the old storage with the padded item written over slot `head` |
| EgQueue.Queue.AdvanceHead | eg_queue.c:58-67 | the head, fill count and high-water mark updates make the `Pushed` step, and they append the written slot to the contents |
| EgQueue.Queue.CopyOldest | eg_queue.c:85-87 | the copy out of slot `tail`: the buffer starts with the slot's bytes and the oldest item |
| EgQueue.Queue.AdvanceTail | eg_queue.c:89-93 | the tail and fill count updates make the `Popped` step and drop the oldest item |
| EgQueue.PutAll | eg_queue.c:40-70 | successive puts into a queue with room for them all succeed, and they append the padded items in order |
| EgQueue.GetAll | eg_queue.c:72-96 | successive get_copies into a slot-sized buffer all succeed while items remain, and they return the oldest items in order |
| EgQueue.PutAllThenGetAll | eg_queue.h:49-51 | first in, first out: the items put into an empty queue come back from get_copy in the order they were put, each zero-padded to the slot size |
| EgQueue.ReadInPlaceThenRelease | eg_queue.h:60-78 | get_last, a read of the slot in place, then release_last yields the oldest item and leaves the queue as a successful get_copy does |

## Left out

- Critical sections: `CRITICAL_SECTION_ENTER/EXIT` come from `eg_queue_cfg.h`, which is not part of this model. Every operation is modelled as running alone. The read-modify-write of `max_used` outside the critical section in put is not modelled.
- The storage of the context inside the opaque byte array `eg_queue_t` is left out. So are the `EG_QUEUE_OBJ_SIZE` constant and the compile-time assertion on its size. The context is a class.
- Raw pointers: the item passed to put is a sequence of bytes whose length is the `item_size` argument. It cannot overlap the storage.
- EgQueue.Queue.GetLast: the pointer is returned as a byte offset into the storage. The model does not capture that the pointer aliases a slot that a later put may overwrite.
- EgQueue.Queue.GetCopy: requires that the `buf_size` bytes it reads from slot `tail` lie inside the storage. The source reads them even when they do not, and reading past the end of the buffer is undefined behaviour in C. Within the storage, the model copies bytes of the following slots exactly as the source does. It also requires that `buf` is not the storage array at all. This excludes more than the source needs: only a destination that overlaps the slot being read is undefined for `memcpy`, while a destination elsewhere in the storage is defined in C but not modelled.
- EgQueue.Queue.Init: follows the corrected, unwrapped size check rather than the check as written (see Findings). It requires that the array passed really has `buf_size` bytes, which the header documents and the source cannot check. A null `items_buf` is excluded by the types.
- Calls on an object that init has not succeeded on are excluded by `Valid()`. The source does not guard against them.
- A put of an oversized item and a get_copy into a too-short buffer change nothing, so they are not events of `QueueControl.Run`.

## Findings

| source | as written | input that shows it | evidently intended | confidence | as-written member | corrected member |
|---|---|---|---|---|---|---|
| eg_queue.c:26 | `item_size * items_no` is computed in `uint32_t` and wraps modulo 2^32 before it is compared with `buf_size` | `buf_size = 0`, `item_size = 65536`, `items_no = 65536`: the product wraps to 0, init returns `EG_QUEUE_OK`, and the first put writes 65536 bytes into a 0-byte buffer. Likewise `buf_size = 2`, `item_size = 2`, `items_no = 2^31 + 1` is accepted (EgQueue.WrappedGuardAdmitsWrappingOffsets), and 2^31 is then a valid slot index whose offset `head * item_size` wraps to 0, the offset of slot 0 | reject every geometry whose true size `item_size * items_no` exceeds `buf_size` | not executed | EgQueue.WrappedGuardAdmitsOversizedGeometry | EgQueue.FittingGeometryHoldsEverySlot |

`EgQueue.Queue.Init` uses the corrected check: it compares the unbounded product. Every other operation relies on the fact this gives, namely that all slots lie within the buffer and their offsets fit in 32 bits.
