// The public interface of the queue: the C integer types it is written in
// and the result codes every operation returns (eg_queue.h).
module EgQueueTypes {

  /** One more than the largest `uint32_t`. */
  const UINT32_LIMIT: int := 0x1_0000_0000

  type uint8 = x: int | 0 <= x < 0x100
  type uint32 = x: int | 0 <= x < UINT32_LIMIT

  /** `eg_queue_error_e`, in declaration order. */
  datatype Status = Ok | ErrFull | ErrEmpty | ErrBufferSize | ErrItemSize

  /** The numeric value C gives each enumerator: 0 for OK, then 1, 2, 3, 4. */
  function Code(s: Status): (c: uint32)
    ensures c < 5
    ensures (c == 0) == s.Ok?
  {
    match s
    case Ok => 0
    case ErrFull => 1
    case ErrEmpty => 2
    case ErrBufferSize => 3
    case ErrItemSize => 4
  }

  /** Reads a C return value back as a status; values outside the enum are none. */
  function StatusOf(c: uint32): (s: Status)
    requires c < 5
    ensures Code(s) == c
  {
    if c == 0 then Ok
    else if c == 1 then ErrFull
    else if c == 2 then ErrEmpty
    else if c == 3 then ErrBufferSize
    else ErrItemSize
  }

  /** Distinct enumerators have distinct codes, so a code names one status. */
  lemma CodeRoundTrip(s: Status)
    ensures StatusOf(Code(s)) == s
  {
  }
}
