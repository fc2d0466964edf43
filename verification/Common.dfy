/** Result codes, constants and 32-bit arithmetic shared by all components (include/Common.h). */
module Common {
  datatype Result =
    | OK | ERROR | INVALID_PARAM | NOT_INITIALIZED | ALREADY_EXISTS
    | NOT_FOUND | BUFFER_FULL | TIMEOUT | PERMISSION_DENIED | OUT_OF_MEMORY

  datatype Option<+T> = None | Some(value: T)

  const UINT32_RANGE: nat := 0x1_0000_0000
  const UINT64_RANGE: nat := 0x1_0000_0000_0000_0000
  const MAX_PROCESS_COUNT: nat := 32

  /** Value of an unsigned 32-bit expression: arithmetic wraps around. */
  function U32(x: int): nat {
    x % UINT32_RANGE
  }

  function Min(a: int, b: int): int {
    if a < b then a else b
  }

  function Max(a: int, b: int): int {
    if a < b then b else a
  }

  function Reverse<T>(s: seq<T>): seq<T> {
    seq(|s|, i requires 0 <= i < |s| => s[|s| - 1 - i])
  }
}
