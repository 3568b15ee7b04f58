/** Bytes and the few characters mail encoding singles out. */
module Bytes {
  type byte = n: int | 0 <= n < 256

  type bytes = seq<byte>

  const CR: byte := 13
  const LF: byte := 10
  const SP: byte := 32
  const TAB: byte := 9
  const EQ: byte := 61

  const CRLF: bytes := [13, 10]

  predicate IsBlank(c: byte) {
    c == SP || c == TAB
  }
}
