// Machine integers, written out on the unbounded ones.
module Integers {

  const TWO31: int := 0x8000_0000
  const TWO32: int := 0x1_0000_0000
  const TWO63: int := 0x8000_0000_0000_0000
  const TWO64: int := 0x1_0000_0000_0000_0000

  // uint64_t
  type Word = w: int | 0 <= w < TWO64

  function Signed32(w: int): int
    requires 0 <= w < TWO32
  {
    if w < TWO31 then w else w - TWO32
  }

  function Signed64(w: Word): int {
    if w < TWO63 then w else w - TWO64
  }

  // The unsigned 64-bit difference.
  function WrapSub(a: int, b: int): Word {
    (a - b) % TWO64
  }
}
