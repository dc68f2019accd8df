/** The usual optional and fallible results, plus the fixed-width integers the program stores. */
module Wrappers {

  datatype Option<+T> = None | Some(value: T)

  datatype Result<+T, +E> = Ok(value: T) | Err(error: E)

  type U8 = x: int | 0 <= x < 0x100

  type Bytes = seq<U8>

  type U32 = x: int | 0 <= x < 0x1_0000_0000

  /** A point in time, in nanoseconds since the epoch. */
  type Instant = int

  /** Division that rounds toward zero, as machine integers divide. */
  function TruncDiv(x: int, d: int): int
    requires d > 0
  {
    if x >= 0 then x / d else -((-x) / d)
  }

  lemma TruncDivMonotone(x: int, y: int, d: int)
    requires d > 0 && x <= y
    ensures TruncDiv(x, d) <= TruncDiv(y, d)
  {
    if x >= 0 {
      DivMonotone(x, y, d);
    } else if y < 0 {
      DivMonotone(-y, -x, d);
    } else {
      assert (-x) / d >= 0 && y / d >= 0 by {
        DivMonotone(0, -x, d);
        DivMonotone(0, y, d);
      }
    }
  }

  lemma DivMonotone(x: int, y: int, d: int)
    requires d > 0 && 0 <= x <= y
    ensures x / d <= y / d
  {
    calc {
      d * (x / d);
    <=
      x;
    <=
      y;
    <
      d * (y / d) + d;
    ==
      d * (y / d + 1);
    }
  }
}
