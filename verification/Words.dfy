/** Machine words and the optional value shared by every component of the model. */
module Words {

  const TWO64: int := 0x1_0000_0000_0000_0000
  const UINT64_MAX: u64 := 0xFFFF_FFFF_FFFF_FFFF
  const INT64_MAX: int := 0x7FFF_FFFF_FFFF_FFFF
  const INT64_MIN: int := -0x8000_0000_0000_0000

  /** An unsigned 64-bit word; arithmetic that may wrap is written with `Wrap`. */
  type u64 = x: int | 0 <= x < TWO64

  /** A signed 64-bit word. */
  type i64 = x: int | INT64_MIN <= x <= INT64_MAX

  datatype Option<+T> = None | Some(value: T)

  /** The value an unsigned 64-bit computation leaves for the exact integer `x`. */
  function Wrap(x: int): u64 {
    x % TWO64
  }

  /** Unsigned 64-bit addition. */
  function Plus(x: int, y: int): u64 {
    Wrap(x + y)
  }

  lemma PlusOne(x: int)
    ensures Plus(Wrap(x), 1) == Wrap(x + 1)
  {
  }

  lemma PlusWraps(x: int, y: int)
    ensures Plus(Wrap(x), y) == Wrap(x + y)
  {
    var q := x / TWO64;
    assert x + y == (Wrap(x) + y) + q * TWO64;
    WrapMultiple(Wrap(x) + y, q);
  }

  lemma WrapMultiple(x: int, k: int)
    ensures Wrap(x + k * TWO64) == Wrap(x)
  {
  }
}
