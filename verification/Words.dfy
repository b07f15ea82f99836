/** Machine words of the firmware's 32-bit target, as mathematical integers with
    explicit wrap-around: unsigned (U) and two's-complement signed (S) views. */
module Words {

  const TWO7 := 0x80
  const TWO8 := 0x100
  const TWO15 := 0x8000
  const TWO16 := 0x1_0000
  const TWO31 := 0x8000_0000
  const TWO32 := 0x1_0000_0000
  const TWO63 := 0x8000_0000_0000_0000
  const TWO64 := 0x1_0000_0000_0000_0000

  /** The system clock's ticks per second, which the tick counters count. */
  const CLK_FREQ := 125_000_000

  type byte = x: int | 0 <= x < TWO8
  type word = x: int | 0 <= x < TWO32
  type int32 = x: int | -TWO31 <= x < TWO31
  type dword = x: int | 0 <= x < TWO64
  type int64 = x: int | -TWO63 <= x < TWO63

  function U32(x: int): word {
    x % TWO32
  }

  function S32(x: int): int32 {
    var u := x % TWO32;
    if u < TWO31 then u else u - TWO32
  }

  function U64(x: int): dword {
    x % TWO64
  }

  function S64(x: int): int64 {
    var u := x % TWO64;
    if u < TWO63 then u else u - TWO64
  }

  /** The signed difference of two wrapped counters is exact while the counters
      themselves are less than half a turn apart. */
  lemma WrappedDifference(x: int, y: int)
    requires -TWO31 <= x - y < TWO31
    ensures S32(U32(x) - U32(y)) == x - y
  {
    assert x == x / TWO32 * TWO32 + x % TWO32;
    assert y == y / TWO32 * TWO32 + y % TWO32;
  }

  /** Whole turns do not show. */
  lemma U32Turns(z: int, q: int)
    ensures U32(z - q * TWO32) == U32(z)
  {
  }

  lemma U64Turns(z: int, q: int)
    ensures U64(z - q * TWO64) == U64(z)
  {
  }

  lemma U32Add(x: int, y: int)
    ensures U32(U32(x) + y) == U32(x + y)
    ensures U32(U32(x) - y) == U32(x - y)
    ensures U32(y - U32(x)) == U32(y - x)
  {
    var q := x / TWO32;
    assert U32(x) == x - q * TWO32;
    hide U32;
    U32Turns(x + y, q);
    U32Turns(x - y, q);
    U32Turns(y - x, -q);
  }

  lemma U64Add(x: int, y: int)
    ensures U64(U64(x) + y) == U64(x + y)
    ensures U64(y - U64(x)) == U64(y - x)
  {
    var q := x / TWO64;
    assert U64(x) == x - q * TWO64;
    hide U64;
    U64Turns(x + y, q);
    U64Turns(y - x, -q);
  }

  lemma U32Scale(x: int, k: int)
    ensures U32(U32(x) * k) == U32(x * k)
  {
    var q := x / TWO32;
    assert U32(x) == x - q * TWO32;
    assert U32(x) * k == x * k - (q * k) * TWO32;
    hide U32;
    U32Turns(x * k, q * k);
  }

  /** A word that fits is itself. */
  lemma U32Fits(x: int)
    requires 0 <= x < TWO32
    ensures U32(x) == x
  {
  }

  lemma U64Fits(x: int)
    requires 0 <= x < TWO64
    ensures U64(x) == x
  {
  }

  lemma S64Fits(x: int)
    requires -TWO63 <= x < TWO63
    ensures S64(x) == x
  {
  }
}
