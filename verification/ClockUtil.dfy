/** The fixed-point helpers of clock/util.cpp, with the widths of the code. */
module ClockUtil {
  import opened Words

  const NANOS := 1_000_000_000
  /** The fractional part of 2^32 / 10^9, scaled by 2^32. */
  const FRAC := 0x12E0BE82

  /** Division by 2^32 rounding down: an arithmetic shift right by 32. */
  function High(x: int): int {
    x / TWO32
  }

  /** nanosToFrac() */
  function NanosToFrac(nanos: word): word {
    var n := U32(nanos * 4);
    var correction := U64(n * FRAC);
    var m := U32(n + U32(correction) / TWO31);
    U32(m + correction / TWO32)
  }

  /** The result without wrap-around: 2^32 n / 10^9 to the nearest of the scaled
      constant. */
  function Fraction(nanos: nat): nat {
    4 * nanos + (4 * nanos * FRAC + TWO31) / TWO32
  }

  lemma NanosToFracExact(nanos: nat)
    requires nanos < NANOS
    ensures NanosToFrac(nanos) == Fraction(nanos) < TWO32
  {
    var n := 4 * nanos;
    var c := n * FRAC;
    assert c < TWO64 && Fraction(nanos) < TWO32;
    HalfUp(c);
    hide U32, U64;
    U32Fits(n);
    U64Fits(c);
    U32Add(n + U32(c) / TWO31, c / TWO32);
    U32Fits(Fraction(nanos));
  }

  /** Rounding to nearest by adding the bit below. */
  lemma HalfUp(c: nat)
    ensures (c + TWO31) / TWO32 == c / TWO32 + U32(c) / TWO31
  {
  }

  /** Within one unit in the last place, and strictly increasing. */
  lemma NanosToFracNear(nanos: nat)
    requires nanos < NANOS
    ensures -NANOS < NanosToFrac(nanos) * NANOS - nanos * TWO32 < NANOS
  {
    NanosToFracExact(nanos);
  }

  lemma NanosToFracIncreases(m: nat, n: nat)
    requires m < n < NANOS
    ensures NanosToFrac(m) < NanosToFrac(n)
  {
    NanosToFracExact(m);
    NanosToFracExact(n);
  }

  // ----- corrFracRem()

  datatype Correction = Correction(offset: int32, rem: word)

  /** corrFracRem(): the adjustment and the new remainder. */
  function CorrFracRem(rate: int32, delta: int32, rem: word): Correction {
    var scratch := S64(S64(delta * rate) + rem);
    Correction(S32(scratch / TWO32), U32(scratch))
  }

  lemma ProductBound(x: int, y: int, a: int, b: int)
    requires -a <= x <= a && -b <= y <= b
    ensures -(a * b) <= x * y <= a * b
  {
    if 0 <= x {
      assert -(x * b) <= x * y <= x * b;
      assert x * b <= a * b;
    } else {
      assert x * b <= x * y <= -x * b;
      assert -x * b <= a * b;
    }
  }

  lemma SplitExact(x: int, rem: word)
    requires -0x4000_0000_0000_0000 <= x <= 0x4000_0000_0000_0000
    ensures var scratch := S64(S64(x) + rem);
      && scratch == x + rem && S32(scratch / TWO32) == High(x + rem)
      && High(x + rem) * TWO32 + U32(scratch) == x + rem
  {
    assert S64(x) == x && S64(x + rem) == x + rem;
  }

  /** Nothing is lost: quotient and remainder together are the exact sum. */
  lemma CorrFracRemConserves(rate: int32, delta: int32, rem: word)
    ensures var r := CorrFracRem(rate, delta, rem);
      && r.offset * TWO32 + r.rem == delta * rate + rem
      && r.offset == High(delta * rate + rem)
  {
    hide S64, S32, U32, High;
    ProductBound(delta, rate, TWO31, TWO31);
    SplitExact(delta * rate, rem);
  }

  // ----- corrValue()

  /** corrValue(): the product of high and low words, in unsigned arithmetic. */
  function CorrValue(rate: int32, delta: int64): int64 {
    var neg := delta < 0;
    var d: int := if neg then S64(-(delta as int)) else delta;
    var scratch: int := U64(U32(d / TWO32) * U64(rate));
    var frac: int := U64(U32(d) * U64(rate));
    var sum: int := U64(scratch + S32(frac / TWO32));
    S64(if neg then U64(0 - sum) else sum)
  }

  /** Multiplying by a sign-extended factor, modulo 2^64. */
  lemma SignExtendedProduct(x: int, rate: int32)
    ensures U64(x * U64(rate)) == U64(x * rate)
  {
    if rate < 0 {
      assert U64(rate) == rate + TWO64;
      assert x * (rate + TWO64) == x * rate + x * TWO64;
      assert (x * rate + x * TWO64) % TWO64 == (x * rate) % TWO64;
    }
  }

  /** The high word of a 64-bit product, read as signed, is the floor. */
  lemma SignedHigh(p: int)
    requires -TWO63 <= p < TWO63
    ensures S32(U64(p) / TWO32) == High(p)
  {
    if p < 0 {
      assert U64(p) == p + TWO64;
      assert (p + TWO64) / TWO32 == p / TWO32 + TWO32;
    }
  }

  lemma Reassemble(f: int)
    requires -TWO63 < f < TWO63
    ensures S64(U64(f)) == f && S64(U64(0 - U64(f))) == -f
  {
    SignedBack(f);
    SignedBack(-f);
    hide S64, U64;
    U64Add(f, 0);
  }

  lemma SignedBack(f: int)
    requires -TWO63 < f < TWO63
    ensures S64(U64(f)) == f
  {
    if f < 0 {
      U64Turns(f + TWO64, 1);
      U64Fits(f + TWO64);
    } else {
      U64Fits(f);
    }
    hide U64;
    U64Fits(U64(f));
  }

  /** The two partial products make the whole one, rounded down. */
  lemma SplitProduct(d: int, rate: int32)
    requires 0 <= d < TWO63
    ensures High(d * rate) == d / TWO32 * rate + High(d % TWO32 * rate)
    ensures -TWO63 < High(d * rate) < TWO63
    ensures -TWO63 <= d % TWO32 * rate < TWO63
  {
    var hi, lo := d / TWO32, d % TWO32;
    assert 0 <= hi < TWO31 && d == hi * TWO32 + lo;
    assert d * rate == hi * rate * TWO32 + lo * rate;
    ProductBound(lo, rate, TWO32 - 1, TWO31);
    ProductBound(hi, rate, TWO31, TWO31);
    ShiftOut(hi * rate, lo * rate);
  }

  lemma ShiftOut(a: int, b: int)
    ensures High(a * TWO32 + b) == a + High(b)
  {
  }

  /** For every rate and every delta but the least, the split product is the
      magnitude's product rounded down, with the sign of delta. */
  lemma CorrValueExact(rate: int32, delta: int64)
    requires delta != -TWO63
    ensures CorrValue(rate, delta) == if delta < 0 then -High(-(delta as int) * rate) else High(delta * rate)
  {
    var d: int := if delta < 0 then -(delta as int) else delta;
    hide High, S64, S32, U64;
    S64Fits(d);
    SplitProduct(d, rate);
    var hi, lo := d / TWO32, d % TWO32;
    U32Fits(hi);
    assert U32(d) == lo;
    hide U32;
    SignExtendedProduct(hi, rate);
    SignExtendedProduct(lo, rate);
    SignedHigh(lo * rate);
    U64Add(hi * rate, High(lo * rate));
    Reassemble(High(d * rate));
  }
}
