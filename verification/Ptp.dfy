/** PTP timestamps and 32.32 fixed point, ptp/common.cpp. */
module Ptp {
  import opened Words
  import opened ClockUtil

  /** htonl(): the bytes of a word in reverse order. */
  function Swap(x: word): word {
    x % 0x100 * 0x100_0000 + x / 0x100 % 0x100 * 0x1_0000 + x / 0x1_0000 % 0x100 * 0x100 + x / 0x100_0000
  }

  /** The bytes of a word, from the lowest. */
  lemma Bytes(a: byte, b: byte, c: byte, d: byte)
    ensures var x := a + b * 0x100 + c * 0x1_0000 + d * 0x100_0000;
      x % 0x100 == a && x / 0x100 % 0x100 == b && x / 0x1_0000 % 0x100 == c && x / 0x100_0000 == d
  {
    var x := a + b * 0x100 + c * 0x1_0000 + d * 0x100_0000;
    assert x / 0x100 == b + c * 0x100 + d * 0x1_0000;
    assert x / 0x1_0000 == c + d * 0x100;
  }

  /** The lowest byte becomes the highest, and so on. */
  lemma SwapIs(a: byte, b: byte, c: byte, d: byte)
    ensures Swap(a + b * 0x100 + c * 0x1_0000 + d * 0x100_0000) == d + c * 0x100 + b * 0x1_0000 + a * 0x100_0000
  {
    Bytes(a, b, c, d);
  }

  lemma SwapTwice(x: word)
    ensures Swap(Swap(x)) == x
  {
    var a, b, c, d := x % 0x100, x / 0x100 % 0x100, x / 0x1_0000 % 0x100, x / 0x100_0000;
    assert x / 0x1_0000 == x / 0x100 / 0x100 && x / 0x100_0000 == x / 0x1_0000 / 0x100;
    assert x == a + b * 0x100 + c * 0x1_0000 + d * 0x100_0000;
    Bytes(d, c, b, a);
  }

  /** The timestamp of section 5.3.3 of IEEE 1588-2008, fields in network order. */
  datatype Timestamp = Timestamp(secondsHi: int, secondsLo: word, nanoseconds: word)

  /** toPtpTimestamp() */
  function ToPtp(ts: dword): Timestamp {
    Timestamp(0, Swap(ts / TWO32), Swap(U64(ts % TWO32 * NANOS) / TWO32))
  }

  /** fromPtpTimestamp() */
  function FromPtp(p: Timestamp): dword {
    Swap(p.secondsLo) * TWO32 + NanosToFrac(Swap(p.nanoseconds))
  }

  /** A proper timestamp within the seconds that 32 bits hold. */
  predicate Proper(p: Timestamp) {
    p.secondsHi == 0 && Swap(p.nanoseconds) < NANOS
  }

  lemma ToPtpIs(ts: dword)
    ensures var n := ts % TWO32 * NANOS / TWO32;
      n < NANOS && Proper(ToPtp(ts))
      && Swap(ToPtp(ts).secondsLo) == ts / TWO32 && Swap(ToPtp(ts).nanoseconds) == n
  {
    var f := ts % TWO32;
    assert 0 <= f * NANOS < TWO64;
    U64Fits(f * NANOS);
    SwapTwice(ts / TWO32);
    SwapTwice(f * NANOS / TWO32);
  }

  /** A timestamp that goes to fixed point and back keeps its seconds and loses
      no or one nanosecond. */
  lemma PtpRoundTrip(p: Timestamp)
    requires Proper(p)
    ensures var q := ToPtp(FromPtp(p));
      && Proper(q) && q.secondsLo == p.secondsLo
      && Swap(p.nanoseconds) - 1 <= Swap(q.nanoseconds) <= Swap(p.nanoseconds)
  {
    var s, n := Swap(p.secondsLo), Swap(p.nanoseconds);
    var ts := FromPtp(p);
    assert ts / TWO32 == s && ts % TWO32 == NanosToFrac(n);
    ToPtpIs(ts);
    NanosToFracNear(n);
    SwapTwice(p.secondsLo);
    SwapTwice(s);
  }

  /** A fixed-point time that goes to a timestamp and back keeps its seconds and
      lands at most five units in the last place early. */
  lemma FixedRoundTrip(ts: dword)
    ensures var r := FromPtp(ToPtp(ts));
      r / TWO32 == ts / TWO32 && 0 <= ts - r <= 5
  {
    ToPtpIs(ts);
    NanosToFracNear(ts % TWO32 * NANOS / TWO32);
    var r := FromPtp(ToPtp(ts));
    assert r / TWO32 == ts / TWO32;
  }
}
