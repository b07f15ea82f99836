/** The monotonic clock of clock/mono.cpp: a free-running 32-bit tick counter and
    an interrupt at every second boundary. */
module ClockMono {
  import opened Words
  import opened ClockUtil

  const CLK_NANOS := NANOS / CLK_FREQ

  /** The 32.32 time of absolute tick t, seconds modulo 2^32. */
  function Stamp(t: int): dword {
    U32(t / CLK_FREQ) * TWO32 + NanosToFrac(CLK_NANOS * (t % CLK_FREQ))
  }

  class MonoClock {
    var clkMonoInt: word
    var clkMonoOff: word
    var boundary: word             // TAMATCHR, the next boundary
    ghost var seconds: int       // boundaries serviced so far

    ghost predicate Valid()
      reads this
    {
      clkMonoInt == U32(seconds) && clkMonoOff == U32(seconds * CLK_FREQ)
      && boundary == U32((seconds + 1) * CLK_FREQ)
    }

    /** initClkMono() */
    constructor ()
      ensures Valid() && seconds == 0
    {
      clkMonoInt, clkMonoOff, boundary, seconds := 0, 0, CLK_FREQ, 0;
    }

    /** ISR_Timer0A() */
    method ServiceBoundary()
      requires Valid()
      modifies this
      ensures Valid() && seconds == old(seconds) + 1
    {
      hide U32;
      U32Add(seconds * CLK_FREQ, CLK_FREQ);
      U32Add(seconds, 1);
      U32Add((seconds + 1) * CLK_FREQ, CLK_FREQ);
      clkMonoOff := U32(clkMonoOff + CLK_FREQ);
      clkMonoInt := U32(clkMonoInt + 1);
      boundary := U32(clkMonoOff + CLK_FREQ);
      seconds := seconds + 1;
    }

    /** fromRaw(): for any tick within 2^31 of the last serviced boundary, before
        it or after it, however late the service. */
    method FromRaw(monoRaw: word, ghost t: int) returns (r: dword)
      requires Valid() && monoRaw == U32(t)
      requires -TWO31 <= t - seconds * CLK_FREQ < TWO31
      ensures r == Stamp(t)
    {
      hide U32, S32, NanosToFrac;
      var integer: word := clkMonoInt;
      var offset: word := clkMonoOff;
      ghost var s := seconds;
      WrappedDifference(t, s * CLK_FREQ);
      var ticks: int32 := S32(monoRaw - offset);
      while ticks < 0
        invariant ticks == t - s * CLK_FREQ && integer == U32(s) && ticks < TWO31
      {
        U32Add(s, -1);
        ticks := ticks + CLK_FREQ;
        integer := U32(integer - 1);
        s := s - 1;
      }
      while ticks >= CLK_FREQ
        invariant 0 <= ticks == t - s * CLK_FREQ && integer == U32(s)
      {
        U32Add(s, 1);
        ticks := ticks - CLK_FREQ;
        integer := U32(integer + 1);
        s := s + 1;
      }
      Quotient(t, s, ticks);
      r := integer * TWO32 + NanosToFrac(ticks * CLK_NANOS);
    }
  }

  lemma Quotient(t: int, s: int, ticks: int)
    requires t == s * CLK_FREQ + ticks && 0 <= ticks < CLK_FREQ
    ensures t / CLK_FREQ == s && t % CLK_FREQ == ticks
  {
  }

  /** Later ticks read later, until the seconds wrap. */
  lemma StampIncreases(t: int, u: int)
    requires 0 <= t < u < TWO32 * CLK_FREQ
    ensures Stamp(t) < Stamp(u)
  {
    hide NanosToFrac, U32;
    var a, b := t / CLK_FREQ, u / CLK_FREQ;
    U32Fits(a);
    U32Fits(b);
    if a == b {
      NanosToFracIncreases(CLK_NANOS * (t % CLK_FREQ), CLK_NANOS * (u % CLK_FREQ));
    }
  }

  /** The time is the tick count over the frequency, to within one unit. */
  lemma StampNear(t: int)
    requires 0 <= t < TWO32 * CLK_FREQ
    ensures -NANOS < Stamp(t) * NANOS - CLK_NANOS * t * TWO32 < NANOS
  {
    var q, m := t / CLK_FREQ, t % CLK_FREQ;
    U32Fits(q);
    NanosToFracNear(CLK_NANOS * m);
    hide NanosToFrac, U32;
    var f := NanosToFrac(CLK_NANOS * m);
    Quotient(t, q, m);
    Scaled(q, m, f);
  }

  lemma Scaled(q: int, m: int, f: int)
    ensures (q * TWO32 + f) * NANOS - CLK_NANOS * (q * CLK_FREQ + m) * TWO32 == f * NANOS - CLK_NANOS * m * TWO32
  {
  }
}
