/** The frequency-compensated clock of clock/comp.cpp. The state is followed
    without wrap-around in a ghost value, and the code's words are its residues. */
module ClockComp {
  import opened Words
  import opened ClockUtil

  /** Offset and reference unwrapped; offset plus rem / 2^32 is the exact sum of
      rate times elapsed time. */
  datatype Comp = Comp(off: int, ref: int, rate: int32, rem: word)

  /** Reads and updates come at most 2^31 units after the last update. */
  predicate InWindow(s: Comp, t: int) {
    0 <= t - s.ref < TWO31
  }

  /** What the clock shows at monotonic time t. */
  function Reading(s: Comp, t: int): int {
    t + s.off + High((t - s.ref) * s.rate)
  }

  function Updated(s: Comp, t: int): Comp {
    var x := (t - s.ref) * s.rate + s.rem;
    Comp(s.off + High(x), t, s.rate, x % TWO32)
  }

  function Trimmed(s: Comp, t: int, rate: int32): Comp {
    Updated(s, t).(rate := rate)
  }

  /** The exact correction so far, in units of 2^-32. */
  function Total(s: Comp): int {
    s.off * TWO32 + s.rem
  }

  lemma UpdateConserves(s: Comp, t: int)
    ensures Total(Updated(s, t)) == Total(s) + (t - s.ref) * s.rate
  {
  }

  /** An update steps the reading by nothing or by one unit up. */
  lemma UpdateSteps(s: Comp, t: int, rate: int32)
    ensures Reading(s, t) <= Reading(Trimmed(s, t, rate), t) <= Reading(s, t) + 1
    ensures Reading(Updated(s, t), t) == Reading(Trimmed(s, t, rate), t)
  {
    assert (t - t) * rate == 0;
  }

  /** Between updates the reading never falls, whatever the rate. */
  lemma ReadingRises(s: Comp, t: int, u: int)
    requires t <= u
    ensures Reading(s, t) <= Reading(s, u)
  {
    RateRises(t - s.ref, u - s.ref, s.rate);
    var a, b := (t - s.ref) * s.rate, (u - s.ref) * s.rate;
    FloorRises(t - s.ref, a, u - s.ref, b);
  }

  lemma RateRises(a: int, b: int, rate: int32)
    requires a <= b
    ensures a * TWO32 + a * rate <= b * TWO32 + b * rate
  {
    assert b * TWO32 + b * rate - (a * TWO32 + a * rate) == (b - a) * (TWO32 + rate);
  }

  lemma FloorRises(a: int, x: int, b: int, y: int)
    requires a * TWO32 + x <= b * TWO32 + y
    ensures a + High(x) <= b + High(y)
  {
  }

  // ----- runs

  datatype Ev = Read(t: int) | Update(t: int) | Trim(t: int, rate: int32)

  function After(s: Comp, e: Ev): Comp {
    match e
    case Read(_) => s
    case Update(t) => Updated(s, t)
    case Trim(t, rate) => Trimmed(s, t, rate)
  }

  /** Times never go back, and every event falls in the window. */
  predicate Legal(s: Comp, now: int, evs: seq<Ev>)
    decreases |evs|
  {
    evs == [] || (now <= evs[0].t && InWindow(s, evs[0].t) && Legal(After(s, evs[0]), evs[0].t, evs[1..]))
  }

  function Run(s: Comp, evs: seq<Ev>): Comp
    decreases |evs|
  {
    if evs == [] then s else Run(After(s, evs[0]), evs[1..])
  }

  /** The readings of a run, in order. */
  function Readings(s: Comp, evs: seq<Ev>): seq<int>
    decreases |evs|
  {
    if evs == [] then []
    else (if evs[0].Read? then [Reading(s, evs[0].t)] else []) + Readings(After(s, evs[0]), evs[1..])
  }

  /** The rate in force after a list of events: that of its last trim, or the start rate. */
  function RateAt(start: int32, evs: seq<Ev>): int32 {
    if evs == [] then start
    else if evs[|evs| - 1].Trim? then evs[|evs| - 1].rate
    else RateAt(start, evs[..|evs| - 1])
  }

  /** What a list of trims asks for up to a given time, in units of 2^-32: for each
      stretch between two trims its length times the rate that the first of them gave.
      Reads and updates do not matter. */
  function Asked(rate: int32, since: int, until: int, evs: seq<Ev>): int
    decreases |evs|
  {
    if evs == [] then (until - since) * rate
    else if evs[0].Trim? then (evs[0].t - since) * rate + Asked(evs[0].rate, evs[0].t, until, evs[1..])
    else Asked(rate, since, until, evs[1..])
  }

  /** The compensated clock never goes backwards. */
  lemma {:induction false} NeverBackwards(s: Comp, now: int, evs: seq<Ev>)
    requires Legal(s, now, evs)
    ensures forall i :: 0 <= i < |Readings(s, evs)| ==> Reading(s, now) <= Readings(s, evs)[i]
    ensures forall i, j :: 0 <= i <= j < |Readings(s, evs)| ==> Readings(s, evs)[i] <= Readings(s, evs)[j]
    decreases |evs|
  {
    if evs != [] {
      var e := evs[0];
      var s' := After(s, e);
      ReadingRises(s, now, e.t);
      NeverBackwards(s', e.t, evs[1..]);
      UpdateSteps(s, e.t, if e.Trim? then e.rate else s.rate);
      assert Reading(s, e.t) <= Reading(s', e.t);
    }
  }

  /** The rate that the clock runs at is the one last asked for. */
  lemma {:induction false} RateIsLast(s: Comp, evs: seq<Ev>)
    ensures Run(s, evs).rate == RateAt(s.rate, evs)
  {
    if evs != [] {
      var n := |evs| - 1;
      RunLast(s, evs);
      RateIsLast(s, evs[..n]);
    }
  }

  lemma {:induction false} RunLast(s: Comp, evs: seq<Ev>)
    requires evs != []
    ensures Run(s, evs) == After(Run(s, evs[..|evs| - 1]), evs[|evs| - 1])
    decreases |evs|
  {
    if |evs| == 1 {
      assert evs[1..] == [] && evs[..0] == [];
    } else {
      RunLast(After(s, evs[0]), evs[1..]);
      assert evs[1..][..|evs| - 2] == evs[..|evs| - 1][1..];
    }
  }

  /** From a trim to the next event the clock gains the rate that it was given, rounded
      down once. */
  lemma TrimTakesEffect(s: Comp, t: int, rate: int32, u: int)
    ensures var c := Trimmed(s, t, rate);
      Reading(c, u) == Reading(c, t) + (u - t) + (u - t) * rate / TWO32
  {
    assert (t - t) * rate == 0;
  }

  /** No rounding accumulates: over any run the offset and remainder, with the stretch
      since the last update, come to exactly what the trims asked for. */
  lemma {:induction false} RunConserves(s: Comp, evs: seq<Ev>, until: int)
    ensures var r := Run(s, evs);
      Total(r) + (until - r.ref) * r.rate == Total(s) + Asked(s.rate, s.ref, until, evs)
    decreases |evs|
  {
    if evs != [] {
      var e := evs[0];
      UpdateConserves(s, e.t);
      RunConserves(After(s, e), evs[1..], until);
      if e.Update? {
        AskedFrom(s.rate, s.ref, e.t, until, evs[1..]);
      }
    }
  }

  /** A stretch can be counted from a later time. */
  lemma {:induction false} AskedFrom(rate: int32, since: int, t: int, until: int, evs: seq<Ev>)
    ensures Asked(rate, since, until, evs) == (t - since) * rate + Asked(rate, t, until, evs)
    decreases |evs|
  {
    if evs == [] || evs[0].Trim? {
      var v := if evs == [] then until else evs[0].t;
      assert (v - since) * rate == (t - since) * rate + (v - t) * rate;
    } else {
      AskedFrom(rate, since, t, until, evs[1..]);
    }
  }

  /** The reading after any run: the time with what the trims asked for, rounded down,
      or one unit less, however many updates there were. */
  lemma ReadingIsAsked(s: Comp, evs: seq<Ev>, u: int)
    ensures var exact := u * TWO32 + s.off * TWO32 + s.rem + Asked(s.rate, s.ref, u, evs);
      0 <= exact - Reading(Run(s, evs), u) * TWO32 < 2 * TWO32
  {
    RunConserves(s, evs, u);
  }

  // ----- the 1 kHz output

  const INTERVAL := CLK_FREQ / 2000

  /** frqInc for a trim rate: interval in ticks, less one, scaled by 2^32. */
  function Increment(rate: int32): dword {
    U64(rate * -INTERVAL + (INTERVAL - 1) * TWO32)
  }

  lemma IncrementExact(rate: int32)
    ensures Increment(rate) == (INTERVAL - 1) * TWO32 - rate * INTERVAL
    ensures Increment(rate) < TWO64 - TWO32
  {
    hide U64;
    assert rate * -INTERVAL == -(rate * INTERVAL);
    IncrementBounds(rate);
    U64Fits((INTERVAL - 1) * TWO32 - rate * INTERVAL);
  }

  lemma IncrementBounds(rate: int32)
    ensures 0 <= (INTERVAL - 1) * TWO32 - rate * INTERVAL < TWO64 - TWO32
  {
    assert -(62_500 * TWO31) <= rate * 62_500 <= 62_500 * TWO31;
  }

  /** The reloads that ISR_Timer1A() writes for a list of increments. */
  function Reloads(incs: seq<dword>, rem: word): seq<word>
    decreases |incs|
  {
    if incs == [] then []
    else
      var scratch := U64(incs[0] + rem);
      [scratch / TWO32] + Reloads(incs[1..], U32(scratch))
  }

  function Remainder(incs: seq<dword>, rem: word): word
    decreases |incs|
  {
    if incs == [] then rem else Remainder(incs[1..], U32(U64(incs[0] + rem)))
  }

  function Sum(xs: seq<int>): int {
    if xs == [] then 0 else xs[0] + Sum(xs[1..])
  }

  /** Over any number of firings the reloads are the exact sum of the increments
      but for the remainder carried, so within one tick. */
  lemma {:induction false} ReloadsConserve(incs: seq<dword>, rem: word)
    requires forall i :: 0 <= i < |incs| ==> incs[i] < TWO64 - TWO32
    ensures Sum(Reloads(incs, rem)) * TWO32 + Remainder(incs, rem) == Sum(incs) + rem
    decreases |incs|
  {
    if incs != [] {
      U64Fits(incs[0] + rem);
      ReloadsConserve(incs[1..], U32(incs[0] + rem));
    }
  }

  // ----- the code

  class CompClock {
    var clkCompOffset: dword
    var clkCompRef: dword
    var clkCompRate: int32
    var clkCompRem: word
    var frqInc: dword
    var frqRem: word
    var reload: word          // TAILR of the output timer
    ghost var s: Comp

    ghost predicate Valid()
      reads this
    {
      clkCompOffset == U64(s.off) && clkCompRef == U64(s.ref) && clkCompRate == s.rate && clkCompRem == s.rem
    }

    constructor ()
      ensures Valid() && s == Comp(0, 0, 0, 0)
    {
      clkCompOffset, clkCompRef, clkCompRate, clkCompRem := 0, 0, 0, 0;
      frqInc, frqRem, reload := 0, 0, 0;
      s := Comp(0, 0, 0, 0);
    }

    /** runClkComp() */
    method RunClkComp(mono: dword, ghost t: int)
      requires Valid() && mono == U64(t) && InWindow(s, t)
      modifies this`clkCompOffset, this`clkCompRef, this`clkCompRem, this`s
      ensures Valid() && s == Updated(old(s), t)
    {
      hide U64, U32, S32, S64;
      Elapsed64(t, s.ref);
      CorrFracRemConserves(clkCompRate, t - s.ref, clkCompRem);
      var c := CorrFracRem(clkCompRate, S32(U32(U64(mono - clkCompRef))), clkCompRem);
      U64Add(s.off, c.offset);
      clkCompRef := mono;
      clkCompOffset := U64(clkCompOffset + c.offset);
      clkCompRem := c.rem;
      s := Updated(s, t);
    }

    /** setTrim() */
    method SetTrim(mono: dword, rate: int32, ghost t: int)
      requires Valid() && mono == U64(t) && InWindow(s, t)
      modifies this`clkCompOffset, this`clkCompRef, this`clkCompRem, this`clkCompRate, this`frqInc, this`s
      ensures Valid() && s == Trimmed(old(s), t, rate) && frqInc == Increment(rate)
    {
      hide U64, U32, S32, S64;
      Elapsed64(t, s.ref);
      CorrFracRemConserves(clkCompRate, t - s.ref, clkCompRem);
      var c := CorrFracRem(clkCompRate, S32(U32(U64(mono - clkCompRef))), clkCompRem);
      U64Add(s.off, c.offset);
      var offset: dword := U64(clkCompOffset + c.offset);
      var incr: dword := Increment(rate);
      clkCompRem := c.rem;
      clkCompRate := rate;
      clkCompRef := mono;
      clkCompOffset := offset;
      frqInc := incr;
      s := Trimmed(s, t, rate);
    }

    /** now() */
    method Now(mono: dword, ghost t: int) returns (r: dword)
      requires Valid() && mono == U64(t) && InWindow(s, t)
      ensures r == U64(Reading(s, t))
    {
      hide U64, U32, S32, S64;
      Elapsed64(t, s.ref);
      ProductBound(t - s.ref, clkCompRate, TWO31, TWO31);
      var scratch: int := S64(S32(U64(mono - clkCompRef)) * clkCompRate);
      S64Fits((t - s.ref) * s.rate);
      HighFits((t - s.ref) * s.rate);
      r := U64(U64(mono + clkCompOffset) + S32(scratch / TWO32));
      Sum3(t, s.off, High((t - s.ref) * s.rate));
    }

    /** fromMono(): inside the window after an update it is now(). */
    method FromMono(ts: dword, ghost t: int) returns (r: dword)
      requires Valid() && ts == U64(t) && -TWO63 < t - s.ref < TWO63
      ensures var x := (t - s.ref) * s.rate;
        r == U64(t + s.off + if t < s.ref then -High(-x) else High(x))
      ensures InWindow(s, t) ==> r == U64(Reading(s, t))
    {
      hide U64, U32, S32, S64, High, CorrValue;
      Elapsed63(t, s.ref);
      CorrValueExact(clkCompRate, t - s.ref);
      var c: int := CorrValue(clkCompRate, S64(U64(ts - clkCompRef)));
      assert -((t - s.ref) * s.rate) == -(t - s.ref) * s.rate;
      r := U64(U64(ts + c) + clkCompOffset);
      U64Add(t, c);
      U64Add(t + c, clkCompOffset);
      U64Add(s.off, t + c);
    }

    /** ISR_Timer1A() */
    method ServiceOutput()
      modifies this`frqRem, this`reload
      // the whole increment goes on, in ticks and their fractions
      ensures frqInc + old(frqRem) < TWO64 ==> reload * TWO32 + frqRem == frqInc + old(frqRem)
      ensures [reload] == Reloads([frqInc], old(frqRem)) && frqRem == Remainder([frqInc], old(frqRem))
    {
      var scratch: dword := U64(frqInc + frqRem);
      frqRem := U32(scratch);
      reload := scratch / TWO32;
    }
  }

  /** A difference of wrapped times within the window, through the casts. */
  lemma Elapsed64(t: int, r: int)
    requires -TWO31 <= t - r < TWO31
    ensures S32(U32(U64(U64(t) - U64(r)))) == t - r
    ensures S32(U64(U64(t) - U64(r))) == t - r
  {
    U64Add(t, 0 - U64(r));
    U64Add(r, t);
    Narrowed(t - r);
  }

  lemma Narrowed(x: int)
    requires -TWO31 <= x < TWO31
    ensures S32(U32(U64(x))) == x && S32(U64(x)) == x
  {
  }

  lemma HighFits(x: int)
    requires -0x4000_0000_0000_0000 <= x <= 0x4000_0000_0000_0000
    ensures S32(x / TWO32) == High(x)
  {
  }

  lemma Sum3(a: int, b: int, c: int)
    ensures U64(U64(U64(a) + U64(b)) + c) == U64(a + b + c)
  {
    U64Add(a, U64(b));
    U64Add(b, a);
    U64Add(a + b, c);
  }

  lemma Elapsed63(t: int, r: int)
    requires -TWO63 <= t - r < TWO63
    ensures S64(U64(U64(t) - U64(r))) == t - r
  {
    U64Add(t, 0 - U64(r));
    U64Add(r, t);
  }
}
