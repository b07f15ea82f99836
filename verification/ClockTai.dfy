/** The TAI clock of clock/tai.cpp, disciplined on top of the compensated clock. */
module ClockTai {
  import opened Words
  import opened ClockUtil
  import opened ClockComp

  /** Offset and reference unwrapped; the reference is in the compensated domain. */
  datatype Tai = Tai(off: int, ref: int, rate: int32, rem: word)

  /** Both stages are within reach of their last updates, before or after them. */
  predicate InReach(c: Comp, a: Tai, t: int) {
    -TWO31 <= t - c.ref < TWO31 && -TWO31 <= Reading(c, t) - a.ref < TWO31
  }

  /** The exact two-stage correction at time t, in units of 2^-32. */
  function Fine(c: Comp, a: Tai, t: int): int {
    (t - c.ref) * c.rate + (Reading(c, t) - a.ref) * a.rate
  }

  /** What the clock shows: both corrections are rounded down once, together. */
  function TaiReading(c: Comp, a: Tai, t: int): int {
    t + c.off + a.off + High(Fine(c, a, t))
  }

  // ----- fromMono()

  /** A correction rounded towards the update that it is counted from. */
  function Rounded(x: int, elapsed: int): int {
    if elapsed < 0 then -High(-x) else High(x)
  }

  /** The two stages of fromMono(). */
  function CompAt(c: Comp, t: int): int {
    t + c.off + Rounded((t - c.ref) * c.rate, t - c.ref)
  }

  function TaiAt(c: Comp, a: Tai, t: int): int {
    var y := CompAt(c, t);
    y + a.off + Rounded((y - a.ref) * a.rate, y - a.ref)
  }

  /** How far fromMono() is from now(), by the side of the two updates that it is on:
      rounding each stage by itself costs at most three units. */
  lemma FromMonoDistance(c: Comp, a: Tai, t: int)
    ensures var d := TaiAt(c, a, t) - TaiReading(c, a, t);
      && -1 <= d <= 3
      && (t >= c.ref && CompAt(c, t) >= a.ref ==> d <= 0)
      && (t >= c.ref && CompAt(c, t) < a.ref ==> 0 <= d <= 1)
      && (t < c.ref && CompAt(c, t) >= a.ref ==> d <= 2)
      && (t < c.ref && CompAt(c, t) < a.ref ==> 0 <= d)
  {
    var x, y0, y := (t - c.ref) * c.rate, Reading(c, t), CompAt(c, t);
    Ceiling(x);
    assert 0 <= y - y0 <= 1 && (y - y0 == 1 ==> t < c.ref && x % TWO32 > 0);
    var z := (y0 - a.ref) * a.rate;
    assert (y - a.ref) * a.rate == z + (y - y0) * a.rate by {
      assert (y - a.ref) * a.rate == (y0 - a.ref) * a.rate + (y - y0) * a.rate;
    }
    assert Fine(c, a, t) == x + z;
    CarriedOnce(x, z);
    StagesApart(z, if y == y0 then 0 else a.rate, x % TWO32);
    assert (y - y0) * a.rate == if y == y0 then 0 else a.rate;
    Ceiling((y - a.ref) * a.rate);
  }

  /** Both ends of that range are met. */
  lemma FromMonoFarthest()
    ensures var c, a := Comp(0, 0, -1_146_393_543, 0), Tai(0, -1, 759_558_717, 0);
      TaiAt(c, a, 5) - TaiReading(c, a, 5) == -1
    ensures var c, a := Comp(0, 0, -87_197_115, 0), Tai(0, 3, 2_017_570_086, 0);
      TaiAt(c, a, -2) - TaiReading(c, a, -2) == 3
  {
  }

  lemma Ceiling(x: int)
    ensures -High(-x) == High(x) + if x % TWO32 > 0 then 1 else 0
  {
  }

  lemma StagesApart(z: int, r: int, f: int)
    requires -TWO31 <= r < TWO31 && 0 <= f < TWO32
    ensures var lo, hi := High(z + r), -High(-(z + r));
      && (r == 0 ==> -1 <= lo - High(z + f) <= 0 && 0 <= hi - High(z + f) <= 1)
      && (f > 0 ==> -2 <= lo - High(z + f) <= 1 && -1 <= hi - High(z + f) <= 2)
  {
  }

  /** runClkTai() at compensated time y. */
  function TaiUpdated(a: Tai, y: int): Tai {
    var x := (y - a.ref) * a.rate + a.rem;
    Tai(a.off + High(x), y, a.rate, x % TWO32)
  }

  function TaiTrimmed(a: Tai, y: int, trim: int32): Tai {
    TaiUpdated(a, y).(rate := trim)
  }

  /** Carrying the first remainder into the second correction. */
  lemma CarriedOnce(x: int, y: int)
    ensures High(x) + High(y + x % TWO32) == High(x + y)
  {
  }

  /** An update moves the clock by at most one unit either way, whatever trim it
      sets. */
  lemma TaiUpdateSteps(c: Comp, a: Tai, t: int, trim: int32)
    ensures var y := Reading(c, t);
      -1 <= TaiReading(c, TaiTrimmed(a, y, trim), t) - TaiReading(c, a, t) <= 1
    ensures TaiUpdated(a, Reading(c, t)).rate == a.rate
  {
    var y := Reading(c, t);
    var x, z := (t - c.ref) * c.rate, (y - a.ref) * a.rate;
    assert (y - y) * trim == 0;
    CarriedOnce(x, z);
  }

  lemma TaiUpdateConserves(a: Tai, y: int)
    ensures var b := TaiUpdated(a, y);
      b.off * TWO32 + b.rem == a.off * TWO32 + a.rem + (y - a.ref) * a.rate
  {
  }

  /** Between updates the TAI clock never falls, for any two rates. */
  lemma TaiRises(c: Comp, a: Tai, t: int, u: int)
    requires t <= u
    ensures TaiReading(c, a, t) <= TaiReading(c, a, u)
  {
    if t < u {
      var x, x' := (t - c.ref) * c.rate, (u - c.ref) * c.rate;
      var y, y' := Reading(c, t), Reading(c, u);
      ReadingRises(c, t, u);
      assert x' - x == (u - t) * c.rate;
      ProductBound2(u - t, c.rate);
      StageRises(t, x, u, x', y' - y);
      assert (y' - a.ref) * a.rate - (y - a.ref) * a.rate == (y' - y) * a.rate;
      ProductBound2(y' - y, a.rate);
      FloorRises(t, Fine(c, a, t), u, Fine(c, a, u));
    }
  }

  lemma ProductBound2(n: int, rate: int32)
    requires 0 <= n
    ensures n * rate >= -n * TWO31
  {
  }

  /** The first stage gains at least half of what its reading gains. */
  lemma StageRises(t: int, x: int, u: int, x': int, r: int)
    requires t < u && x' - x >= -(u - t) * TWO31
    requires r == u + High(x') - t - High(x)
    ensures (u - t) * TWO32 + x' - x >= r * TWO31
  {
  }

  /** An update or trim of the compensated clock, which drops the remainder that the TAI
      reading carries, moves that reading by one unit down to two up. */
  lemma CompUpdateSteps(c: Comp, a: Tai, t: int, rate: int32)
    ensures -1 <= TaiReading(Trimmed(c, t, rate), a, t) - TaiReading(c, a, t) <= 2
  {
    var d := Trimmed(c, t, rate);
    var x, y, y' := (t - c.ref) * c.rate, Reading(c, t), Reading(d, t);
    assert (t - t) * rate == 0;
    RemainderAdds(x, c.rem);
    assert 0 <= y' - y <= 1 && (y' - y == 1 ==> x % TWO32 > 0);
    var z := (y - a.ref) * a.rate;
    assert (y' - a.ref) * a.rate == z + (y' - y) * a.rate by {
      assert (y' - a.ref) * a.rate == (y - a.ref) * a.rate + (y' - y) * a.rate;
    }
    assert (y' - y) * a.rate == if y' == y then 0 else a.rate;
    CarriedOnce(x, z);
    StagesApart(z, if y' == y then 0 else a.rate, x % TWO32);
  }

  lemma RemainderAdds(x: int, rem: word)
    ensures 0 <= High(x + rem) - High(x) <= 1
    ensures High(x + rem) > High(x) ==> x % TWO32 > 0
  {
  }

  // ----- runs

  datatype TaiEv =
    | TaiRead(t: int)
    | CompUpdate(t: int)
    | CompTrim(t: int, rate: int32)
    | TaiUpdate(t: int)
    | TaiTrim(t: int, rate: int32)
    | Adjusted(t: int, delta: int64)

  datatype Clocks = Clocks(comp: Comp, tai: Tai)

  function Afterwards(s: Clocks, e: TaiEv): Clocks {
    match e
    case TaiRead(_) => s
    case CompUpdate(t) => s.(comp := Updated(s.comp, t))
    case CompTrim(t, rate) => s.(comp := Trimmed(s.comp, t, rate))
    case TaiUpdate(t) => s.(tai := TaiUpdated(s.tai, Reading(s.comp, t)))
    case TaiTrim(t, rate) => s.(tai := TaiTrimmed(s.tai, Reading(s.comp, t), rate))
    case Adjusted(_, delta) => s.(tai := s.tai.(off := s.tai.off + delta))
  }

  function TaiRun(s: Clocks, evs: seq<TaiEv>): Clocks
    decreases |evs|
  {
    if evs == [] then s else TaiRun(Afterwards(s, evs[0]), evs[1..])
  }

  predicate InTime(now: int, evs: seq<TaiEv>)
    decreases |evs|
  {
    evs == [] || (now <= evs[0].t && InTime(evs[0].t, evs[1..]))
  }

  function EndTime(now: int, evs: seq<TaiEv>): int {
    if evs == [] then now else evs[|evs| - 1].t
  }

  /** How far an event can set the clock back. */
  function Setback(e: TaiEv): int {
    match e
    case TaiRead(_) => 0
    case Adjusted(_, delta) => 0 - delta
    case _ => 1
  }

  function Setbacks(evs: seq<TaiEv>): int
    decreases |evs|
  {
    if evs == [] then 0 else Setback(evs[0]) + Setbacks(evs[1..])
  }

  /** One event, at its own time. */
  lemma EventSets(s: Clocks, e: TaiEv)
    ensures TaiReading(Afterwards(s, e).comp, Afterwards(s, e).tai, e.t) >= TaiReading(s.comp, s.tai, e.t) - Setback(e)
  {
    match e {
      case TaiRead(_) =>
      case CompUpdate(t) => CompUpdateSteps(s.comp, s.tai, t, s.comp.rate);
      case CompTrim(t, rate) => CompUpdateSteps(s.comp, s.tai, t, rate);
      case TaiUpdate(t) => TaiUpdateSteps(s.comp, s.tai, t, s.tai.rate);
      case TaiTrim(t, rate) => TaiUpdateSteps(s.comp, s.tai, t, rate);
      case Adjusted(_, _) =>
    }
  }

  /** Over any mix of reads, updates, trims of both stages and steps, the TAI clock goes
      back by no more than one unit for each update and what the steps take. */
  lemma {:induction false} NeverFarBack(s: Clocks, now: int, evs: seq<TaiEv>)
    requires InTime(now, evs)
    ensures var r := TaiRun(s, evs);
      TaiReading(r.comp, r.tai, EndTime(now, evs)) >= TaiReading(s.comp, s.tai, now) - Setbacks(evs)
    decreases |evs|
  {
    if evs != [] {
      var e := evs[0];
      var s' := Afterwards(s, e);
      hide TaiReading, Afterwards, Setback;
      TaiRises(s.comp, s.tai, now, e.t);
      EventSets(s, e);
      NeverFarBack(s', e.t, evs[1..]);
      assert EndTime(e.t, evs[1..]) == EndTime(now, evs);
    }
  }

  /** What the compensated clock sees of a run. */
  function CompEvents(evs: seq<TaiEv>): seq<Ev>
    decreases |evs|
  {
    if evs == [] then []
    else
      var rest := CompEvents(evs[1..]);
      match evs[0]
      case CompUpdate(t) => [Update(t)] + rest
      case CompTrim(t, rate) => [Trim(t, rate)] + rest
      case _ => rest
  }

  /** What the TAI trims and steps ask for up to a given time, in units of 2^-32: for each
      stretch between two TAI trims what the compensated clock showed it to last, times the
      rate that the first of them gave. TAI reads and updates do not matter. */
  function TaiAsked(c: Comp, rate: int32, since: int, until: int, evs: seq<TaiEv>): int
    decreases |evs|
  {
    if evs == [] then (Reading(c, until) - since) * rate
    else
      match evs[0]
      case TaiRead(_) => TaiAsked(c, rate, since, until, evs[1..])
      case CompUpdate(t) => TaiAsked(After(c, Update(t)), rate, since, until, evs[1..])
      case CompTrim(t, r) => TaiAsked(After(c, Trim(t, r)), rate, since, until, evs[1..])
      case TaiUpdate(_) => TaiAsked(c, rate, since, until, evs[1..])
      case TaiTrim(t, r) =>
        (Reading(c, t) - since) * rate + TaiAsked(c, r, Reading(c, t), until, evs[1..])
      case Adjusted(_, delta) => delta * TWO32 + TaiAsked(c, rate, since, until, evs[1..])
  }

  /** The compensated clock runs by itself. */
  lemma {:induction false} CompRunsAlone(s: Clocks, evs: seq<TaiEv>)
    ensures TaiRun(s, evs).comp == Run(s.comp, CompEvents(evs))
    decreases |evs|
  {
    if evs != [] {
      CompRunsAlone(Afterwards(s, evs[0]), evs[1..]);
      assert forall e: Ev :: ([e] + CompEvents(evs[1..]))[1..] == CompEvents(evs[1..]);
    }
  }

  /** A stretch can be counted from a later time. */
  lemma {:induction false} TaiAskedFrom(c: Comp, rate: int32, since: int, y: int, until: int, evs: seq<TaiEv>)
    ensures TaiAsked(c, rate, since, until, evs) == (y - since) * rate + TaiAsked(c, rate, y, until, evs)
    decreases |evs|
  {
    if evs == [] || evs[0].TaiTrim? {
      var v := Reading(c, if evs == [] then until else evs[0].t);
      assert (v - since) * rate == (y - since) * rate + (v - y) * rate;
    } else {
      var c' := match evs[0] {
        case CompUpdate(t) => Updated(c, t)
        case CompTrim(t, r) => Trimmed(c, t, r)
        case _ => c
      };
      TaiAskedFrom(c', rate, since, y, until, evs[1..]);
    }
  }

  /** No rounding accumulates: over any run the TAI offset and remainder, with the stretch
      since the last TAI update, come to exactly what the trims and steps asked for. */
  lemma {:induction false} TaiRunConserves(s: Clocks, evs: seq<TaiEv>, until: int)
    ensures var r := TaiRun(s, evs);
      r.tai.off * TWO32 + r.tai.rem + (Reading(r.comp, until) - r.tai.ref) * r.tai.rate
      == s.tai.off * TWO32 + s.tai.rem + TaiAsked(s.comp, s.tai.rate, s.tai.ref, until, evs)
    decreases |evs|
  {
    if evs != [] {
      TaiRunConserves(Afterwards(s, evs[0]), evs[1..], until);
      if evs[0].TaiUpdate? || evs[0].TaiTrim? {
        TaiUpdateConserves(s.tai, Reading(s.comp, evs[0].t));
      }
      if evs[0].TaiUpdate? {
        TaiAskedFrom(s.comp, s.tai.rate, s.tai.ref, Reading(s.comp, evs[0].t), until, evs[1..]);
      }
    }
  }

  /** The reading after any run: the time with what the trims of both stages and the steps
      asked for, rounded down, or at most two units less. */
  lemma TaiReadingIsAsked(s: Clocks, evs: seq<TaiEv>, u: int)
    ensures
      var r := TaiRun(s, evs);
      var exact := u * TWO32
        + s.comp.off * TWO32 + s.comp.rem + Asked(s.comp.rate, s.comp.ref, u, CompEvents(evs))
        + s.tai.off * TWO32 + s.tai.rem + TaiAsked(s.comp, s.tai.rate, s.tai.ref, u, evs);
      0 <= exact - TaiReading(r.comp, r.tai, u) * TWO32 < 3 * TWO32
  {
    hide CompEvents, Asked, TaiAsked, TaiRun, Run;
    var r := TaiRun(s, evs);
    CompRunsAlone(s, evs);
    RunConserves(s.comp, CompEvents(evs), u);
    TaiRunConserves(s, evs, u);
    RoundedOnce(Fine(r.comp, r.tai, u), r.comp.rem, r.tai.rem);
  }

  lemma RoundedOnce(x: int, rem: word, rem': word)
    ensures 0 <= x + rem + rem' - High(x) * TWO32 < 3 * TWO32
  {
  }

  /** From a trim to the next event the TAI clock gains on the compensated one what the
      rate that it was given makes of the time that one shows, with its fraction. */
  lemma TaiTrimTakesEffect(c: Comp, a: Tai, t: int, trim: int32, u: int)
    ensures
      var b := TaiTrimmed(a, Reading(c, t), trim);
      var gained := Reading(c, u) - Reading(c, t);
      TaiReading(c, b, u) == TaiReading(c, b, t) + gained + ((u - c.ref) * c.rate % TWO32 + gained * trim) / TWO32
  {
    var y := Reading(c, t);
    assert (y - y) * trim == 0;
    CarriedOnce((u - c.ref) * c.rate, (Reading(c, u) - y) * trim);
    CarriedOnce((t - c.ref) * c.rate, 0);
  }

  // ----- the code

  class TaiClock {
    var clkTaiOffset: dword
    var clkTaiRef: dword
    var clkTaiRate: int32
    var clkTaiRem: word
    ghost var a: Tai

    ghost predicate Valid()
      reads this
    {
      clkTaiOffset == U64(a.off) && clkTaiRef == U64(a.ref) && clkTaiRate == a.rate && clkTaiRem == a.rem
    }

    constructor ()
      ensures Valid() && a == Tai(0, 0, 0, 0)
    {
      clkTaiOffset, clkTaiRef, clkTaiRate, clkTaiRem := 0, 0, 0, 0;
      a := Tai(0, 0, 0, 0);
    }

    /** runClkTai() */
    method RunClkTai(comp: CompClock, mono: dword, ghost t: int)
      requires Valid() && comp.Valid() && mono == U64(t) && InWindow(comp.s, t) && InReach(comp.s, a, t)
      modifies this
      ensures Valid() && a == TaiUpdated(old(a), Reading(comp.s, t))
    {
      hide U64, U32, S32, S64;
      var now := comp.Now(mono, t);
      ghost var y := Reading(comp.s, t);
      Elapsed64(y, a.ref);
      CorrFracRemConserves(clkTaiRate, y - a.ref, clkTaiRem);
      var c := CorrFracRem(clkTaiRate, S32(U32(U64(now - clkTaiRef))), clkTaiRem);
      U64Add(a.off, c.offset);
      clkTaiRem := c.rem;
      clkTaiRef := now;
      clkTaiOffset := U64(clkTaiOffset + c.offset);
      a := TaiUpdated(a, y);
    }

    /** setTrim() */
    method SetTrim(comp: CompClock, mono: dword, trim: int32, ghost t: int)
      requires Valid() && comp.Valid() && mono == U64(t) && InWindow(comp.s, t) && InReach(comp.s, a, t)
      modifies this
      ensures Valid() && a == TaiTrimmed(old(a), Reading(comp.s, t), trim)
    {
      RunClkTai(comp, mono, t);
      clkTaiRate := trim;
      a := a.(rate := trim);
    }

    /** adjust() */
    method Adjust(delta: int64)
      requires Valid()
      modifies this
      ensures Valid() && a == old(a).(off := old(a).off + delta)
      ensures forall c, t :: TaiReading(c, a, t) == TaiReading(c, old(a), t) + delta
    {
      U64Add(a.off, delta);
      clkTaiOffset := U64(clkTaiOffset + delta);
      a := a.(off := a.off + delta);
    }

    /** now() */
    method Now(comp: CompClock, mono: dword, ghost t: int) returns (ts: dword)
      requires Valid() && comp.Valid() && mono == U64(t) && InReach(comp.s, a, t)
      ensures ts == U64(TaiReading(comp.s, a, t))
    {
      var inner: dword;
      inner, ts := TwoStage(comp, mono, t);
    }

    /** The two corrections of now() and of rawToFull(), the remainder of the
        first carried into the second. */
    method TwoStage(comp: CompClock, mono: dword, ghost t: int) returns (middle: dword, ts: dword)
      requires Valid() && comp.Valid() && mono == U64(t) && InReach(comp.s, a, t)
      ensures middle == U64(Reading(comp.s, t)) && ts == U64(TaiReading(comp.s, a, t))
    {
      hide U64, U32, S32, S64, High, CorrFracRem;
      ghost var x, y := (t - comp.s.ref) * comp.s.rate, Reading(comp.s, t);
      Elapsed64(t, comp.s.ref);
      CorrFracRemConserves(comp.clkCompRate, t - comp.s.ref, 0);
      var c := CorrFracRem(comp.clkCompRate, S32(U32(U64(mono - comp.clkCompRef))), 0);
      Parts(x, c.offset, c.rem);
      middle := U64(U64(mono + c.offset) + comp.clkCompOffset);
      Stage(t, c.offset, comp.s.off);
      Elapsed64(y, a.ref);
      CorrFracRemConserves(clkTaiRate, y - a.ref, c.rem);
      var d := CorrFracRem(clkTaiRate, S32(U32(U64(middle - clkTaiRef))), c.rem);
      Parts((y - a.ref) * a.rate + c.rem, d.offset, d.rem);
      ts := U64(U64(middle + d.offset) + clkTaiOffset);
      Stage(y, d.offset, a.off);
      CarriedOnce(x, (y - a.ref) * a.rate);
    }

    /** fromMono(): each stage rounded by itself, on either side of either update. */
    method FromMono(comp: CompClock, mono: dword, ghost t: int) returns (ts: dword)
      requires Valid() && comp.Valid() && mono == U64(t)
      requires -TWO63 < t - comp.s.ref < TWO63 && -TWO63 < CompAt(comp.s, t) - a.ref < TWO63
      ensures ts == U64(TaiAt(comp.s, a, t))
    {
      hide U64, U32, S32, S64, CorrValue, High;
      ts := comp.FromMono(mono, t);
      ghost var y := CompAt(comp.s, t);
      Elapsed63(y, a.ref);
      CorrValueExact(clkTaiRate, y - a.ref);
      var d: int := CorrValue(clkTaiRate, S64(U64(ts - clkTaiRef)));
      assert -((y - a.ref) * a.rate) == -(y - a.ref) * a.rate;
      ts := U64(U64(ts + d) + clkTaiOffset);
      Stage(y, d, a.off);
    }
  }

  lemma Parts(x: int, high: int, rem: int)
    requires high * TWO32 + rem == x && 0 <= rem < TWO32
    ensures high == High(x) && rem == x % TWO32
  {
  }

  /** One stage: a correction, then the offset. */
  lemma Stage(t: int, c: int, off: int)
    ensures U64(U64(U64(t) + c) + U64(off)) == U64(t + c + off)
  {
    U64Add(t, c);
    U64Add(t + c, U64(off));
    U64Add(off, t + c);
  }
}
