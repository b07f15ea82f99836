/** The date arithmetic of gps.cpp: a calendar date in closed form to seconds
    since 1970 on the TAI scale, modulo 2^32. */
module Calendar {
  import opened Words

  // ----- the Gregorian calendar, by counting

  predicate IsLeap(y: int) {
    y % 4 == 0 && (y % 100 != 0 || y % 400 == 0)
  }

  function DaysInMonth(y: int, m: int): int {
    if m == 2 then (if IsLeap(y) then 29 else 28)
    else if m == 4 || m == 6 || m == 9 || m == 11 then 30 else 31
  }

  datatype Date = Date(y: int, m: int, d: int)

  /** The year is an astronomical one: the year before year 1 is year 0. */
  predicate Valid(t: Date) {
    0 <= t.y && 1 <= t.m <= 12 && 1 <= t.d <= DaysInMonth(t.y, t.m)
  }

  function Next(t: Date): Date {
    if t.d < DaysInMonth(t.y, t.m) then Date(t.y, t.m, t.d + 1)
    else if t.m < 12 then Date(t.y, t.m + 1, 1)
    else Date(t.y + 1, 1, 1)
  }

  function DaysBeforeMonth(y: int, m: int): int
    requires 1 <= m <= 13
  {
    if m == 1 then 0 else DaysBeforeMonth(y, m - 1) + DaysInMonth(y, m - 1)
  }

  function DaysBeforeYear(y: int): int
    decreases if y < 1900 then 1900 - y else y - 1900
  {
    if y == 1900 then 0
    else if y < 1900 then DaysBeforeYear(y + 1) - DaysBeforeMonth(y, 13)
    else DaysBeforeYear(y - 1) + DaysBeforeMonth(y - 1, 13)
  }

  /** Days since 1 January 1900, negative before it. */
  function Days(t: Date): int
    requires Valid(t)
  {
    DaysBeforeYear(t.y) + DaysBeforeMonth(t.y, t.m) + t.d - 1
  }

  /** The count goes up by one each day, from zero. */
  lemma DaysCount(t: Date)
    requires Valid(t)
    ensures Valid(Next(t)) && Days(Next(t)) == Days(t) + 1
    ensures Days(Date(1900, 1, 1)) == 0
  {
    assert DaysBeforeMonth(t.y, t.m + 1) == DaysBeforeMonth(t.y, t.m) + DaysInMonth(t.y, t.m);
    assert DaysBeforeYear(t.y + 1) == DaysBeforeYear(t.y) + DaysBeforeMonth(t.y, 13);
  }

  lemma YearLength(y: int)
    ensures DaysBeforeMonth(y, 13) == if IsLeap(y) then 366 else 365
    ensures forall m :: 1 <= m <= 12 ==>
      DaysBeforeMonth(y, m) == LUT_DAYS_365[m] + if IsLeap(y) && m > 2 then 1 else 0
  {
    assert DaysBeforeMonth(y, 2) == 31;
    assert DaysBeforeMonth(y, 3) == 59 + if IsLeap(y) then 1 else 0;
    assert DaysBeforeMonth(y, 5) == 120 + if IsLeap(y) then 1 else 0;
    assert DaysBeforeMonth(y, 7) == 181 + if IsLeap(y) then 1 else 0;
    assert DaysBeforeMonth(y, 9) == 243 + if IsLeap(y) then 1 else 0;
    assert DaysBeforeMonth(y, 11) == 304 + if IsLeap(y) then 1 else 0;
  }

  // ----- the closed form

  const LUT_DAYS_365: seq<int> := [0, 0, 31, 59, 90, 120, 151, 181, 212, 243, 273, 304, 334, 365, 0, 0]
  const LUT_DAYS_366: seq<int> := [0, 0, 31, 60, 91, 121, 152, 182, 213, 244, 274, 305, 335, 366, 0, 0]
  const EPOCH_1970 := 2_208_988_800
  const DAY := 86_400

  /** The leap test of the code: 2000 counts as a common year. */
  predicate CodeLeap(o: int) {
    o % 4 == 0 && o % 100 != 0
  }

  /** The closed form for year 1900 + o, days counted from one. */
  function Closed(o: int, m: int, d: int): int
    requires 0 <= m < 16
  {
    365 * o + o / 4 - o / 4 / 25 - (if CodeLeap(o) then 1 else 0)
    + (if CodeLeap(o) then LUT_DAYS_366 else LUT_DAYS_365)[m] + d
  }

  /** Days as the code counts them: years before 1900 wrap around. */
  function CodeDays(t: Date): int
    requires 0 <= t.m < 16
  {
    Closed(U32(t.y - 1900), t.m, t.d)
  }

  /** The 29 Februaries in years divisible by 400 that lie before the date and
      that the code does not know. */
  function Missed(t: Date): int {
    (t.y - 1601) / 400 + if t.y % 400 == 0 && t.m > 2 then 1 else 0
  }

  lemma {:induction false} YearClosedForm(y: int)
    ensures var o := y - 1900;
      DaysBeforeYear(y) == 365 * o + o / 4 - o / 4 / 25 - (if CodeLeap(o) then 1 else 0) + (y - 1601) / 400
    decreases if y < 1900 then 1900 - y else y - 1900
  {
    if y > 1900 {
      YearClosedForm(y - 1);
      YearLength(y - 1);
      YearStep(y - 1);
    } else if y < 1900 {
      YearClosedForm(y + 1);
      YearLength(y);
      YearStep(y);
    }
  }

  /** One year on. */
  lemma YearStep(y: int)
    ensures var o, p := y - 1900, y - 1899;
      p / 4 - p / 4 / 25 - (if CodeLeap(p) then 1 else 0) + (y - 1600) / 400
      == o / 4 - o / 4 / 25 - (if CodeLeap(o) then 1 else 0) + (y - 1601) / 400 + if IsLeap(y) then 1 else 0
  {
    var o := y - 1900;
    Quarters(o);
    Quarters(o + 1);
    FourHundreds(y);
    LeapOf(y);
    hide IsLeap;
  }

  lemma Quarters(o: int)
    ensures o / 4 / 25 == o / 100
    ensures o / 4 == (o - 1) / 4 + if o % 4 == 0 then 1 else 0
    ensures o / 100 == (o - 1) / 100 + if o % 100 == 0 then 1 else 0
    ensures o % 100 == 0 ==> o % 4 == 0
  {
  }

  lemma FourHundreds(y: int)
    ensures (y - 1600) / 400 == (y - 1601) / 400 + if y % 400 == 0 then 1 else 0
  {
  }

  /** The code's leap years are the true ones but for those divisible by 400. */
  lemma LeapOf(y: int)
    ensures IsLeap(y) <==> CodeLeap(y - 1900) || y % 400 == 0
    ensures y % 400 == 0 ==> !CodeLeap(y - 1900)
  {
    Shifted4(y);
    Shifted100(y);
    Multiple400(y);
  }

  lemma Shifted4(y: int)
    ensures (y - 1900) % 4 == y % 4
  {
  }

  lemma Shifted100(y: int)
    ensures (y - 1900) % 100 == y % 100
  {
  }

  lemma Multiple400(y: int)
    ensures y % 400 == 0 ==> y % 100 == 0 && y % 4 == 0
  {
  }

  /** The one-based day makes up for one leap day that is missed. */
  lemma ClosedOff(t: Date)
    requires Valid(t)
    ensures Closed(t.y - 1900, t.m, t.d) == Days(t) + 1 - Missed(t)
  {
    YearClosedForm(t.y);
    YearLength(t.y);
    LeapOf(t.y);
    hide IsLeap, CodeLeap;
    assert LUT_DAYS_366[t.m] == LUT_DAYS_365[t.m] + if t.m > 2 then 1 else 0;
  }

  lemma CodeDaysOff(t: Date)
    requires Valid(t) && 1900 <= t.y < TWO16
    ensures CodeDays(t) == Days(t) + 1 - Missed(t)
  {
    U32Fits(t.y - 1900);
    ClosedOff(t);
  }

  /** What the wrapped year adds to the closed form, but for days. */
  const WRAPPED_DAYS := 365 * TWO32 + 1_030_792_152

  /** In years before 1900 the count is off by a million million days and more. */
  lemma CodeDaysFarOff(t: Date)
    requires Valid(t) && t.y < 1900
    ensures -20 <= CodeDays(t) - Days(t) - WRAPPED_DAYS <= 20
  {
    hide Days, Closed, Missed, U32;
    ClosedOff(t);
    MissedBefore(t);
    U32Turns(t.y - 1900 + TWO32, 1);
    U32Fits(t.y - 1900 + TWO32);
    ClosedWrapped(t.y - 1900, t.m, t.d);
  }

  lemma MissedBefore(t: Date)
    requires 0 <= t.y < 1900
    ensures -5 <= Missed(t) <= 1
  {
  }

  lemma ClosedWrapped(o: int, m: int, d: int)
    requires 1 <= m <= 12
    ensures -3 <= Closed(o + TWO32, m, d) - Closed(o, m, d) - WRAPPED_DAYS <= 2
  {
    WrappedQuarters(o);
    hide CodeLeap;
    assert 0 <= LUT_DAYS_366[m] - LUT_DAYS_365[m] <= 1;
  }

  lemma WrappedQuarters(o: int)
    ensures (o + TWO32) / 4 == o / 4 + 1_073_741_824
    ensures 42_949_672 <= (o + TWO32) / 4 / 25 - o / 4 / 25 <= 42_949_673
  {
    var q := o / 4;
    assert (o + TWO32) / 4 == q + 1_073_741_824;
    assert q + 1_073_741_824 == 25 * 42_949_672 + (q + 24);
    assert (25 * 42_949_672 + (q + 24)) / 25 == 42_949_672 + (q + 24) / 25;
  }

  /** 1 March 2000 to 29 February 2400. */
  predicate InRange(t: Date) {
    && (t.y > 2000 || (t.y == 2000 && t.m >= 3))
    && (t.y < 2400 || (t.y == 2400 && t.m <= 2))
  }

  lemma MissedOnce(t: Date)
    requires Valid(t) && t.y >= 1900
    ensures Missed(t) == 1 <==> InRange(t)
  {
  }

  datatype Clock = Clock(h: byte, m: byte, s: byte)

  function SecondOfDay(c: Clock): int {
    3600 * c.h + 60 * c.m + c.s
  }

  /** One second later, within the day and but for leap seconds. */
  function NextTime(c: Clock): Clock {
    if c.s < 59 then c.(s := c.s + 1)
    else if c.m < 59 then c.(m := c.m + 1, s := 0)
    else if c.h < 23 then Clock(c.h + 1, 0, 0)
    else Clock(0, 0, 0)
  }

  /** The count goes up by one each second of a day, from zero to 86399. */
  lemma SecondsCount(c: Clock)
    requires c.h < 24 && c.m < 60 && c.s < 60
    ensures SecondOfDay(NextTime(c)) == if c.h == 23 && c.m == 59 && c.s == 59 then 0 else SecondOfDay(c) + 1
    ensures c.h == 0 && c.m == 0 && c.s == 0 ==> SecondOfDay(c) == 0
    ensures c.h == 23 && c.m == 59 && c.s == 59 ==> SecondOfDay(c) == 86_399
  {
  }

  /** Seconds from 1 January 1970 to the date and time, plus the TAI offset. */
  function TrueEpoch(t: Date, c: Clock, taiOffset: int): word
    requires Valid(t)
  {
    U32((Days(t) - Days(Date(1970, 1, 1))) * DAY + SecondOfDay(c) + taiOffset)
  }

  /** The same from the code's count of days. */
  function CodeEpoch(t: Date, c: Clock, taiOffset: int): word
    requires 0 <= t.m < 16
  {
    U32(CodeDays(t) * DAY + SecondOfDay(c) - EPOCH_1970 + taiOffset)
  }

  lemma Epoch1970()
    ensures Days(Date(1970, 1, 1)) * DAY == EPOCH_1970
  {
    hide DaysBeforeYear;
    YearClosedForm(1970);
    assert DaysBeforeMonth(1970, 1) == 0;
  }

  /** No shift by at most 160 days is a multiple of 2^32 seconds. */
  lemma DaysDoNotWrap(z: int, d: int)
    requires -200 <= d <= 200
    ensures U32(z + d * DAY) == U32(z) <==> d == 0
  {
  }

  lemma WrappedDaysShow(z: int, d: int)
    requires -20 <= d - WRAPPED_DAYS <= 20
    ensures U32(z + d * DAY) != U32(z)
  {
    var e := d - WRAPPED_DAYS;
    assert d * DAY == e * DAY + WRAPPED_DAYS * DAY;
    assert WRAPPED_DAYS * DAY == (365 * DAY + 20736) * TWO32 + REST;
    U32Turns(z + e * DAY + REST, 365 * DAY + 20736);
    RestShows(z, e);
  }

  /** What whole turns leave of the seconds of those days. */
  const REST := 82944

  lemma RestShows(z: int, e: int)
    requires -20 <= e <= 20
    ensures U32(z + e * DAY + REST) != U32(z)
  {
  }

  /** The closed form is right, for any time of day and any offset, exactly from
      1 March 2000 to 29 February 2400. */
  lemma EpochExactly(t: Date, c: Clock, taiOffset: int)
    requires Valid(t) && t.y < TWO16
    ensures CodeEpoch(t, c, taiOffset) == TrueEpoch(t, c, taiOffset) <==> InRange(t)
  {
    hide Days, CodeDays, U32;
    Epoch1970();
    var z := (Days(t) - Days(Date(1970, 1, 1))) * DAY + SecondOfDay(c) + taiOffset;
    var d := CodeDays(t) - Days(t);
    assert CodeDays(t) * DAY + SecondOfDay(c) - EPOCH_1970 + taiOffset == z + d * DAY;
    if t.y >= 1900 {
      CodeDaysOff(t);
      MissedOnce(t);
      DaysDoNotWrap(z, d);
    } else {
      CodeDaysFarOff(t);
      WrappedDaysShow(z, d);
    }
  }

  // ----- seconds of TAI

  function Successor(w: word): word {
    if w + 1 == TWO32 then 0 else w + 1
  }

  lemma SuccessorIs(x: int)
    ensures U32(x + 1) == Successor(U32(x))
  {
    U32Add(x, 1);
  }

  lemma EpochIs(t: Date, c: Clock, taiOffset: int, x: int)
    requires Valid(t) && x == Days(t) * DAY - EPOCH_1970 + SecondOfDay(c) + taiOffset
    ensures TrueEpoch(t, c, taiOffset) == U32(x)
  {
    hide U32, Days, Valid;
    Epoch1970();
  }

  /** Within the day the epoch goes on by one each second. */
  lemma NextSecond(t: Date, c: Clock, d: Clock, taiOffset: int)
    requires Valid(t) && SecondOfDay(d) == SecondOfDay(c) + 1
    ensures TrueEpoch(t, d, taiOffset) == Successor(TrueEpoch(t, c, taiOffset))
  {
    hide U32, Days, Valid, Successor, TrueEpoch, SecondOfDay;
    var x := Days(t) * DAY - EPOCH_1970 + SecondOfDay(c) + taiOffset;
    EpochIs(t, c, taiOffset, x);
    EpochIs(t, d, taiOffset, x + 1);
    SuccessorIs(x);
  }

  const MIDNIGHT := Clock(0, 0, 0)

  lemma NextDay(n: int)
    ensures (n + 1) * DAY == n * DAY + DAY && SecondOfDay(MIDNIGHT) == 0
  {
  }

  /** So it does at midnight: from 23:59:59, or with a leap second more from 23:59:60,
      or with one less from 23:59:58. */
  lemma LeapSecondsAreSeamless(t: Date, last: Clock, more: int, taiOffset: int)
    requires Valid(t) && SecondOfDay(last) == DAY - 1 + more
    ensures Valid(Next(t))
    ensures TrueEpoch(Next(t), MIDNIGHT, taiOffset + more) == Successor(TrueEpoch(t, last, taiOffset))
  {
    hide U32, Days, Valid, Next, Successor, TrueEpoch, SecondOfDay;
    DaysCount(t);
    NextDay(Days(t));
    var x := Days(t) * DAY - EPOCH_1970 + SecondOfDay(last) + taiOffset;
    EpochIs(t, last, taiOffset, x);
    EpochIs(Next(t), MIDNIGHT, taiOffset + more, x + 1);
    SuccessorIs(x);
  }

  // ----- messages

  /** TAI minus the GPS scale. */
  const GPS_TO_TAI := 19

  /** The data of a GPS time message are valid and its byte 10, read with a sign,
      gives the leap seconds since GPS began. */
  predicate Announces(payload: seq<byte>, leap: int)
    requires |payload| == 16
  {
    payload[11] % 4 == 3 && -TWO7 <= leap < TWO7 && payload[10] == leap % TWO8
  }

  /** A valid message announces one number, and an invalid one none. */
  lemma OneIsAnnounced(payload: seq<byte>)
    requires |payload| == 16
    ensures (exists leap :: Announces(payload, leap)) <==> payload[11] % 4 == 3
    ensures forall a, b :: Announces(payload, a) && Announces(payload, b) ==> a == b
    ensures payload[11] % 4 == 3 ==>
      Announces(payload, if payload[10] < TWO7 then payload[10] else payload[10] - TWO8)
  {
    if payload[11] % 4 == 3 {
      assert Announces(payload, if payload[10] < TWO7 then payload[10] else payload[10] - TWO8);
    }
  }

  function DateOf(payload: seq<byte>): Date
    requires |payload| == 92
  {
    Date(payload[4] + TWO8 * payload[5], payload[6], payload[7])
  }

  function TimeOf(payload: seq<byte>): Clock
    requires |payload| == 92
  {
    Clock(payload[8], payload[9], payload[10])
  }

  /** The date and time are the seven bytes from byte 4 on: the year in two, the low one
      first, then month, day, hour, minute and second. */
  lemma PvtFields(payload: seq<byte>, t: Date, c: Clock)
    requires |payload| == 92 && 0 <= t.y < TWO16 && 0 <= t.m < TWO8 && 0 <= t.d < TWO8
    ensures DateOf(payload) == t && TimeOf(payload) == c
      <==> payload[4..11] == [t.y % 0x100, t.y / 0x100, t.m, t.d, c.h, c.m, c.s]
  {
    var fields: seq<int> := [t.y % 0x100, t.y / 0x100, t.m, t.d, c.h, c.m, c.s];
    if payload[4..11] == fields {
      forall k | 0 <= k < 7
        ensures payload[4 + k] == fields[k]
      {
        assert payload[4..11][k] == fields[k];
      }
    }
  }

  /** The message's date and time are marked as valid, and the date exists. */
  predicate Tells(payload: seq<byte>)
    requires |payload| == 92
  {
    payload[11] % 4 == 3 && Valid(DateOf(payload))
  }

  type GpsPayload = p: seq<byte> | |p| == 16 witness seq(16, _ => 0)
  type PvtPayload = p: seq<byte> | |p| == 92 witness seq(92, _ => 0)

  datatype Message = GpsTimeData(gps: GpsPayload) | PvtData(pvt: PvtPayload) {
    /** Whether the offset is set. */
    predicate Speaks() {
      GpsTimeData? && gps[11] % 4 == 3
    }

    /** Whether the epoch is set. */
    predicate Dates() {
      PvtData? && pvt[11] % 4 == 3
    }

    function Date(): Date
      requires PvtData?
    {
      DateOf(pvt)
    }

    function Time(): Clock
      requires PvtData?
    {
      TimeOf(pvt)
    }
  }

  predicate Silent(messages: seq<Message>) {
    forall m :: m in messages ==> !m.Speaks()
  }

  ghost predicate LeapAt(messages: seq<Message>, leap: int, k: int) {
    0 <= k < |messages| && messages[k].GpsTimeData? && Announces(messages[k].gps, leap) && Silent(messages[k + 1..])
  }

  /** The last valid GPS time message announces so many leap seconds. */
  ghost predicate LastLeap(messages: seq<Message>, leap: int) {
    exists k :: LeapAt(messages, leap, k)
  }

  /** The k-th message is the last that sets the epoch, and its date exists. */
  predicate LastDate(messages: seq<Message>, k: int) {
    && 0 <= k < |messages| && messages[k].PvtData? && Tells(messages[k].pvt)
    && (forall j :: k < j < |messages| ==> !messages[j].Dates())
  }

  lemma LeapAfter(seen: seq<Message>, m: Message)
    ensures Silent(seen + [m]) <==> Silent(seen) && !m.Speaks()
    ensures forall leap :: LastLeap(seen + [m], leap) <==>
      if m.Speaks() then Announces(m.gps, leap) else LastLeap(seen, leap)
  {
    SilentAfter(seen, m);
    forall leap
      ensures LastLeap(seen + [m], leap) <==> if m.Speaks() then Announces(m.gps, leap) else LastLeap(seen, leap)
    {
      LastLeapAfter(seen, m, leap);
    }
  }

  lemma SilentAfter(seen: seq<Message>, m: Message)
    ensures Silent(seen + [m]) <==> Silent(seen) && !m.Speaks()
  {
    if Silent(seen + [m]) {
      assert m in seen + [m];
      assert forall n :: n in seen ==> n in seen + [m];
    }
  }

  lemma LastLeapAfter(seen: seq<Message>, m: Message, leap: int)
    ensures LastLeap(seen + [m], leap) <==> if m.Speaks() then Announces(m.gps, leap) else LastLeap(seen, leap)
  {
    var all := seen + [m];
    forall k | 0 <= k < |seen|
      ensures LeapAt(all, leap, k) <==> LeapAt(seen, leap, k) && !m.Speaks()
    {
      hide Announces, Silent;
      assert all[k + 1..] == seen[k + 1..] + [m];
      SilentAfter(seen[k + 1..], m);
    }
    assert LeapAt(all, leap, |seen|) <==> m.Speaks() && Announces(m.gps, leap) by {
      assert all[|seen| + 1..] == [];
    }
    hide LeapAt;
  }

  lemma TellsDates(m: Message)
    requires m.PvtData? && Tells(m.pvt)
    ensures m.Dates()
  {
  }

  lemma DateAfter(seen: seq<Message>, m: Message)
    ensures forall k :: LastDate(seen + [m], k) <==>
      if m.Dates() then k == |seen| && Tells(m.pvt) else LastDate(seen, k)
  {
    var all := seen + [m];
    forall k
      ensures LastDate(all, k) <==> if m.Dates() then k == |seen| && Tells(m.pvt) else LastDate(seen, k)
    {
      hide Tells;
      assert all[|seen|] == m;
      assert forall j :: 0 <= j < |seen| ==> all[j] == seen[j];
      if k == |seen| && m.PvtData? && Tells(m.pvt) {
        TellsDates(m);
      }
    }
  }

  /** The offset and the epoch that a list of messages leads to, from a given offset. */
  ghost predicate Follows(messages: seq<Message>, start: int, taiOffset: int, taiEpoch: word) {
    && (forall leap :: LastLeap(messages, leap) ==> taiOffset == leap + GPS_TO_TAI)
    && (Silent(messages) ==> taiOffset == start)
    && (forall k, leap :: LastDate(messages, k) && LastLeap(messages[..k], leap) ==>
      Told(messages[k], leap + GPS_TO_TAI, taiEpoch))
    && (forall k :: LastDate(messages, k) && Silent(messages[..k]) ==> Told(messages[k], start, taiEpoch))
  }

  predicate Told(m: Message, taiOffset: int, taiEpoch: word)
    requires m.PvtData? && Tells(m.pvt)
  {
    taiEpoch == TrueEpoch(m.Date(), m.Time(), taiOffset) <==> InRange(m.Date())
  }

  lemma NothingHeard(start: int, taiEpoch: word)
    ensures Follows([], start, start, taiEpoch)
  {
  }

  lemma WhatFollows(messages: seq<Message>, start: int, taiOffset: int, taiEpoch: word)
    requires Follows(messages, start, taiOffset, taiEpoch)
    ensures forall leap :: LastLeap(messages, leap) ==> taiOffset == leap + GPS_TO_TAI
    ensures Silent(messages) ==> taiOffset == start
    ensures forall k, leap :: LastDate(messages, k) && LastLeap(messages[..k], leap) ==>
      (taiEpoch == TrueEpoch(messages[k].Date(), messages[k].Time(), leap + GPS_TO_TAI)
       <==> InRange(messages[k].Date()))
    ensures forall k :: LastDate(messages, k) && Silent(messages[..k]) ==>
      (taiEpoch == TrueEpoch(messages[k].Date(), messages[k].Time(), start) <==> InRange(messages[k].Date()))
  {
    hide TrueEpoch, InRange, LastLeap, Silent, LastDate, Tells;
  }

  /** A list with a message more begins like the list without. */
  lemma SameBefore(seen: seq<Message>, m: Message)
    ensures forall k :: 0 <= k <= |seen| ==> (seen + [m])[..k] == seen[..k]
    ensures forall k :: LastDate(seen, k) ==> 0 <= k < |seen| && (seen + [m])[k] == seen[k]
    ensures (seen + [m])[|seen|] == m
  {
  }

  /** A GPS time message announces a number exactly if it speaks. */
  lemma OneOrNone(m: Message)
    ensures m.GpsTimeData? ==> (m.Speaks() <==> exists leap :: Announces(m.gps, leap))
    ensures m.PvtData? ==> !m.Speaks() && (m.Dates() <==> m.pvt[11] % 4 == 3)
    ensures m.GpsTimeData? ==> !m.Dates()
  {
    if m.GpsTimeData? {
      OneIsAnnounced(m.gps);
    }
  }

  lemma Horner(days: int, c: Clock)
    ensures ((days * 24 + c.h) * 60 + c.m) * 60 + c.s == days * DAY + SecondOfDay(c)
  {
  }

  lemma LeapBound(o: word)
    ensures 0 <= o / 4 < TWO32 && 0 <= o / 4 - o / 4 / 25 < TWO32
    ensures 0 <= o / 4 - o / 4 / 25 - (if CodeLeap(o) then 1 else 0)
    ensures CodeLeap(o) <==> o % 4 == 0 && o % 100 != 0
  {
  }

  /** The code's wrapped count of days is as good as the count. */
  lemma WrappedCount(days: int, c: Clock, taiOffset: int)
    ensures U32(U32(days) * DAY + SecondOfDay(c) - EPOCH_1970 + taiOffset)
      == U32(days * DAY + SecondOfDay(c) - EPOCH_1970 + taiOffset)
  {
    hide U32, SecondOfDay;
    var y := SecondOfDay(c) - EPOCH_1970 + taiOffset;
    U32Scale(days, DAY);
    U32Add(days * DAY, y);
    U32Add(U32(days) * DAY, y);
  }

  // ----- the code

  class GpsTime {
    var taiOffset: int
    var taiEpoch: word
    var hasPvt: bool
    var hasGpsTime: bool
    var fixGood: bool

    constructor ()
      ensures taiOffset == 37 && taiEpoch == 0
    {
      taiOffset, taiEpoch := 37, 0;
      hasPvt, hasGpsTime, fixGood := false, false, false;
    }

    /** processUbxGpsTime() */
    method ProcessUbxGpsTime(payload: seq<byte>)
      requires |payload| == 16
      modifies this`taiOffset, this`hasGpsTime
      ensures hasGpsTime
      // TAI is 19 seconds ahead of the GPS scale
      ensures forall leap :: Announces(payload, leap) ==> taiOffset == leap + GPS_TO_TAI
      ensures (forall leap :: !Announces(payload, leap)) ==> taiOffset == old(taiOffset)
    {
      hasGpsTime := true;
      if payload[11] % 4 != 3 {
        return;
      }
      OneIsAnnounced(payload);
      taiOffset := (if payload[10] < TWO7 then payload[10] else payload[10] - TWO8) + 19;
    }

    /** processUbxPVT(), as far as the time goes. */
    method ProcessUbxPVT(payload: seq<byte>)
      requires |payload| == 92
      modifies this`taiEpoch, this`hasPvt, this`fixGood
      ensures hasPvt && fixGood == (payload[21] % 2 == 1)
      ensures payload[11] % 4 != 3 ==> taiEpoch == old(taiEpoch)
      // whether or not the date exists
      ensures payload[11] % 4 == 3 && payload[6] < 16 ==>
        taiEpoch == CodeEpoch(DateOf(payload), TimeOf(payload), taiOffset)
      ensures Tells(payload) ==>
        (taiEpoch == TrueEpoch(DateOf(payload), TimeOf(payload), taiOffset) <==> InRange(DateOf(payload)))
    {
      hide U32, Days, CodeDays, InRange, DaysInMonth;
      hasPvt := true;
      fixGood := payload[21] % 2 == 1;
      if payload[11] % 4 != 3 {
        return;
      }
      var offset := CountDays(payload[4] + TWO8 * payload[5], payload[6], payload[7]);
      taiEpoch := Finish(offset, Clock(payload[8], payload[9], payload[10]));
      if payload[6] < 16 {
        WrappedCount(CodeDays(DateOf(payload)), TimeOf(payload), taiOffset);
      }
      if Valid(DateOf(payload)) {
        EpochExactly(DateOf(payload), TimeOf(payload), taiOffset);
      }
    }

    /** One message behind those heard before it. */
    method Hear(m: Message, ghost seen: seq<Message>, ghost start: int)
      requires Follows(seen, start, taiOffset, taiEpoch)
      modifies this
      ensures Follows(seen + [m], start, taiOffset, taiEpoch)
    {
      hide TrueEpoch, InRange, Announces, Valid, DateOf, TimeOf, LastLeap, Silent, LastDate, CodeEpoch;
      LeapAfter(seen, m);
      DateAfter(seen, m);
      OneOrNone(m);
      SameBefore(seen, m);
      match m
      case GpsTimeData(payload) => ProcessUbxGpsTime(payload);
      case PvtData(payload) => ProcessUbxPVT(payload);
    }

    /** Any messages one after the other: the epoch is that of the last date told, in
        seconds of TAI by the leap seconds last announced before it. */
    method Follow(messages: seq<Message>)
      modifies this
      ensures forall leap :: LastLeap(messages, leap) ==> taiOffset == leap + GPS_TO_TAI
      ensures Silent(messages) ==> taiOffset == old(taiOffset)
      ensures forall k, leap :: LastDate(messages, k) && LastLeap(messages[..k], leap) ==>
        (taiEpoch == TrueEpoch(messages[k].Date(), messages[k].Time(), leap + GPS_TO_TAI)
         <==> InRange(messages[k].Date()))
      ensures forall k :: LastDate(messages, k) && Silent(messages[..k]) ==>
        (taiEpoch == TrueEpoch(messages[k].Date(), messages[k].Time(), old(taiOffset))
         <==> InRange(messages[k].Date()))
    {
      assert messages[..|messages|] == messages;
      ghost var start := taiOffset;
      NothingHeard(start, taiEpoch);
      hide Follows;
      for i := 0 to |messages|
        invariant Follows(messages[..i], start, taiOffset, taiEpoch)
      {
        assert messages[..i + 1] == messages[..i] + [messages[i]];
        Hear(messages[i], messages[..i], start);
      }
      WhatFollows(messages, start, taiOffset, taiEpoch);
    }

    /** Years, months and days. */
    method CountDays(year: nat, month: byte, day: byte) returns (offset: word)
      requires year < TWO16
      ensures month < 16 ==> offset == U32(CodeDays(Date(year, month, day)))
    {
      hide U32;
      offset := U32(year - 1900);
      ghost var o: int := offset;
      var isLeap := if offset % 4 == 0 then 1 else 0;
      if offset % 100 == 0 {
        isLeap := 0;
      }
      LeapBound(o);
      var leap: word := offset / 4;
      leap := U32(leap - leap / 25);
      U32Fits(o / 4 - o / 4 / 25);
      leap := U32(leap - isLeap);
      U32Fits(o / 4 - o / 4 / 25 - isLeap);
      ghost var x: int := o * 365;
      offset := U32(offset * 365);
      offset := U32(offset + leap);
      U32Add(x, leap);
      // beyond the table anything may stand
      var before: int := *;
      if month < 16 {
        before := (if isLeap == 1 then LUT_DAYS_366 else LUT_DAYS_365)[month];
      }
      offset := U32(offset + before);
      U32Add(x + leap, before);
      offset := U32(offset + day);
      U32Add(x + leap + before, day);
      assert month < 16 ==> x + leap + before + day == Closed(o, month, day);
    }

    /** The time of day and the two realignments. */
    method Finish(days: word, c: Clock) returns (offset: word)
      ensures offset == U32(days * DAY + SecondOfDay(c) - EPOCH_1970 + taiOffset)
    {
      hide U32, SecondOfDay;
      ghost var x := days * 24 + c.h;
      offset := U32(days * 24);
      offset := U32(offset + c.h);
      U32Add(days * 24, c.h);
      offset := U32(offset * 60);
      U32Scale(x, 60);
      offset := U32(offset + c.m);
      U32Add(x * 60, c.m);
      x := x * 60 + c.m;
      offset := U32(offset * 60);
      U32Scale(x, 60);
      offset := U32(offset + c.s);
      U32Add(x * 60, c.s);
      x := x * 60 + c.s;
      offset := U32(offset - EPOCH_1970);
      U32Add(x, EPOCH_1970);
      offset := U32(offset + taiOffset);
      U32Add(x - EPOCH_1970, taiOffset);
      Horner(days, c);
    }
  }
}
