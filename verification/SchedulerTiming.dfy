/** When tasks run. A task's kind and interval are read off the events that created and
    adjusted it, its ticks off the times of the events, and its deadlines are shown to
    follow from them. */
module SchedulerTiming {
  import opened Words
  import opened SchedulerModel
  import opened SchedulerInvariant
  import opened SchedulerRuns

  /** What is seen from outside of the task in a slot since it was created: the events
      that name it, the program points that the main loop passes, and the clock. */
  datatype Life = Life(
    kind: Kind,
    born: int,                // tick of its creation
    interval: nat,            // in ticks, as created or last adjusted
    adjusted: bool,
    wakes: nat,
    starts: nat,              // of its callback
    startsWoken: nat,         // those since the first wake
    returned: int,            // tick of its callback's last return, or of its creation
    requeues: nat,
    requeued: int,            // tick of the last requeueing, or of its creation
    gap: nat,                 // the interval at that tick
    span: nat)                // the intervals at its creation and at each requeueing, added up

  /** An interval in 8.24 seconds is that many ticks, rounded down, and just below 2^30 of
      them when it is longer. */
  function TicksFor(d: word): nat {
    var ticks := d * 125_000_000 / 0x100_0000;
    if ticks < 0x4000_0000 then ticks else 0x3FFF_FFFF
  }

  function KindTicks(k: Kind): nat {
    match k
    case KSleep(d) => TicksFor(d)
    case KPeriodic(d) => TicksFor(d)
    case KWait => 0x4000_0000
  }

  lemma ToMonoRawIs(d: word)
    ensures ToMonoRaw(d) == TicksFor(d)
  {
    assert RUN_MAX == 144_115_188;
  }

  function Born(k: Kind, now: int): Life {
    Life(k, now, KindTicks(k), false, 0, 0, 0, now, 0, now, KindTicks(k), KindTicks(k))
  }

  /** One event in the life of slot i, of which only the program point, the tick and the
      slot that a creation takes matter. */
  function Lived(l: Life, s: St, e: Ev, i: Slot): Life {
    match e
    case New(k, _) => if s.free != [] && s.free[0] == i then Born(k, s.now) else l
    case Isr(w) => if i in w then l.(wakes := l.wakes + 1) else l
    case Adjust(j, d) => if j == i then l.(interval := TicksFor(d), adjusted := true) else l
    case Return => if s.pc == Body(i) then l.(returned := s.now) else l
    case Main =>
      if s.pc == Call(i) then
        l.(starts := l.starts + 1, startsWoken := if l.wakes > 0 then l.startsWoken + 1 else 0)
      else if s.pc == ReStamp(i) then
        l.(requeues := l.requeues + 1, requeued := s.now, gap := l.interval, span := l.span + l.interval)
      else l
    case _ => l
  }

  function LifeOf(h: History, i: Slot): Life {
    match h
    case Begin(now) => Born(KWait, now)
    case Then(past, e) => Lived(LifeOf(past, i), Final(past), e, i)
  }

  /** Between the callback's start and the setting of the next deadline. */
  predicate Underway(pc: Pc, i: Slot) {
    pc == Body(i) || Returned(pc, i)
  }

  predicate Returned(pc: Pc, i: Slot) {
    pc == Requeue(i) || pc == RePop(i) || pc == ReStamp(i)
  }

  function One(b: bool): nat {
    if b then 1 else 0
  }

  predicate SetUp(r: Rec, pc: Pc, i: Slot, l: Life) {
    && r.runInterval == l.interval
    && (l.wakes == 0 ==> r.schedule == if l.kind.KPeriodic? then Periodic else Sleep)
    && (l.wakes > 0 ==> r.schedule == Wake || r.schedule == Wait)
    && (pc == ScanPop(i) || pc == ScanStamp(i) ==> l.wakes > 0)
    && (pc == RunRearm(i) || (pc == RunWoken(i) && l.wakes > 0) ==> r.schedule == Wake)
  }

  predicate OnTime(r: Rec, l: Life) {
    l.wakes == 0 ==> r.due == if l.kind.KPeriodic? then l.born + l.span else l.requeued + l.gap
  }

  predicate Counted(r: Rec, pc: Pc, i: Slot, l: Life) {
    && (l.wakes == 0 ==> l.startsWoken == 0 && l.starts == l.requeues + One(Underway(pc, i)))
    && (l.wakes > 0 ==> l.startsWoken + One(r.schedule == Wake) + One(pc == Call(i)) <= l.wakes + 1)
  }

  predicate InOrder(now: int, pc: Pc, i: Slot, l: Life) {
    && l.born <= l.requeued <= now && l.returned <= now
    && (!Returned(pc, i) ==> l.returned <= l.requeued)
  }

  predicate Steady(l: Life) {
    !l.adjusted ==>
      l.interval == KindTicks(l.kind) && l.gap == l.interval && l.span == (l.requeues + 1) * l.interval
  }

  predicate Accounts(s: St, i: Slot, l: Life)
    requires Sized(s)
  {
    && SetUp(s.task[i], s.pc, i, l) && OnTime(s.task[i], l) && Counted(s.task[i], s.pc, i, l)
    && InOrder(s.now, s.pc, i, l) && Steady(l)
  }

  /** A task that is created. */
  lemma NewAccounts(s: St, k: Kind, to: Callee)
    requires Inv(s) && Enabled(s, New(k, to)) && s.free != []
    ensures Accounts(Step(s, New(k, to)), s.free[0], Born(k, s.now))
  {
    assert Placed(s.queue, s.free, Hand(s.pc), s.free[0]);
    match k {
      case KSleep(d) => ToMonoRawIs(d);
      case KPeriodic(d) => ToMonoRawIs(d);
      case KWait =>
    }
    hide Inv, Inserted, InsertAt, TicksFor, ToMonoRaw, U32;
  }

  /** What a step of the main loop does to the record of a live task. */
  lemma MainRecord(s: St, i: Slot)
    requires Sized(s)
    ensures var r, r' := s.task[i], MainStep(s).task[i];
      && r'.runInterval == r.runInterval
      && (r'.schedule == r.schedule || s.pc == RunRearm(i) || r'.schedule == Free)
      && (s.pc == RunRearm(i) ==> r'.schedule == Wait)
      && (s.pc == ReStamp(i) ==> r'.due == r.runInterval + if r.schedule == Periodic then r.due else s.now)
      && (s.pc != ReStamp(i) && s.pc != ScanStamp(i) ==> r'.due == r.due)
    ensures MainStep(s).now == s.now
  {
    hide Inserted, InsertAt, Popped, U32, IsReady;
    match s.pc {
      case Scan(_) =>
      case ScanStamp(_) =>
      case ReStamp(_) =>
      case _ =>
    }
  }

  /** How the main loop comes to the points in slot i's life. */
  lemma MainPoints(s: St, i: Slot)
    requires Sized(s) && !InCode(s.pc) && !Halted(s.pc)
    ensures var q, c := MainStep(s).pc, s.task[i].schedule;
      && (q == RunWoken(i) ==> s.pc == Run(i) && c != Wait)
      && (q == RunRearm(i) ==> s.pc == RunWoken(i) && c == Wake)
      && (q == Call(i) ==> s.pc == RunRearm(i) || (s.pc == RunWoken(i) && c != Wake))
      && (q == Body(i) ==> s.pc == Call(i))
      && (q == Requeue(i) ==> s.pc == Run(i) && c == Wait)
      && (q == RePop(i) ==> s.pc == Requeue(i))
      && (q == ReStamp(i) ==> s.pc == RePop(i))
      && (q == ScanPop(i) ==> c == Wake)
      && (q == ScanStamp(i) ==> s.pc == ScanPop(i))
      && (s.pc == Requeue(i) && q != RePop(i) ==> c == Canceled)
      && (s.pc == RePop(i) ==> q == ReStamp(i) || Halted(q))
  {
    hide DoInsert, DoFree, DoStampNow, DoStampNext, SetSchedule, Popped, IsReady, RootFaults;
    match s.pc {
      case Look =>
      case Scan(_) =>
      case _ =>
    }
  }

  /** A step of the main loop. */
  lemma MainAccounts(s: St, i: Slot, l: Life)
    requires Inv(s) && Enabled(s, Main) && Live(s, i) && Accounts(s, i, l)
    ensures Live(MainStep(s), i) && !Halted(MainStep(s).pc) ==> Accounts(MainStep(s), i, Lived(l, s, Main, i))
  {
    MainKeepsTime(s, i, l);
    MainRecord(s, i);
    MainPoints(s, i);
    hide Inv, MainStep, OnTime, InOrder, Steady, Halted;
  }

  lemma MainKeepsTime(s: St, i: Slot, l: Life)
    requires Inv(s) && Enabled(s, Main) && Live(s, i) && Accounts(s, i, l)
    ensures var r, l' := MainStep(s), Lived(l, s, Main, i);
      Live(r, i) && !Halted(r.pc) ==> OnTime(r.task[i], l') && InOrder(r.now, r.pc, i, l') && Steady(l')
  {
    MainRecord(s, i);
    MainPoints(s, i);
    hide Inv, MainStep, Counted;
    if s.pc == ReStamp(i) && !l.adjusted {
      assert (l.requeues + 2) * l.interval == (l.requeues + 1) * l.interval + l.interval;
    }
  }

  /** Any other event. */
  lemma OthersAccount(s: St, e: Ev, i: Slot, l: Life)
    requires Inv(s) && Enabled(s, e) && !e.Main? && Live(s, i) && Accounts(s, i, l)
    requires e.New? ==> s.free != []
    ensures Live(Step(s, e), i) ==> Accounts(Step(s, e), i, Lived(l, s, e, i))
  {
    match e {
      case Adjust(_, d) => ToMonoRawIs(d);
      case New(k, to) => NewElsewhere(s, k, to, i);
      case Return => ReturnAccounts(s, i, l);
      case _ =>
    }
    hide Inv, DoNew, TicksFor, ToMonoRaw, Steady, InCode, One;
  }

  lemma NewElsewhere(s: St, k: Kind, to: Callee, i: Slot)
    requires Sized(s) && s.free != [] && i !in s.free
    ensures var r := DoNew(s, k, to); r.task[i] == s.task[i] && r.pc == s.pc && r.now == s.now
  {
    hide Inserted, InsertAt, KindInterval, U32;
    assert s.free[0] in s.free;
  }

  lemma ReturnAccounts(s: St, i: Slot, l: Life)
    requires Inv(s) && Enabled(s, Return) && Accounts(s, i, l)
    ensures Accounts(Step(s, Return), i, Lived(l, s, Return, i))
  {
    hide Inv;
  }

  /** Whatever the events, the records of live tasks agree with their lives. */
  lemma {:induction false} LifeAccounts(h: History, i: Slot)
    requires Lawful(h) && !Halted(Final(h).pc) && Live(Final(h), i)
    ensures Accounts(Final(h), i, LifeOf(h, i))
  {
    match h {
      case Begin(_) =>
      case Then(past, e) =>
        var s := Final(past);
        HistoryInv(past);
        if e.New? && s.free != [] && s.free[0] == i {
          NewAccounts(s, e.kind, e.to);
        } else {
          LiveBefore(s, e, i);
          LifeAccounts(past, i);
          if e.Main? {
            MainAccounts(s, i, LifeOf(past, i));
          } else {
            OthersAccount(s, e, i, LifeOf(past, i));
          }
        }
    }
  }

  // ----- what follows

  /** The deadline that a task is given: a periodic one that was never woken the deadline
      it had with its interval, however late it ran, any other one the tick of the
      requeueing with its interval; an update gives a woken one the tick itself. */
  lemma DeadlineGiven(h: History, i: Slot)
    requires Lawful(h) && (Final(h).pc == ReStamp(i) || Final(h).pc == ScanStamp(i))
    ensures
      var s, l := Final(h), LifeOf(h, i);
      var due := Final(Then(h, Main)).task[i].due;
      && (s.pc == ScanStamp(i) ==> due == s.now && l.wakes > 0)
      && (s.pc == ReStamp(i) && l.kind.KPeriodic? && l.wakes == 0 ==> due == s.task[i].due + l.interval)
      && (s.pc == ReStamp(i) && !(l.kind.KPeriodic? && l.wakes == 0) ==> due == s.now + l.interval)
  {
    HistoryInv(h);
    InHand(Final(h));
    assert Cancels(Final(h)) && Schedules(Final(h));
    LifeAccounts(h, i);
    MainRecord(Final(h), i);
  }

  /** The exact rate of runPeriodic(): until it is woken, the deadline after k requeueings is
      k + 1 intervals after the creation, whatever delays there were, and there is one
      start for each deadline and none before it. */
  lemma PeriodicIsExact(h: History, i: Slot)
    requires Lawful(h) && !Halted(Final(h).pc) && Live(Final(h), i)
    requires LifeOf(h, i).kind.KPeriodic? && LifeOf(h, i).wakes == 0
    ensures
      var s, l := Final(h), LifeOf(h, i);
      && s.task[i].due == l.born + l.span
      && (!l.adjusted ==> s.task[i].due == l.born + (l.requeues + 1) * TicksFor(l.kind.interval))
      && l.starts == l.requeues + One(Underway(s.pc, i))
      && (s.pc == Call(i) ==> s.task[i].due <= s.now)
  {
    LifeAccounts(h, i);
    HistoryInv(h);
  }

  /** The pause of runSleep() and of runWait(): until it is woken, no start comes before the
      whole interval has gone by since the last return, or since the creation. */
  lemma PauseIsWhole(h: History, i: Slot)
    requires Lawful(h) && Final(h).pc == Call(i)
    requires !LifeOf(h, i).kind.KPeriodic? && LifeOf(h, i).wakes == 0
    ensures
      var s, l := Final(h), LifeOf(h, i);
      && l.returned + l.gap <= s.now
      && (!l.adjusted ==> l.gap == KindTicks(l.kind))
      && l.starts == l.requeues
  {
    HistoryInv(h);
    CallIsLive(Final(h), i);
    LifeAccounts(h, i);
  }

  /** Once woken, a task runs when it is woken and not otherwise: there are no more starts
      than wakes, but for one that was on its way at the first wake. */
  lemma StartsNeedWakes(h: History, i: Slot)
    requires Lawful(h) && !Halted(Final(h).pc) && Live(Final(h), i) && LifeOf(h, i).wakes > 0
    ensures LifeOf(h, i).startsWoken <= LifeOf(h, i).wakes + 1
  {
    LifeAccounts(h, i);
  }
}
