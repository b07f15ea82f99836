/** Theorems about every run of the scheduler. */
module SchedulerRuns {
  import opened Words
  import opened SchedulerModel
  import opened SchedulerInvariant

  lemma StartInv(now: int)
    ensures Inv(Start(now, false))
  {
    var s := Start(now, false);
    forall i: Slot ensures i in s.free && Placed(s.queue, s.free, Hand(s.pc), i) {
      assert s.free[i] == i;
    }
  }

  /** The two ends of a run that the invariant leaves possible. */
  predicate Stopped(pc: Pc) {
    pc.NoTasks? || pc.NullCall?
  }

  lemma StepKeeps(s: St, e: Ev)
    requires Inv(s) && Enabled(s, e)
    ensures Inv(Step(s, e)) || Stopped(Step(s, e).pc)
  {
    match e {
      case Tick(dt) => TickKeeps(s, dt);
      case Isr(w) => WakeKeeps(s, w);
      case Main => MainKeeps(s);
      case New(k, to) => if s.free != [] { NewKeeps(s, k, to); }
      case Cancel(w) => CancelKeeps(s, w);
      case Adjust(i, d) => AdjustKeeps(s, i, d);
      case Return => ReturnKeeps(s);
    }
  }

  /** Over a zero-filled pool every reachable state meets the invariant, until the pool
      runs out or the root is run. */
  lemma {:induction false} EveryRun(tr: seq<St>, evs: seq<Ev>, n: nat)
    requires IsRun(tr, evs, false) && n < |tr|
    ensures Inv(tr[n]) || Stopped(tr[n].pc)
  {
    if n == 0 {
      StartInv(tr[0].now);
    } else {
      EveryRun(tr, evs, n - 1);
      assert Leads(tr, evs, n - 1);
      StepKeeps(tr[n - 1], evs[n - 1]);
    }
  }

  /** The callback of t starts with event k. */
  predicate Starts(tr: seq<St>, evs: seq<Ev>, k: nat, t: Slot)
    requires k < |evs| <= |tr|
  {
    tr[k].pc == Call(t) && evs[k] == Main
  }

  /** Event k cancels t. */
  predicate CancelsTask(evs: seq<Ev>, k: nat, t: Slot)
    requires k < |evs|
  {
    evs[k].Cancel? && t in evs[k].w
  }

  lemma PendingStays(s: St, e: Ev, t: Slot)
    requires Inv(s) && Enabled(s, e)
    requires (t in s.pending && !(s.pc == Call(t) && e == Main)) || (e.Isr? && t in e.w)
    requires !(e.Cancel? && t in e.w)
    ensures t in Step(s, e).pending
  {
  }

  /** No wake is lost: from a wake until the task's callback next starts, or the task is
      cancelled, the task stays woken, and the update flag is up, or the update pass under way
      has yet to reach it, or its deadline has come. */
  lemma {:induction false} NoWakeLost(tr: seq<St>, evs: seq<Ev>, k: nat, n: nat, t: Slot)
    requires IsRun(tr, evs, false) && k < n < |tr|
    requires evs[k].Isr? && t in evs[k].w
    requires forall j :: k < j < n ==> !Starts(tr, evs, j, t) && !CancelsTask(evs, j, t)
    ensures Stopped(tr[n].pc) || (Inv(tr[n]) && t in tr[n].pending && WakeKept(tr[n], t))
  {
    EveryRun(tr, evs, n);
    EveryRun(tr, evs, n - 1);
    var s, e := tr[n - 1], evs[n - 1];
    assert Leads(tr, evs, n - 1);
    if n > k + 1 {
      NoWakeLost(tr, evs, k, n - 1, t);
      assert !Starts(tr, evs, n - 1, t) && !CancelsTask(evs, n - 1, t);
    }
    PendingStays(s, e, t);
  }

  /** The head of the queue speaks for all: it is the earliest deadline, first
      queued among equals, and if it is not ready no queued task is. */
  lemma HeadSpeaksForAll(s: St, i: Slot)
    requires Inv(s) && i in s.queue
    ensures i == s.queue[0] || Before(s.task[s.queue[0]], s.task[i])
    ensures IsReady(s.now, s.task[i]) <==> s.task[i].due <= s.now
    ensures IsReady(s.now, s.task[i]) ==> IsReady(s.now, s.task[s.queue[0]])
  {
    var k := Index(s.queue, i);
    var h := s.queue[0];
    assert h in s.queue && Placed(s.queue, s.free, Hand(s.pc), h) && Placed(s.queue, s.free, Hand(s.pc), i);
    assert Timely(s.now, s.task[h]) && Timely(s.now, s.task[i]);
    ReadyIsDue(s, h);
    ReadyIsDue(s, i);
    assert k > 0 ==> Before(s.task[s.queue[0]], s.task[s.queue[k]]);
  }

  /** A look at the queue runs a task exactly when one is due, and then the earliest of
      all that are queued, the first to come among equals. */
  lemma LookRunsEarliest(s: St)
    requires Inv(s) && s.pc == Look
    ensures MainStep(s).pc.Run? <==> exists i :: i in s.queue && s.task[i].due <= s.now
    ensures MainStep(s).pc.Run? ==>
      var t := MainStep(s).pc.t;
      t in s.queue && s.task[t].due <= s.now && forall i :: i in s.queue && i != t ==> Before(s.task[t], s.task[i])
  {
    forall i | i in s.queue
      ensures i == s.queue[0] || Before(s.task[s.queue[0]], s.task[i])
      ensures IsReady(s.now, s.task[i]) <==> s.task[i].due <= s.now
    {
      HeadSpeaksForAll(s, i);
    }
    if s.queue != [] {
      assert s.queue[0] in s.queue;
    }
    hide Inv, IsReady;
  }

  /** With a wake outstanding and the flag down, the scheduler does not go idle. */
  lemma PendingWakeIsServed(s: St, t: Slot)
    requires Inv(s) && s.pc == Look && t in s.pending && !s.flag
    ensures MainStep(s).pc.Run?
  {
    assert WakeKept(s, t);
    assert Placed(s.queue, s.free, Hand(s.pc), t);
    HeadSpeaksForAll(s, t);
  }

  /** A cancelled task is gone from the queue before any callback can start. */
  lemma CancelledNeverStarts(tr: seq<St>, evs: seq<Ev>, n: nat, t: Slot)
    requires IsRun(tr, evs, false) && n < |evs| && Starts(tr, evs, n, t)
    ensures Inv(tr[n]) && forall i: Slot :: tr[n].task[i].schedule != Canceled
    ensures t in tr[n].queue && tr[n].task[t].due <= tr[n].now
  {
    EveryRun(tr, evs, n);
  }

  // ----- histories, as the heap code keeps them

  datatype History = Begin(now: int) | Then(past: History, e: Ev)

  function Final(h: History): (s: St)
    ensures Sized(s)
  {
    match h
    case Begin(now) => Start(now, false)
    case Then(past, e) => Step(Final(past), e)
  }

  predicate Lawful(h: History) {
    h.Then? ==> Lawful(h.past) && Enabled(Final(h.past), h.e)
  }

  /** A callback as it is invoked, and the task whose turn it is. */
  datatype Invocation = Invocation(task: Slot, to: Callee)

  /** The callback and argument with which the task now in this slot was created. */
  function Owner(h: History, i: Slot): Callee {
    match h
    case Begin(_) => NOTHING
    case Then(past, e) =>
      if e.New? && Final(past).free != [] && Final(past).free[0] == i then e.to else Owner(past, i)
  }

  /** The callbacks that a history starts, in order, each as its task's creator gave it. */
  function Invocations(h: History): seq<Invocation> {
    match h
    case Begin(_) => []
    case Then(past, e) =>
      if e.Main? && Final(past).pc.Call?
      then Invocations(past) + [Invocation(Final(past).pc.t, Owner(past, Final(past).pc.t))]
      else Invocations(past)
  }

  /** The looks at the queue in a history: its turns of the main loop. */
  function Looks(h: History): nat {
    match h
    case Begin(_) => 0
    case Then(past, e) => Looks(past) + if e.Main? && Final(past).pc.Look? then 1 else 0
  }

  function Events(h: History): seq<Ev> {
    if h.Begin? then [] else Events(h.past) + [h.e]
  }

  function States(h: History): seq<St> {
    if h.Begin? then [Final(h)] else States(h.past) + [Final(h)]
  }

  /** a is the beginning of b. */
  predicate Extends(a: History, b: History) {
    a == b || (b.Then? && Extends(a, b.past))
  }

  /** A lawful history is a run, and so ends in the invariant. */
  lemma {:induction false} HistoryIsRun(h: History)
    requires Lawful(h)
    ensures IsRun(States(h), Events(h), false) && States(h)[|Events(h)|] == Final(h)
  {
    match h {
      case Begin(now) => StartRun(now, false);
      case Then(past, e) =>
        HistoryIsRun(past);
        RunNext(States(past), Events(past), e, false);
    }
  }

  lemma HistoryInv(h: History)
    requires Lawful(h) && !Halted(Final(h).pc)
    ensures Inv(Final(h))
  {
    HistoryIsRun(h);
    EveryRun(States(h), Events(h), |Events(h)|);
  }

  // ----- the pool's initial contents

  /** A live task keeps the callback and argument that it was created with. */
  predicate Owned(s: St, h: History, i: Slot)
    requires Sized(s)
  {
    s.task[i].schedule != Free && s.task[i].schedule != Canceled ==> s.task[i].to == Owner(h, i)
  }

  /** Only creation gives a slot a callback, and only of tasks that are not live can a
      step change it. */
  lemma CalleeKept(s: St, e: Ev, i: Slot)
    requires Inv(s) && Enabled(s, e)
    requires !(e.New? && s.free != [] && s.free[0] == i)
    ensures var r := Step(s, e).task[i];
      r.schedule != Free && r.schedule != Canceled ==>
        r.to == s.task[i].to && s.task[i].schedule != Free && s.task[i].schedule != Canceled
  {
    if e.Main? {
      CalleeKeptByMain(s, i);
    }
    hide Inv, MainStep, Inserted, InsertAt;
  }

  lemma CalleeKeptByMain(s: St, i: Slot)
    requires Inv(s) && Enabled(s, Main)
    ensures var r := MainStep(s).task[i];
      r.schedule != Free && r.schedule != Canceled ==>
        r.to == s.task[i].to && s.task[i].schedule != Free && s.task[i].schedule != Canceled
  {
    if s.pc.RunRearm? {
      assert Placed(s.queue, s.free, Hand(s.pc), s.pc.t);
      assert s.task[s.pc.t].schedule != Canceled;
    }
    hide Inv, Inserted, Popped;
  }

  lemma CalleeGiven(s: St, e: Ev)
    requires Sized(s) && e.New? && s.free != []
    ensures Step(s, e).task[s.free[0]].to == e.to
  {
  }

  lemma {:induction false} CalleeIsOwners(h: History, i: Slot)
    requires Lawful(h) && !Halted(Final(h).pc)
    ensures Owned(Final(h), h, i)
  {
    match h {
      case Begin(_) =>
      case Then(past, e) =>
        var s := Final(past);
        HistoryInv(past);
        CalleeIsOwners(past, i);
        if e.New? && s.free != [] && s.free[0] == i {
          CalleeGiven(s, e);
        } else {
          CalleeKept(s, e, i);
        }
    }
  }

  /** Only its creation brings a task to life. */
  lemma LiveBefore(s: St, e: Ev, i: Slot)
    requires Inv(s) && Enabled(s, e) && Live(Step(s, e), i)
    requires !(e.New? && s.free != [] && s.free[0] == i)
    ensures Live(s, i)
  {
    CalleeKept(s, e, i);
    assert Schedules(s);
    hide Inv, Step, Enabled;
  }

  /** Only a live task is called. */
  lemma CallIsLive(s: St, i: Slot)
    requires Inv(s) && s.pc == Call(i)
    ensures Live(s, i)
  {
    assert Placed(s.queue, s.free, Hand(s.pc), i);
    assert Cancels(s) && Schedules(s);
  }

  /** Event k creates a task in slot t. */
  predicate Creates(tr: seq<St>, evs: seq<Ev>, k: nat, t: Slot)
    requires k < |evs| <= |tr|
  {
    evs[k].New? && tr[k].free != [] && tr[k].free[0] == t
  }

  /** Once cancelled a task does not start again, however long its slot goes on without
      a new one. */
  lemma {:induction false} CancelSilences(tr: seq<St>, evs: seq<Ev>, k: nat, n: nat, t: Slot)
    requires IsRun(tr, evs, false) && k < n < |tr| && CancelsTask(evs, k, t)
    requires forall j :: k < j < n ==> !Creates(tr, evs, j, t)
    ensures Stopped(tr[n].pc) || (Inv(tr[n]) && !Live(tr[n], t) && tr[n].pc != Call(t))
  {
    EveryRun(tr, evs, n);
    EveryRun(tr, evs, n - 1);
    var s, e := tr[n - 1], evs[n - 1];
    assert Leads(tr, evs, n - 1);
    if n > k + 1 {
      CancelSilences(tr, evs, k, n - 1, t);
      assert !Creates(tr, evs, n - 1, t);
      if !Stopped(tr[n].pc) && Live(tr[n], t) {
        LiveBefore(s, e, t);
      }
    } else {
      CancelEnds(s, e.w, t);
    }
    if tr[n].pc == Call(t) {
      CallIsLive(tr[n], t);
    }
  }

  lemma CancelEnds(s: St, w: set<Slot>, t: Slot)
    requires Sized(s) && t in w
    ensures DoCancel(s, w).task[t].schedule == Canceled
  {
  }

  /** The turns that a state counts are the looks of its history. */
  lemma {:induction false} TurnsAreLooks(h: History)
    ensures Final(h).turns == Looks(h)
  {
    if h.Then? {
      TurnsAreLooks(h.past);
      TurnTaken(Final(h.past), h.e);
    }
  }

  lemma TurnTaken(s: St, e: Ev)
    requires Sized(s)
    ensures Step(s, e).turns == s.turns + if e.Main? && s.pc.Look? then 1 else 0
  {
  }

  lemma {:induction false} NeverConstructed(h: History)
    ensures !Final(h).constructed
  {
    if h.Then? {
      NeverConstructed(h.past);
      ConstructedStays(Final(h.past), h.e);
    }
  }

  lemma ConstructedStays(s: St, e: Ev)
    requires Sized(s)
    ensures Step(s, e).constructed == s.constructed
  {
  }

  /** A look at the queue ends in the root's null callback exactly when the queue is empty
      and the counter is below 2^31. */
  lemma EmptyQueueFaultsExactly(s: St)
    requires Inv(s) && s.pc == Look && !s.constructed
    ensures MainStep(s).pc == NullCall <==> s.queue == [] && U32(s.now) < TWO31
  {
    LookKeeps(s);
  }

  /** Without a task, the first turn of the loop does it. */
  lemma NoTaskFaults()
    ensures exists h :: Lawful(h) && Final(h).pc == NullCall
  {
    var h1 := Then(Begin(0), Return);
    var h2 := Then(h1, Main);
    var h3 := Then(h2, Main);
    assert Final(h1).pc == Top && Final(h2).pc == Look;
    assert Final(h3).pc == NullCall;
    assert Lawful(h1) && Lawful(h2) && Lawful(h3);
  }

  ghost predicate Faults(constructed: bool) {
    exists tr: seq<St>, evs: seq<Ev> :: IsRun(tr, evs, constructed) && tr[|evs|].pc == NullUnlink
  }

  ghost predicate Reached(s: St, constructed: bool) {
    exists tr: seq<St>, evs: seq<Ev> :: IsRun(tr, evs, constructed) && tr[|evs|] == s
  }

  lemma RunNext(tr: seq<St>, evs: seq<Ev>, e: Ev, constructed: bool)
    requires IsRun(tr, evs, constructed)
    requires Sized(tr[|evs|]) && Enabled(tr[|evs|], e)
    ensures IsRun(tr + [Step(tr[|evs|], e)], evs + [e], constructed)
  {
    var tr', evs' := tr + [Step(tr[|evs|], e)], evs + [e];
    forall k: nat | k < |evs'| ensures Leads(tr', evs', k) {
      assert k < |evs| ==> Leads(tr, evs, k);
    }
  }

  lemma ReachedNext(s: St, e: Ev, constructed: bool)
    requires Reached(s, constructed) && Sized(s) && Enabled(s, e)
    ensures Reached(Step(s, e), constructed)
  {
    var tr: seq<St>, evs: seq<Ev> :| IsRun(tr, evs, constructed) && tr[|evs|] == s;
    RunNext(tr, evs, e, constructed);
    var tr', evs' := tr + [Step(s, e)], evs + [e];
    assert tr'[|evs'|] == Step(s, e);
  }

  lemma StartReached(now: int, constructed: bool)
    ensures Reached(Start(now, constructed), constructed)
  {
    StartRun(now, constructed);
    var tr, none: seq<Ev> := [Start(now, constructed)], [];
    assert tr[|none|] == Start(now, constructed);
  }

  lemma StartRun(now: int, constructed: bool)
    ensures IsRun([Start(now, constructed)], [], constructed)
  {
  }

  /** One sleeping task is created and woken. */
  lemma WokenTaskReached() returns (s: St)
    ensures Reached(s, true) && Sized(s)
    ensures s.queue == [0] && s.flag && s.pc == Top && s.task[0].schedule == Wake && s.task[1].schedule == Canceled
  {
    var s0 := Start(0, true);
    StartReached(0, true);
    assert s0.free[0] == 0;
    var s1 := Step(s0, New(KSleep(0), NOTHING));
    ReachedNext(s0, New(KSleep(0), NOTHING), true);
    assert s1.queue == [0] && s1.task[0].schedule == Sleep && s1.task[1].schedule == Canceled;
    assert forall k :: 0 <= k < |s1.free| ==> s1.free[k] == k + 1;
    var s2 := Step(s1, Return);
    ReachedNext(s1, Return, true);
    s := Step(s2, Isr({0}));
    ReachedNext(s2, Isr({0}), true);
  }

  /** The update pass comes to slot 0 and takes it off the queue. */
  lemma FirstSlotUnlinked() returns (s: St)
    ensures Reached(s, true) && Sized(s)
    ensures s.queue == [] && s.pc == ScanStamp(0) && s.task[1].schedule == Canceled
  {
    var s0 := WokenTaskReached();
    ReachedNext(s0, Main, true);
    var s1 := MainStep(s0);
    ReachedNext(s1, Main, true);
    var s2 := MainStep(s1);
    ReachedNext(s2, Main, true);
    var s3 := MainStep(s2);
    ReachedNext(s3, Main, true);
    var s4 := MainStep(s3);
    ReachedNext(s4, Main, true);
    s := MainStep(s4);
  }

  /** With constructed nodes the first update pass unlinks slot 1, which was
      never linked: one sleeping task and one wake are enough. */
  lemma ConstructedPoolFaults()
    ensures Faults(true)
  {
    var s0 := FirstSlotUnlinked();
    ReachedNext(s0, Main, true);
    var s1 := MainStep(s0);
    ReachedNext(s1, Main, true);
    var s2 := MainStep(s1);
    assert s2.pc == Scan(1) && s2.queue == [0] && s2.task[1].schedule == Canceled;
    ReachedNext(s2, Main, true);
    assert MainStep(s2).pc == NullUnlink;
  }

  /** The scheduler unlinks a node that is not linked in some run exactly when
      the pool's nodes start as Canceled. */
  lemma UnlinkFaultExactly(constructed: bool)
    ensures Faults(constructed) <==> constructed
  {
    if constructed {
      ConstructedPoolFaults();
    } else if Faults(false) {
      var tr: seq<St>, evs: seq<Ev> :| IsRun(tr, evs, false) && tr[|evs|].pc == NullUnlink;
      EveryRun(tr, evs, |evs|);
    }
  }
}
