/** The scheduler over a pool whose nodes were constructed as cancelled, run by run: it
    goes on as over zero-filled nodes until an update pass comes to a slot that no task
    was ever created in. */
module SchedulerConstructed {
  import opened Words
  import opened SchedulerModel
  import opened SchedulerInvariant
  import opened SchedulerRuns

  /** As its constructor left it. */
  predicate Untouched(s: St, i: Slot)
    requires Sized(s)
  {
    i in s.free && s.task[i].schedule == Canceled
  }

  /** The untouched nodes read as zero-filled ones. */
  function AsZero(s: St): (r: St)
    requires Sized(s)
    ensures Sized(r)
  {
    s.(task := seq(POOL, i requires 0 <= i < POOL =>
         if Untouched(s, i) then s.task[i].(schedule := Free, to := Callee(0, 0)) else s.task[i]))
  }

  /** The update pass tests an untouched node, which it takes for a cancelled task. */
  predicate Trips(s: St, e: Ev)
    requires Sized(s)
  {
    e == Main && s.pc.Scan? && s.pc.next < POOL && Untouched(s, s.pc.next)
  }

  lemma {:induction false} InsertAtSame(a: seq<Rec>, b: seq<Rec>, q: seq<Slot>, runNext: word, k: nat)
    requires |a| == |b| == POOL && k <= |q|
    requires forall i: Slot :: a[i].runNext == b[i].runNext
    ensures InsertAt(a, q, runNext, k) == InsertAt(b, q, runNext, k)
    decreases |q| - k
  {
    if k < |q| {
      InsertAtSame(a, b, q, runNext, k + 1);
    }
  }

  /** Insertion of a slot that is not free does not look at the others' schedules. */
  lemma InsertCommutes(s: St, i: Slot)
    requires Sized(s) && i !in s.free
    ensures AsZero(DoInsert(s, i)) == DoInsert(AsZero(s), i)
  {
    InsertAtSame(s.task, AsZero(s).task, s.queue, s.task[i].runNext, 0);
    assert AsZero(DoInsert(s, i)).task == DoInsert(AsZero(s), i).task;
  }

  lemma NewCommutes(s: St, k: Kind, to: Callee)
    requires Sized(s) && s.free != [] && Distinct(s.free)
    ensures AsZero(DoNew(s, k, to)) == DoNew(AsZero(s), k, to)
  {
    hide U32, KindSchedule, KindInterval, Inserted;
    var i, d := s.free[0], KindInterval(k);
    var r := Rec(KindSchedule(k), U32(U32(s.now) + d), d, s.now + d, 0, to);
    TopTaken(s, r);
    hide AsZero, DoInsert;
    InsertCommutes(s.(free := s.free[1..], task := s.task[i := r]), i);
  }

  lemma TopTaken(s: St, r: Rec)
    requires Sized(s) && s.free != [] && Distinct(s.free)
    ensures var i := s.free[0]; var m := s.(free := s.free[1..], task := s.task[i := r]);
      AsZero(m) == AsZero(s).(free := m.free, task := AsZero(s).task[i := r]) && i !in m.free
  {
    var i := s.free[0];
    var m := s.(free := s.free[1..], task := s.task[i := r]);
    forall j: Slot
      ensures j in s.free <==> j in m.free || j == i
    {
      assert s.free == [i] + m.free;
    }
    assert AsZero(m).task == AsZero(s).task[i := r];
  }

  lemma ZeroOnly(s: St)
    requires Sized(s)
    ensures AsZero(s) == s.(task := AsZero(s).task)
  {
  }

  /** The steps of the update pass and of the look that change no task. */
  lemma PassTests(s: St, task: seq<Rec>)
    requires Sized(s) && |task| == POOL
    requires s.pc.Top? || s.pc.Clear? || s.pc.Scan? || s.pc.ScanWake? || Halted(s.pc)
    requires s.pc.Scan? && s.pc.next < POOL ==>
      s.task[s.pc.next].schedule != Canceled && task[s.pc.next].schedule != Canceled
    requires s.pc.ScanWake? ==> (s.task[s.pc.i].schedule == Wake <==> task[s.pc.i].schedule == Wake)
    ensures MainStep(s.(task := task)) == MainStep(s).(task := task) && MainStep(s).task == s.task
    ensures MainStep(s).free == s.free
  {
  }

  lemma LookTests(s: St, task: seq<Rec>)
    requires Sized(s) && |task| == POOL && s.pc == Look
    requires forall i: Slot :: task[i].runNext == s.task[i].runNext
    ensures MainStep(s.(task := task)) == MainStep(s).(task := task) && MainStep(s).task == s.task
    ensures MainStep(s).free == s.free
  {
    hide S32, U32;
  }

  /** The tests of run() and requeue(), and the unlinks. */
  lemma RunTests(s: St, task: seq<Rec>, i: Slot)
    requires Sized(s) && |task| == POOL && task[i] == s.task[i]
    requires s.pc in {Run(i), RunWoken(i), Call(i), Requeue(i), ScanPop(i), RePop(i)}
    ensures MainStep(s.(task := task)) == MainStep(s).(task := task) && MainStep(s).task == s.task
    ensures MainStep(s).free == s.free
  {
    hide Popped;
  }

  /** The stamps and the rearming of a task. */
  lemma Writes(s: St, task: seq<Rec>, i: Slot)
    requires Sized(s) && |task| == POOL && task[i] == s.task[i]
    requires s.pc in {ScanStamp(i), ReStamp(i), RunRearm(i)}
    ensures var r := MainStep(s);
      && r.free == s.free && r.task == s.task[i := r.task[i]]
      && MainStep(s.(task := task)) == r.(task := task[i := r.task[i]])
  {
    hide U32;
  }

  /** How a slot reads. */
  lemma Reads(s: St, i: Slot)
    requires Sized(s)
    ensures Untouched(s, i) ==> AsZero(s).task[i].schedule == Free
    ensures !Untouched(s, i) ==> AsZero(s).task[i] == s.task[i]
    ensures forall j: Slot :: AsZero(s).task[j].runNext == s.task[j].runNext
  {
  }

  /** The task that a step of the main loop has at hand. */
  function AtHand(pc: Pc): int {
    match pc
    case ScanPop(i) => i
    case ScanStamp(i) => i
    case ScanInsert(i) => i
    case Run(t) => t
    case RunWoken(t) => t
    case RunRearm(t) => t
    case Call(t) => t
    case Requeue(t) => t
    case RePop(t) => t
    case ReStamp(t) => t
    case ReInsert(t) => t
    case _ => -1
  }

  lemma AtHandIsNotFree(s: St, i: Slot)
    requires Sized(s) && Conserved(s) && Control(s)
    requires i == AtHand(s.pc) || i in s.queue
    ensures i !in s.free
  {
    assert Placed(s.queue, s.free, Hand(s.pc), i);
  }

  lemma PassCommutes(s: St)
    requires Sized(s) && Conserved(AsZero(s)) && Schedules(AsZero(s)) && Control(AsZero(s)) && !Trips(s, Main)
    requires AtHand(s.pc) == -1 && !InCode(s.pc)
    ensures AsZero(MainStep(s)) == MainStep(AsZero(s))
    ensures forall i: Slot :: Untouched(MainStep(s), i) <==> Untouched(s, i)
  {
    ZeroOnly(s);
    hide AsZero, Conserved, Control, DoFree;
    if s.pc.Scan? && s.pc.next < POOL {
      var i := s.pc.next;
      Reads(s, i);
      if s.task[i].schedule == Canceled {
        Cancelled(s, i);
        FreeCommutes(s, i);
        FreeIs(s, i);
        assert MainStep(s) == DoFree(s, i).(pc := Scan(i + 1));
        assert MainStep(AsZero(s)) == DoFree(AsZero(s), i).(pc := Scan(i + 1));
        ZeroOnly(DoFree(s, i));
        TaskOnly(DoFree(s, i), MainStep(s));
        return;
      }
    } else if s.pc.ScanWake? {
      Reads(s, s.pc.i);
    } else {
      Reads(s, 0);
    }
    if s.pc == Look {
      LookTests(s, AsZero(s).task);
    } else {
      PassTests(s, AsZero(s).task);
    }
    TaskOnly(s, MainStep(s));
  }

  /** A cancelled task that is not untouched is queued. */
  lemma Cancelled(s: St, i: Slot)
    requires Sized(s) && Conserved(AsZero(s)) && Schedules(AsZero(s))
    requires s.pc == Scan(i) && s.task[i].schedule == Canceled && !Untouched(s, i)
    ensures i in s.queue && i !in s.free
  {
    assert Placed(s.queue, s.free, Hand(s.pc), i);
  }

  lemma FreeIs(s: St, i: Slot)
    requires Sized(s) && i in s.queue && i !in s.free
    ensures forall j: Slot :: Untouched(DoFree(s, i), j) <==> Untouched(s, j)
  {
    hide Popped;
  }

  /** Untouched is a matter of the tasks and the free slots. */
  lemma TaskOnly(s: St, t: St)
    requires Sized(s) && Sized(t) && t.task == s.task && t.free == s.free
    ensures AsZero(t) == t.(task := AsZero(s).task)
    ensures forall i: Slot :: Untouched(t, i) <==> Untouched(s, i)
  {
    assert AsZero(t).task == AsZero(s).task;
  }

  lemma ChangeCommutes(s: St, t: St, i: Slot)
    requires Sized(s) && Sized(t) && t.free == s.free && i !in s.free && t.task == s.task[i := t.task[i]]
    ensures AsZero(t) == t.(task := AsZero(s).task[i := t.task[i]])
    ensures forall j: Slot :: Untouched(t, j) <==> Untouched(s, j)
  {
    assert AsZero(t).task == AsZero(s).task[i := t.task[i]];
  }

  lemma HandCommutes(s: St, i: Slot)
    requires Sized(s) && i == AtHand(s.pc) && i !in s.free
    ensures AsZero(MainStep(s)) == MainStep(AsZero(s))
    ensures forall j: Slot :: Untouched(MainStep(s), j) <==> Untouched(s, j)
  {
    ZeroOnly(s);
    Reads(s, i);
    hide AsZero, Untouched;
    if s.pc == ScanInsert(i) || s.pc == ReInsert(i) {
      InsertCommutes(s, i);
      LinkStep(s, i);
      LinkStep(AsZero(s), i);
      ZeroOnly(DoInsert(s, i));
      ChangeCommutes(s, DoInsert(s, i), i);
      TaskOnly(DoInsert(s, i), MainStep(s));
    } else if s.pc == ScanStamp(i) || s.pc == ReStamp(i) || s.pc == RunRearm(i) {
      Writes(s, AsZero(s).task, i);
      hide MainStep;
      ChangeCommutes(s, MainStep(s), i);
    } else {
      RunTests(s, AsZero(s).task, i);
      hide MainStep;
      TaskOnly(s, MainStep(s));
    }
  }

  /** No other step of the main loop tells the two apart, or touches an untouched slot. */
  lemma MainCommutes(s: St)
    requires Sized(s) && Inv(AsZero(s)) && !InCode(s.pc) && !Trips(s, Main)
    ensures AsZero(MainStep(s)) == MainStep(AsZero(s))
    ensures forall i: Slot :: Untouched(MainStep(s), i) <==> Untouched(s, i)
  {
    hide MainStep, AsZero, Untouched, Conserved, Schedules, Control;
    if AtHand(s.pc) == -1 {
      PassCommutes(s);
    } else {
      ZeroOnly(s);
      AtHandIsNotFree(AsZero(s), AtHand(s.pc));
      HandCommutes(s, AtHand(s.pc));
    }
  }

  lemma FreeCommutes(s: St, i: Slot)
    requires Sized(s) && i in s.queue && i !in s.free
    ensures AsZero(DoFree(s, i)) == DoFree(AsZero(s), i)
  {
    assert AsZero(DoFree(s, i)).task == DoFree(AsZero(s), i).task;
  }

  lemma WakeCommutes(s: St, w: set<Slot>)
    requires Sized(s) && forall i :: i in w ==> Live(s, i)
    ensures AsZero(DoWake(s, w)) == DoWake(AsZero(s), w) && forall i :: i in w ==> Live(AsZero(s), i)
  {
    assert AsZero(DoWake(s, w)).task == DoWake(AsZero(s), w).task;
  }

  lemma CancelCommutes(s: St, w: set<Slot>)
    requires Sized(s) && forall i :: i in w ==> i !in s.free
    ensures AsZero(DoCancel(s, w)) == DoCancel(AsZero(s), w)
  {
    assert AsZero(DoCancel(s, w)).task == DoCancel(AsZero(s), w).task;
  }

  /** Nor does any other event. */
  lemma Commutes(s: St, e: Ev)
    requires Sized(s) && Inv(AsZero(s)) && Enabled(s, e) && !Trips(s, e)
    ensures Enabled(AsZero(s), e) && AsZero(Step(s, e)) == Step(AsZero(s), e)
  {
    var z := AsZero(s);
    assert Conserved(z);
    hide Inv, DoNew, MainStep, DoWake, DoCancel;
    match e
    case Tick(dt) =>
    case Isr(w) =>
      WakeCommutes(s, w);
    case Main => MainCommutes(s);
    case New(k, to) =>
      if s.free != [] {
        NewCommutes(s, k, to);
      }
    case Cancel(w) =>
      assert forall i :: i in w ==> Placed(s.queue, s.free, Hand(s.pc), i);
      CancelCommutes(s, w);
    case Adjust(i, d) =>
      assert AsZero(Step(s, e)).task == Step(z, e).task;
    case Return =>
  }

  /** The nodes start as zero-filled ones would. */
  lemma StartAsZero(now: int)
    ensures Inv(AsZero(Start(now, true)))
  {
    StartInv(now);
    var z, s := Start(now, false), Start(now, true);
    forall i: Slot
      ensures s.free[i] == i && Untouched(s, i)
    {
      assert s.free[i] == i;
    }
    assert AsZero(s).task == z.task;
    assert AsZero(s) == z.(constructed := true);
    SameInv(z, AsZero(s));
  }

  lemma SameInv(s: St, t: St)
    requires Inv(s) && t == s.(constructed := t.constructed)
    ensures Inv(t)
  {
  }

  /** No step before event n trips. */
  ghost predicate Clear(tr: seq<St>, evs: seq<Ev>, n: nat)
    requires n <= |evs| < |tr|
  {
    forall j :: 0 <= j < n ==> Sized(tr[j]) && !Trips(tr[j], evs[j])
  }

  /** As long as nothing trips, a run over constructed nodes has the invariant of runs over
      zero-filled ones. */
  lemma {:induction false} AsZeroKeeps(tr: seq<St>, evs: seq<Ev>, n: nat)
    requires IsRun(tr, evs, true) && n <= |evs| && Clear(tr, evs, n)
    ensures Sized(tr[n]) && (Inv(AsZero(tr[n])) || Stopped(tr[n].pc))
  {
    hide Inv, AsZero, Step;
    if n == 0 {
      StartAsZero(tr[0].now);
    } else {
      AsZeroKeeps(tr, evs, n - 1);
      assert Leads(tr, evs, n - 1);
      var s, e := tr[n - 1], evs[n - 1];
      assert !Trips(s, e);
      Commutes(s, e);
      StepKeeps(AsZero(s), e);
      PcOf(Step(s, e));
    }
  }

  lemma PcOf(s: St)
    requires Sized(s)
    ensures AsZero(s).pc == s.pc
  {
  }

  /** What trips is an unlink of a node that was never linked; nothing else is. */
  lemma TripFaults(s: St, e: Ev)
    requires Sized(s) && Inv(AsZero(s)) && Enabled(s, e)
    ensures Step(s, e).pc == NullUnlink <==> Trips(s, e)
  {
    hide Inv, Step, AsZero;
    if Trips(s, e) {
      UntouchedUnlinks(s, e);
    } else {
      Commutes(s, e);
      StepKeeps(AsZero(s), e);
      PcOf(Step(s, e));
      NotUnlinked(Step(AsZero(s), e));
    }
  }

  lemma NotUnlinked(s: St)
    requires Inv(s) || Stopped(s.pc)
    ensures s.pc != NullUnlink
  {
  }

  lemma UntouchedUnlinks(s: St, e: Ev)
    requires Sized(s) && Inv(AsZero(s)) && Trips(s, e)
    ensures Step(s, e).pc == NullUnlink
  {
    assert Placed(s.queue, s.free, Hand(s.pc), s.pc.next);
  }

  // ----- untouched slots are those never allocated

  /** A task is created in slot i. */
  predicate Allocates(s: St, e: Ev, i: Slot) {
    e.New? && s.free != [] && s.free[0] == i
  }

  predicate NeverAllocated(tr: seq<St>, evs: seq<Ev>, n: nat, i: Slot)
    requires n <= |evs| < |tr|
  {
    forall j :: 0 <= j < n ==> !Allocates(tr[j], evs[j], i)
  }

  lemma UntouchedNext(s: St, e: Ev, i: Slot)
    requires Sized(s) && Inv(AsZero(s)) && Enabled(s, e) && !Trips(s, e)
    ensures Untouched(Step(s, e), i) <==> Untouched(s, i) && !Allocates(s, e, i)
  {
    assert Schedules(AsZero(s)) && Conserved(AsZero(s));
    assert i in s.free ==> Untouched(s, i) || s.task[i].schedule == Free;
    assert Placed(s.queue, s.free, Hand(s.pc), i);
    hide AsZero, Schedules, Conserved, MainStep, Inv;
    match e
    case Tick(_) =>
    case Isr(w) =>
    case Main => MainCommutes(s);
    case New(k, to) =>
      if s.free != [] {
        UntouchedNew(s, k, to, i);
      }
    case Cancel(w) =>
    case Adjust(_, _) =>
    case Return =>
  }

  lemma UntouchedNew(s: St, k: Kind, to: Callee, i: Slot)
    requires Sized(s) && s.free != [] && Conserved(AsZero(s))
    ensures Untouched(DoNew(s, k, to), i) <==> Untouched(s, i) && i != s.free[0]
  {
    assert Distinct(s.free);
    assert s.free == [s.free[0]] + s.free[1..];
    hide AsZero, Inserted, KindSchedule, KindInterval, U32;
  }

  lemma StartUntouched(now: int, i: Slot)
    ensures Sized(Start(now, true)) && Untouched(Start(now, true), i)
  {
    assert Start(now, true).free[i] == i;
  }

  lemma NotStopped(s: St, e: Ev)
    requires Sized(s) && Enabled(s, e)
    ensures !Stopped(s.pc)
  {
  }

  lemma {:induction false} UntouchedIs(tr: seq<St>, evs: seq<Ev>, n: nat, i: Slot)
    requires IsRun(tr, evs, true) && n <= |evs| && Clear(tr, evs, n)
    ensures Sized(tr[n]) && (Untouched(tr[n], i) <==> NeverAllocated(tr, evs, n, i))
  {
    hide Inv, Step, AsZero, Untouched, Allocates, Start, Enabled, Trips;
    if n == 0 {
      StartUntouched(tr[0].now, i);
    } else {
      UntouchedIs(tr, evs, n - 1, i);
      AsZeroKeeps(tr, evs, n - 1);
      assert Leads(tr, evs, n - 1) && !Trips(tr[n - 1], evs[n - 1]);
      NotStopped(tr[n - 1], evs[n - 1]);
      UntouchedNext(tr[n - 1], evs[n - 1], i);
    }
  }

  // ----- when a run faults

  /** With event k an update pass tests a slot in which no task was created before. */
  predicate Reaches(tr: seq<St>, evs: seq<Ev>, k: nat, i: Slot)
    requires k < |evs| < |tr|
  {
    evs[k] == Main && tr[k].pc == Scan(i) && NeverAllocated(tr, evs, k, i)
  }

  lemma TripIsReach(tr: seq<St>, evs: seq<Ev>, k: nat)
    requires IsRun(tr, evs, true) && k < |evs| && Clear(tr, evs, k)
    ensures Sized(tr[k]) && (Trips(tr[k], evs[k]) <==> exists i: Slot :: Reaches(tr, evs, k, i))
  {
    hide Untouched, NeverAllocated;
    assert Leads(tr, evs, k);
    forall i: Slot
      ensures Untouched(tr[k], i) <==> NeverAllocated(tr, evs, k, i)
    {
      UntouchedIs(tr, evs, k, i);
    }
    if Trips(tr[k], evs[k]) {
      assert Reaches(tr, evs, k, tr[k].pc.next);
    }
  }

  /** A run over constructed nodes faults exactly with the first update pass that comes to
      a slot never allocated, and at that slot. */
  lemma {:induction false} ConstructedFaultsExactly(tr: seq<St>, evs: seq<Ev>, n: nat)
    requires IsRun(tr, evs, true) && n <= |evs|
    ensures tr[n].pc == NullUnlink <==> exists k: nat, i: Slot :: k < n && Reaches(tr, evs, k, i)
    ensures tr[n].pc != NullUnlink ==> Clear(tr, evs, n)
  {
    hide Reaches, Trips, Step, Inv, AsZero;
    if n > 0 {
      var k := n - 1;
      ConstructedFaultsExactly(tr, evs, k);
      assert Leads(tr, evs, k);
      assert tr[k].pc != NullUnlink;
      AsZeroKeeps(tr, evs, k);
      TripFaults(tr[k], evs[k]);
      TripIsReach(tr, evs, k);
    }
  }

  // ----- what a pass needs

  /** The pass under way has tested slot i. */
  predicate Tested(pc: Pc, i: Slot) {
    match pc
    case Scan(j) => i < j
    case ScanWake(j) => i <= j
    case ScanPop(j) => i <= j
    case ScanStamp(j) => i <= j
    case ScanInsert(j) => i <= j
    case _ => false
  }

  lemma TestedNext(s: St, e: Ev, i: Slot)
    requires Sized(s) && Enabled(s, e) && !Trips(s, e) && Step(s, e).pc != NullUnlink
    requires Inv(AsZero(s)) && (Tested(s.pc, i) ==> !Untouched(s, i))
    ensures Tested(Step(s, e).pc, i) ==> !Untouched(Step(s, e), i)
  {
    UntouchedNext(s, e, i);
    hide Inv, AsZero, Untouched, MainStep, Tested;
    if e == Main {
      TestedByMain(s, i);
      assert Step(s, e) == MainStep(s);
      assert s.pc == Scan(i) ==> !Untouched(s, i);
    } else {
      TestedOtherwise(s, e, i);
    }
  }

  /** Only the test of slot i itself, which finds it touched. */
  lemma TestedByMain(s: St, i: Slot)
    requires Sized(s)
    ensures Tested(MainStep(s).pc, i) ==> Tested(s.pc, i) || s.pc == Scan(i)
  {
    hide DoFree, DoInsert, DoStampNow, DoStampNext, Popped, SetSchedule, IsReady;
  }

  lemma TestedOtherwise(s: St, e: Ev, i: Slot)
    requires Sized(s) && e != Main
    ensures Tested(Step(s, e).pc, i) ==> Tested(s.pc, i)
  {
    hide DoWake, DoCancel;
    PcsKept(s, e);
    hide DoNew;
  }

  lemma PcsKept(s: St, e: Ev)
    requires Sized(s)
    ensures e.Isr? ==> DoWake(s, e.w).pc == s.pc
    ensures e.Cancel? ==> DoCancel(s, e.w).pc == s.pc
    ensures e.New? && s.free != [] ==> DoNew(s, e.kind, e.to).pc == s.pc
  {
  }

  /** A pass over constructed nodes comes to its end only when a task has been created in
      every slot. */
  lemma {:induction false} PassNeedsAll(tr: seq<St>, evs: seq<Ev>, n: nat, i: Slot)
    requires IsRun(tr, evs, true) && n <= |evs| && tr[n].pc != NullUnlink
    ensures Tested(tr[n].pc, i) ==> !NeverAllocated(tr, evs, n, i)
  {
    hide Inv, AsZero, Step, Tested, Untouched, NeverAllocated, Trips;
    ConstructedFaultsExactly(tr, evs, n);
    UntouchedIs(tr, evs, n, i);
    TestedIs(tr, evs, n, i);
  }

  lemma {:induction false} TestedIs(tr: seq<St>, evs: seq<Ev>, n: nat, i: Slot)
    requires IsRun(tr, evs, true) && n <= |evs| && Clear(tr, evs, n)
    ensures Sized(tr[n]) && (Tested(tr[n].pc, i) ==> !Untouched(tr[n], i))
  {
    if n > 0 {
      TestedIs(tr, evs, n - 1, i);
      AsZeroKeeps(tr, evs, n - 1);
      assert Leads(tr, evs, n - 1) && !Trips(tr[n - 1], evs[n - 1]);
      TripFaults(tr[n - 1], evs[n - 1]);
      hide Inv, AsZero, Step, Tested, Untouched;
      TestedNext(tr[n - 1], evs[n - 1], i);
    }
  }
}
