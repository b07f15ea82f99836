/** What every step of the scheduler keeps, and what follows for whole runs. */
module SchedulerInvariant {
  import opened Words
  import opened SchedulerModel

  predicate Distinct(q: seq<Slot>) {
    forall a, b :: 0 <= a < b < |q| ==> q[a] != q[b]
  }

  /** A slot is in exactly one place: the queue, the free stack or in hand. */
  predicate Placed(queue: seq<Slot>, free: seq<Slot>, hand: int, i: Slot) {
    if i in queue then i !in free && i != hand
    else if i in free then i != hand
    else i == hand
  }

  predicate Conserved(s: St) {
    Distinct(s.queue) && Distinct(s.free) && forall i: Slot :: Placed(s.queue, s.free, Hand(s.pc), i)
  }

  /** The wrapped deadline stands for an absolute one within MAX_INTV of now. */
  predicate Timely(now: int, r: Rec) {
    r.runNext == U32(r.due) && now - MAX_INTV < r.due <= now + MAX_INTV
  }

  predicate Times(s: St)
    requires Sized(s)
  {
    && (forall i: Slot :: s.task[i].runInterval <= MAX_INTV)
    && (forall i: Slot :: i !in s.free ==> Timely(s.now, s.task[i]))
  }

  /** Earlier deadline first, first come first served among equals. */
  predicate Before(x: Rec, y: Rec) {
    x.due < y.due || (x.due == y.due && x.arrival < y.arrival)
  }

  predicate Sorted(task: seq<Rec>, q: seq<Slot>)
    requires |task| == POOL
  {
    forall a, b :: 0 <= a < b < |q| ==> Before(task[q[a]], task[q[b]])
  }

  predicate Ordered(s: St)
    requires Sized(s)
  {
    Sorted(s.task, s.queue) && forall a :: 0 <= a < |s.queue| ==> s.task[s.queue[a]].arrival < s.stamp
  }

  /** The task at hand is queued and due while it runs. */
  predicate Control(s: St)
    requires Sized(s)
  {
    match s.pc
    case ScanPop(i) => i in s.queue
    case ScanInsert(i) => s.task[i].due <= s.now
    case Run(t) => t in s.queue && s.task[t].due <= s.now
    case RunWoken(t) => t in s.queue && s.task[t].due <= s.now
    case RunRearm(t) => t in s.queue && s.task[t].due <= s.now
    case Call(t) => t in s.queue && s.task[t].due <= s.now
    case Body(t) => t in s.queue && s.task[t].due <= s.now
    case Requeue(t) => t in s.queue && s.task[t].due <= s.now
    case RePop(t) => t in s.queue && s.task[t].due <= s.now
    case ReStamp(t) => s.task[t].due <= s.now
    case _ => !Halted(s.pc)
  }

  predicate Schedules(s: St)
    requires Sized(s)
  {
    forall i: Slot :: i in s.free <==> s.task[i].schedule == Free
  }

  /** The update pass under way will still look at slot i. */
  predicate Ahead(pc: Pc, i: Slot) {
    match pc
    case Scan(j) => j <= i
    case ScanWake(j) => j <= i
    case ScanPop(j) => j <= i
    case ScanStamp(j) => j <= i
    case ScanInsert(j) => j < i
    case _ => false
  }

  /** A cancelled task waits for an update pass, and none is left when the
      scheduler looks for a task to run. */
  predicate Cancels(s: St)
    requires Sized(s)
  {
    forall i: Slot :: s.task[i].schedule == Canceled ==>
      match s.pc
      case Scan(j) => j <= i
      case ScanWake(j) => j < i
      case ScanPop(j) => j < i
      case ScanStamp(j) => j < i
      case ScanInsert(j) => j < i
      case Top => s.flag
      case Clear => s.flag
      case Boot => s.flag
      case Body(_) => s.flag
      case Requeue(_) => s.flag
      case RePop(t) => s.flag && i != t
      case ReStamp(t) => s.flag && i != t
      case ReInsert(t) => s.flag && i != t
      case _ => false
  }

  /** t is between its callback's start and the end of its requeueing. */
  predicate Finishing(pc: Pc, t: Slot) {
    match pc
    case Body(u) => u == t
    case Requeue(u) => u == t
    case RePop(u) => u == t
    case ReStamp(u) => u == t
    case ReInsert(u) => u == t
    case _ => false
  }

  /** A wake that has not been answered yet cannot be forgotten. */
  predicate WakeKept(s: St, t: Slot)
    requires Sized(s)
  {
    && t !in s.free
    && (s.task[t].schedule == Wake || s.pc == Call(t))
    && (s.flag || Ahead(s.pc, t) || (s.task[t].due <= s.now && !Finishing(s.pc, t)))
  }

  predicate Wakes(s: St)
    requires Sized(s)
  {
    forall t :: t in s.pending ==> WakeKept(s, t)
  }

  predicate Inv(s: St) {
    Sized(s) && Conserved(s) && Times(s) && Ordered(s) && Control(s) && Schedules(s) && Cancels(s) && Wakes(s)
  }

  // ----- queue lemmas

  lemma PoppedIs(q: seq<Slot>, i: Slot)
    requires Distinct(q) && i in q
    ensures Distinct(Popped(q, i))
    ensures forall j :: j in Popped(q, i) <==> j in q && j != i
  {
    var k, p := Index(q, i), Popped(q, i);
    forall j | j in q && j != i ensures j in p {
      var a :| 0 <= a < |q| && q[a] == j;
      assert a < k ==> p[a] == j;
      assert a > k ==> p[a - 1] == j;
    }
  }

  lemma PoppedOrdered(task: seq<Rec>, q: seq<Slot>, i: Slot)
    requires |task| == POOL && Sorted(task, q) && i in q
    ensures Sorted(task, Popped(q, i))
  {
  }

  /** The wrapped comparison in insert() finds the absolute place: all before it
      are due no later, all from it on are due later. */
  lemma {:induction false} InsertAtSplits(now: int, task: seq<Rec>, q: seq<Slot>, i: Slot, k: nat)
    requires |task| == POOL && Sorted(task, q) && k <= |q|
    requires Timely(now, task[i])
    requires forall a :: 0 <= a < |q| ==> Timely(now, task[q[a]])
    ensures var r := InsertAt(task, q, task[i].runNext, k);
      && (forall a :: k <= a < r ==> task[q[a]].due <= task[i].due)
      && (forall a :: r <= a < |q| ==> task[i].due < task[q[a]].due)
    decreases |q| - k
  {
    if k < |q| {
      assert Timely(now, task[q[k]]);
      WrappedDifference(task[i].due, task[q[k]].due);
      if task[i].due < task[q[k]].due {
        forall a | k <= a < |q| ensures task[i].due < task[q[a]].due {
          assert a == k || Before(task[q[k]], task[q[a]]);
        }
      } else {
        InsertAtSplits(now, task, q, i, k + 1);
      }
    }
  }

  lemma InsertedIs(task: seq<Rec>, q: seq<Slot>, i: Slot)
    requires |task| == POOL && Distinct(q) && i !in q
    ensures Distinct(Inserted(task, q, i))
    ensures forall j :: j in Inserted(task, q, i) <==> j in q || j == i
  {
    var k, r := InsertAt(task, q, task[i].runNext, 0), Inserted(task, q, i);
    assert r[k] == i;
    forall j | j in q ensures j in r {
      var a :| 0 <= a < |q| && q[a] == j;
      assert a < k ==> r[a] == j;
      assert a >= k ==> r[a + 1] == j;
    }
  }

  /** Insertion keeps the order, the new task last among equal deadlines. */
  lemma InsertKeepsOrder(now: int, task: seq<Rec>, q: seq<Slot>, i: Slot, stamp: int)
    requires |task| == POOL && Sorted(task, q) && i !in q
    requires Timely(now, task[i])
    requires forall a :: 0 <= a < |q| ==> Timely(now, task[q[a]]) && task[q[a]].arrival < stamp
    ensures Sorted(task[i := task[i].(arrival := stamp)], Inserted(task, q, i))
  {
    InsertAtSplits(now, task, q, i, 0);
    var k, r := InsertAt(task, q, task[i].runNext, 0), Inserted(task, q, i);
    var task' := task[i := task[i].(arrival := stamp)];
    forall a, b | 0 <= a < b < |r| ensures Before(task'[r[a]], task'[r[b]]) {
      var a', b' := if a < k then a else a - 1, if b < k then b else b - 1;
      assert a != k ==> r[a] == q[a'];
      assert b != k ==> r[b] == q[b'];
      assert a != k && b != k ==> Before(task[q[a']], task[q[b']]);
    }
  }

  // ----- events other than the scheduler's own steps

  lemma TickKeeps(s: St, dt: nat)
    requires Inv(s) && Enabled(s, Tick(dt))
    ensures Inv(Step(s, Tick(dt)))
  {
  }

  lemma WakeIs(s: St, w: set<Slot>)
    requires Sized(s)
    ensures var r := Step(s, Isr(w));
      && r == s.(task := r.task, flag := s.flag || w != {}, pending := s.pending + w)
      && forall i: Slot :: r.task[i] == if i in w then s.task[i].(schedule := Wake) else s.task[i]
  {
  }

  lemma WakeKeeps(s: St, w: set<Slot>)
    requires Inv(s) && Enabled(s, Isr(w))
    ensures Inv(Step(s, Isr(w)))
  {
    WakeIs(s, w);
    hide Step, DoWake, Timely;
    var r := Step(s, Isr(w));
    assert Conserved(r);
    assert Times(r) by {
      forall i: Slot | i !in s.free ensures Timely(r.now, r.task[i]) {
        TimelyBy(s.now, s.task[i], r.task[i]);
      }
    }
    assert Wakes(r);
  }

  lemma TimelyBy(now: int, x: Rec, y: Rec)
    requires Timely(now, x) && y.due == x.due && y.runNext == x.runNext
    ensures Timely(now, y)
  {
  }

  lemma CancelKeeps(s: St, w: set<Slot>)
    requires Inv(s) && Enabled(s, Cancel(w))
    ensures Inv(Step(s, Cancel(w)))
  {
    forall i | i in w ensures i !in s.free {
      assert Placed(s.queue, s.free, Hand(s.pc), i);
    }
    hide Timely, Placed, Sorted, Distinct;
    var r := DoCancel(s, w);
    forall i: Slot | i !in s.free
      ensures Timely(r.now, r.task[i])
    {
      TimelyBy(s.now, s.task[i], r.task[i]);
    }
    SortedBy(s.task, r.task, s.queue);
  }

  lemma AdjustKeeps(s: St, i: Slot, d: word)
    requires Inv(s) && Enabled(s, Adjust(i, d))
    ensures Inv(Step(s, Adjust(i, d)))
  {
    ToMonoRawBound(d);
  }

  lemma ReturnKeeps(s: St)
    requires Inv(s) && Enabled(s, Return)
    ensures Inv(Step(s, Return))
  {
    assert Hand(s.pc) == Hand(Step(s, Return).pc);
  }

  /** insert() of the task in hand. */
  lemma DoInsertKeeps(s: St, i: Slot)
    requires Sized(s) && Times(s) && Ordered(s) && Distinct(s.queue)
    requires i !in s.queue && i !in s.free && forall j :: j in s.queue ==> j !in s.free
    ensures var r := DoInsert(s, i);
      Distinct(r.queue) && Times(r) && Ordered(r) && (forall j :: j in r.queue <==> j in s.queue || j == i)
  {
    InsertedIs(s.task, s.queue, i);
    forall a | 0 <= a < |s.queue| ensures Timely(s.now, s.task[s.queue[a]]) && s.task[s.queue[a]].arrival < s.stamp {
      assert s.queue[a] in s.queue;
      assert Timely(s.now, s.task[s.queue[a]]);
    }
    InsertKeepsOrder(s.now, s.task, s.queue, i, s.stamp);
  }

  lemma NewKeeps(s: St, k: Kind, to: Callee)
    requires Inv(s) && Enabled(s, New(k, to)) && s.free != []
    ensures Inv(Step(s, New(k, to)))
  {
    assert Sized(s);
    hide Inv, DoInsert, Timely, U32, KindInterval;
    var i, d := s.free[0], KindInterval(k);
    KindIntervalBound(k);
    var r := Rec(KindSchedule(k), U32(U32(s.now) + d), d, s.now + d, 0, to);
    FromNow(s.now, d, r);
    AllocKeeps(s, s.(free := s.free[1..], task := s.task[i := r]), i);
  }

  lemma FromNow(now: int, d: nat, r: Rec)
    requires d <= MAX_INTV && r.runNext == U32(U32(now) + d) && r.due == now + d
    ensures Timely(now, r)
  {
    U32Add(now, d);
  }

  lemma AllocKeeps(s: St, m: St, i: Slot)
    requires Inv(s) && InCode(s.pc) && s.free != [] && i == s.free[0] && Sized(m)
    requires m == s.(free := s.free[1..], task := s.task[i := m.task[i]])
    requires Timely(m.now, m.task[i]) && m.task[i].runInterval <= MAX_INTV
    requires m.task[i].schedule == Sleep || m.task[i].schedule == Periodic
    ensures Inv(DoInsert(m, i))
  {
    var r := DoInsert(m, i);
    assert Placed(s.queue, s.free, Hand(s.pc), i);
    TakenFromFree(s, m, i);
    DoInsertKeeps(m, i);
    AllocKeepsRequests(s, m, i);
    hide Timely, Sorted, Inserted, Schedules, Cancels, Wakes, Times, Ordered;
    forall j: Slot
      ensures Placed(r.queue, r.free, Hand(r.pc), j)
    {
      assert Placed(s.queue, s.free, Hand(s.pc), j);
    }
  }

  lemma AllocKeepsRequests(s: St, m: St, i: Slot)
    requires Inv(s) && InCode(s.pc) && Sized(m) && Schedules(m)
    requires m == s.(free := m.free, task := s.task[i := m.task[i]])
    requires i in s.free && forall j :: j in m.free ==> j in s.free
    requires m.task[i].schedule == Sleep || m.task[i].schedule == Periodic
    ensures var r := DoInsert(m, i); Schedules(r) && Cancels(r) && Wakes(r)
  {
    hide Timely, Sorted, Inserted, Placed, Distinct, Conserved, Times, Ordered;
    var r := DoInsert(m, i);
    forall t | t in r.pending
      ensures WakeKept(r, t)
    {
      assert WakeKept(s, t);
    }
  }

  lemma KindIntervalBound(k: Kind)
    ensures 0 <= KindInterval(k) <= MAX_INTV
  {
    match k {
      case KSleep(f) => ToMonoRawBound(f);
      case KPeriodic(f) => ToMonoRawBound(f);
      case KWait =>
    }
  }

  /** alloc(): m is s with the top of the free stack taken and set up. */
  lemma TakenFromFree(s: St, m: St, i: Slot)
    requires Inv(s) && s.free != [] && i == s.free[0] && Sized(m) && i !in s.queue
    requires m == s.(free := s.free[1..], task := s.task[i := m.task[i]])
    requires Timely(m.now, m.task[i]) && m.task[i].runInterval <= MAX_INTV && m.task[i].schedule != Free
    ensures i !in m.free && (forall j :: j in s.free <==> j in m.free || j == i)
    ensures forall j :: j in m.queue ==> j !in m.free
    ensures Times(m) && Ordered(m) && Schedules(m)
  {
    forall j | j in s.queue ensures j !in s.free {
      assert Placed(s.queue, s.free, Hand(s.pc), j);
    }
    forall j | j in s.free && j != i ensures j in m.free {
      var a :| 0 <= a < |s.free| && s.free[a] == j;
      assert m.free[a - 1] == j;
    }
    assert forall a :: 0 <= a < |s.queue| ==> s.queue[a] in s.queue;
  }

  // ----- the scheduler's own steps

  lemma TestsKeep(s: St)
    requires Inv(s) && Enabled(s, Main)
    requires s.pc.Top? || s.pc.Clear? || s.pc.ScanWake?
    ensures Inv(MainStep(s))
  {
    assert Hand(s.pc) == Hand(MainStep(s).pc);
    if s.pc.ScanWake? {
      assert Placed(s.queue, s.free, Hand(s.pc), s.pc.i);
    }
  }

  /** The look at the queue; an empty one may lead to the root's null callback. */
  lemma LookKeeps(s: St)
    requires Inv(s) && s.pc.Look?
    ensures MainStep(s).pc == NullCall <==> s.queue == [] && RootFaults(s)
    ensures MainStep(s).pc != NullCall ==> Inv(MainStep(s))
  {
    var r := MainStep(s);
    assert Hand(s.pc) == Hand(r.pc);
    assert r == s.(pc := r.pc, turns := r.turns);
    if s.queue != [] {
      var h := s.queue[0];
      assert h in s.queue && Placed(s.queue, s.free, Hand(s.pc), h);
      ReadyIsDue(s, h);
    }
    hide MainStep, IsReady, S32, U32, Timely, RootFaults;
  }

  /** While its deadline is timely, a task tests ready exactly when it is due. */
  lemma ReadyIsDue(s: St, i: Slot)
    requires Sized(s) && Timely(s.now, s.task[i])
    ensures IsReady(s.now, s.task[i]) <==> s.task[i].due <= s.now
  {
    WrappedDifference(s.now, s.task[i].due);
  }

  lemma RunKeeps(s: St)
    requires Inv(s) && Enabled(s, Main)
    requires s.pc.Run? || s.pc.RunWoken? || s.pc.RunRearm? || s.pc.Call? || s.pc.Requeue?
    ensures Inv(MainStep(s))
  {
    RunKeepsQueue(s);
    RunKeepsRequests(s);
    hide MainStep, Conserved, Times, Ordered, Control, Schedules, Cancels, Wakes;
  }

  lemma RunKeepsQueue(s: St)
    requires Inv(s) && Enabled(s, Main)
    requires s.pc.Run? || s.pc.RunWoken? || s.pc.RunRearm? || s.pc.Call? || s.pc.Requeue?
    ensures var r := MainStep(s); Conserved(r) && Times(r) && Ordered(r) && Control(r)
  {
    hide Timely, Placed, Sorted, Distinct, Schedules, Cancels, Wakes;
    var r := MainStep(s);
    assert Hand(s.pc) == Hand(r.pc);
    forall i: Slot | i !in s.free
      ensures Timely(r.now, r.task[i])
    {
      TimelyBy(s.now, s.task[i], r.task[i]);
    }
    SortedBy(s.task, r.task, s.queue);
  }

  lemma RunKeepsRequests(s: St)
    requires Inv(s) && Enabled(s, Main)
    requires s.pc.Run? || s.pc.RunWoken? || s.pc.RunRearm? || s.pc.Call? || s.pc.Requeue?
    ensures var r := MainStep(s); Schedules(r) && Cancels(r) && Wakes(r)
  {
    assert Placed(s.queue, s.free, Hand(s.pc), s.pc.t);
    hide Timely, Placed, Sorted, Distinct, Conserved, Times, Ordered;
  }

  lemma SortedBy(task: seq<Rec>, later: seq<Rec>, q: seq<Slot>)
    requires |task| == |later| == POOL && Sorted(task, q)
    requires forall i: Slot :: later[i].due == task[i].due && later[i].arrival == task[i].arrival
    ensures Sorted(later, q)
  {
  }

  lemma FreeKeeps(s: St, i: Slot)
    requires Inv(s) && s.pc == Scan(i) && s.task[i].schedule == Canceled
    ensures Inv(MainStep(s))
  {
    assert Placed(s.queue, s.free, Hand(s.pc), i);
    FreeKeepsQueue(s, i);
    FreeKeepsRequests(s, i);
    hide DoFree, Conserved, Times, Ordered, Schedules, Cancels, Wakes;
  }

  lemma FreeKeepsQueue(s: St, i: Slot)
    requires Inv(s) && s.pc == Scan(i) && i in s.queue
    ensures var r := DoFree(s, i).(pc := Scan(i + 1)); Conserved(r) && Times(r) && Ordered(r)
  {
    var r := DoFree(s, i).(pc := Scan(i + 1));
    PoppedIs(s.queue, i);
    PoppedOrdered(s.task, s.queue, i);
    assert Placed(s.queue, s.free, Hand(s.pc), i);
    hide Popped, Timely, Schedules, Cancels, Wakes;
    forall j: Slot
      ensures Placed(r.queue, r.free, Hand(r.pc), j)
    {
      assert Placed(s.queue, s.free, Hand(s.pc), j);
    }
    assert forall a :: 0 <= a < |r.queue| ==> r.queue[a] in r.queue && r.queue[a] != i;
  }

  lemma FreeKeepsRequests(s: St, i: Slot)
    requires Inv(s) && s.pc == Scan(i) && i in s.queue && s.task[i].schedule == Canceled
    ensures var r := DoFree(s, i).(pc := Scan(i + 1)); Schedules(r) && Cancels(r) && Wakes(r)
  {
    hide Popped, Timely, Placed, Sorted, Distinct, Conserved, Times, Ordered;
    var r := DoFree(s, i).(pc := Scan(i + 1));
    forall t | t in r.pending
      ensures WakeKept(r, t)
    {
      assert WakeKept(s, t);
    }
  }

  lemma ScanKeeps(s: St)
    requires Inv(s) && s.pc.Scan?
    ensures Inv(MainStep(s))
  {
    if s.pc.next < POOL && s.task[s.pc.next].schedule == Canceled {
      FreeKeeps(s, s.pc.next);
    } else {
      assert Hand(s.pc) == Hand(MainStep(s).pc);
    }
  }

  /** Unlinking leaves the outstanding wakes and cancellations in order. */
  lemma UnlinkKeepsRequests(s: St)
    requires Inv(s) && (s.pc.ScanPop? || s.pc.RePop?)
    ensures Schedules(MainStep(s)) && Cancels(MainStep(s)) && Wakes(MainStep(s)) && Control(MainStep(s))
  {
    hide Conserved, Times, Ordered, Inserted, Popped, U32;
    var r := MainStep(s);
    forall t | t in s.pending ensures WakeKept(r, t) {
      assert WakeKept(s, t);
    }
  }

  /** What setting the deadline of the task in hand changes. */
  lemma StampIs(s: St)
    requires Sized(s) && (s.pc.ScanStamp? || s.pc.ReStamp?)
    ensures var i, r := Hand(s.pc), MainStep(s);
      var t := r.task[i];
      && r == s.(task := s.task[i := t], pc := if s.pc.ScanStamp? then ScanInsert(i) else ReInsert(i))
      && t == s.task[i].(due := t.due, runNext := t.runNext)
      && (s.pc.ScanStamp? ==> t.due == s.now)
  {
  }

  lemma StampKeepsRequests(s: St)
    requires Inv(s) && (s.pc.ScanStamp? || s.pc.ReStamp?)
    ensures Schedules(MainStep(s)) && Cancels(MainStep(s)) && Wakes(MainStep(s)) && Control(MainStep(s))
  {
    StampIs(s);
    hide MainStep, Conserved, Times, Ordered;
    var r := MainStep(s);
    forall t | t in s.pending ensures WakeKept(r, t) {
      assert WakeKept(s, t);
    }
  }

  lemma LinkKeepsRequests(s: St)
    requires Inv(s) && (s.pc.ScanInsert? || s.pc.ReInsert?)
    ensures Schedules(MainStep(s)) && Cancels(MainStep(s)) && Wakes(MainStep(s)) && Control(MainStep(s))
  {
    hide Conserved, Times, Ordered, Inserted, Popped, U32;
    var r := MainStep(s);
    forall t | t in s.pending ensures WakeKept(r, t) {
      assert WakeKept(s, t);
    }
  }

  lemma UnlinkKeeps(s: St)
    requires Inv(s) && (s.pc.ScanPop? || s.pc.RePop?)
    ensures Inv(MainStep(s))
  {
    UnlinkKeepsRequests(s);
    var i, r := if s.pc.ScanPop? then s.pc.i else s.pc.t, MainStep(s);
    assert Placed(s.queue, s.free, Hand(s.pc), i);
    PoppedIs(s.queue, i);
    PoppedOrdered(s.task, s.queue, i);
    assert r == s.(queue := Popped(s.queue, i), pc := r.pc) && Hand(s.pc) == -1 && Hand(r.pc) == i;
    hide MainStep, Popped, Schedules, Cancels, Wakes, Timely, Control;
    forall j: Slot
      ensures Placed(r.queue, r.free, i, j)
    {
      assert Placed(s.queue, s.free, -1, j);
    }
    assert forall a :: 0 <= a < |r.queue| ==> r.queue[a] in r.queue;
  }

  lemma StampKeeps(s: St)
    requires Inv(s) && (s.pc.ScanStamp? || s.pc.ReStamp?)
    ensures Inv(MainStep(s))
  {
    StampKeepsRequests(s);
    StampIsTimely(s);
    StampIs(s);
    hide MainStep, Timely, Schedules, Cancels, Wakes, Control;
    var i, r := Hand(s.pc), MainStep(s);
    assert Hand(s.pc) == Hand(r.pc);
    assert Placed(s.queue, s.free, Hand(s.pc), i);
    assert Times(r);
    assert Ordered(r) by {
      assert forall a :: 0 <= a < |s.queue| ==> s.queue[a] in s.queue && s.queue[a] != i;
    }
  }

  lemma StampIsTimely(s: St)
    requires Inv(s) && (s.pc.ScanStamp? || s.pc.ReStamp?)
    ensures Timely(s.now, MainStep(s).task[Hand(s.pc)])
  {
    var i := Hand(s.pc);
    assert Placed(s.queue, s.free, i, i);
    U32Add(s.now, s.task[i].runInterval);
    U32Add(s.task[i].due, s.task[i].runInterval);
  }

  lemma LinkKeeps(s: St)
    requires Inv(s) && (s.pc.ScanInsert? || s.pc.ReInsert?)
    ensures Inv(MainStep(s))
  {
    LinkKeepsRequests(s);
    var i, r := Hand(s.pc), MainStep(s);
    InHand(s);
    LinkStep(s, i);
    hide MainStep, Timely, Schedules, Cancels, Wakes, Control, Placed;
    DoInsertKeeps(s, i);
    hide DoInsert;
    LinkPlaces(s.queue, r.queue, s.free, i);
  }

  /** The slot in hand is in no list, and no slot is in both. */
  lemma InHand(s: St)
    requires Conserved(s) && Hand(s.pc) >= 0
    ensures Hand(s.pc) < POOL && Hand(s.pc) !in s.queue && Hand(s.pc) !in s.free
    ensures forall j :: j in s.queue ==> j !in s.free
  {
    forall j | j in s.queue
      ensures j !in s.free
    {
      assert Placed(s.queue, s.free, Hand(s.pc), j);
    }
    assert Hand(s.pc) < POOL ==> Placed(s.queue, s.free, Hand(s.pc), Hand(s.pc));
  }

  lemma LinkPlaces(q: seq<Slot>, q': seq<Slot>, free: seq<Slot>, i: Slot)
    requires forall j: Slot :: Placed(q, free, i, j)
    requires forall j :: j in q' <==> j in q || j == i
    requires i !in free
    ensures forall j: Slot :: Placed(q', free, -1, j)
  {
    forall j: Slot
      ensures Placed(q', free, -1, j)
    {
      assert Placed(q, free, i, j);
    }
  }

  lemma LinkStep(s: St, i: Slot)
    requires Sized(s) && (s.pc == ScanInsert(i) || s.pc == ReInsert(i))
    ensures MainStep(s) == DoInsert(s, i).(pc := if s.pc.ScanInsert? then Scan(i + 1) else Top)
    ensures DoInsert(s, i).free == s.free && DoInsert(s, i).now == s.now
  {
  }

  lemma MainKeeps(s: St)
    requires Inv(s) && Enabled(s, Main)
    ensures Inv(MainStep(s)) || MainStep(s).pc == NullCall
  {
    match s.pc {
      case Look => LookKeeps(s);
      case Scan(_) => ScanKeeps(s);
      case ScanPop(_) => UnlinkKeeps(s);
      case RePop(_) => UnlinkKeeps(s);
      case ScanStamp(_) => StampKeeps(s);
      case ReStamp(_) => StampKeeps(s);
      case ScanInsert(_) => LinkKeeps(s);
      case ReInsert(_) => LinkKeeps(s);
      case Run(_) => RunKeeps(s);
      case RunWoken(_) => RunKeeps(s);
      case RunRearm(_) => RunKeeps(s);
      case Call(_) => RunKeeps(s);
      case Requeue(_) => RunKeeps(s);
      case _ => TestsKeep(s);
    }
  }
}
