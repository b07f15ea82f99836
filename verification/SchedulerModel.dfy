/** The cooperative scheduler of run.cpp as a state machine over values.

    The main loop is cut at every point where an interrupt can be told apart:
    each read or write of `taskUpdate` or of a task's `schedule`, each reading of
    the tick counter, each unlink and each insertion is a step of its own.
    Interrupt handlers (`Isr`) and the passage of time (`Tick`) may come between
    any two steps. */
module SchedulerModel {
  import opened Words

  const POOL := 32
  /** MAX_RAW_INTV, the longest interval in ticks. */
  const MAX_INTV := 0x4000_0000
  const RUN_SEC := 0x100_0000
  const RUN_MAX := MAX_INTV * RUN_SEC / CLK_FREQ

  type Slot = i: int | 0 <= i < POOL

  datatype Schedule = Free | Canceled | Sleep | Periodic | Wait | Wake

  /** A task node. `due` is the absolute tick that `runNext` stands for and
      `arrival` numbers the insertions; both are history, no step reads them to
      decide anything. */
  datatype Rec = Rec(schedule: Schedule, runNext: word, runInterval: word, due: int, arrival: int, to: Callee)

  /** A callback and its argument; 0 is null. */
  datatype Callee = Callee(callback: int, reference: int)

  /** doNothing */
  const NOTHING := Callee(-1, 0)

  datatype Pc =
    | Boot                    // before runScheduler
    | Top                     // about to read taskUpdate
    | Clear                   // about to clear taskUpdate
    | Scan(next: nat)          // update(i): about to test for Canceled
    | ScanWake(i: Slot)       // update(i): about to test for Wake
    | ScanPop(i: Slot)        // update(i): about to unlink
    | ScanStamp(i: Slot)      // update(i): about to read the tick counter
    | ScanInsert(i: Slot)     // update(i): about to insert
    | Look                    // about to test the head of the queue
    | Run(t: Slot)            // run(t): about to test for Wait
    | RunWoken(t: Slot)       // run(t): about to test for Wake
    | RunRearm(t: Slot)       // run(t): about to write Wait
    | Call(t: Slot)           // about to enter the callback
    | Body(t: Slot)           // inside the callback
    | Requeue(t: Slot)        // requeue(t): about to test for Canceled
    | RePop(t: Slot)          // requeue(t): about to unlink
    | ReStamp(t: Slot)        // requeue(t): about to set runNext
    | ReInsert(t: Slot)       // requeue(t): about to insert
    | NullUnlink              // unlinked a node that was never linked
    | NoTasks                 // pool exhausted: faultBlink
    | NullCall                // called the null callback of a zero-filled root

  datatype Kind = KSleep(delay: word) | KPeriodic(interval: word) | KWait

  datatype Ev =
    | Tick(dt: nat)           // time passes
    | Isr(w: set<Slot>)       // runWake from interrupt handlers or callbacks
    | Main                    // one step of the main loop
    | New(kind: Kind, to: Callee)   // runSleep, runPeriodic, runWait
    | Cancel(w: set<Slot>)    // runCancel on the tasks it matches
    | Adjust(i: Slot, interval: word)
    | Return                  // the callback (or main's set-up) returns

  datatype St = St(
    now: int,
    task: seq<Rec>,
    queue: seq<Slot>,
    free: seq<Slot>,
    flag: bool,
    pc: Pc,
    stamp: int,               // number of insertions so far
    pending: set<Slot>,       // woken, callback not started since, nor cancelled
    turns: nat,               // turns of the main loop so far
    constructed: bool)        // the nodes' constructors have run

  /** toMonoRaw: 8.24 seconds to ticks, saturating. */
  function ToMonoRaw(fixed: word): word {
    var f := if fixed > RUN_MAX then RUN_MAX else fixed;
    f * CLK_FREQ / RUN_SEC
  }

  lemma ToMonoRawBound(fixed: word)
    ensures 0 <= ToMonoRaw(fixed) <= MAX_INTV
    ensures fixed >= RUN_SEC ==> ToMonoRaw(fixed) >= CLK_FREQ
  {
    assert RUN_MAX == 144_115_188;
  }

  /** isReady: signed test of the wrapped counters. */
  predicate IsReady(now: int, r: Rec) {
    S32(U32(now) - r.runNext) >= 0
  }

  // ----- queue operations, as the code does them

  /** insert(): the first place, from the head, whose task is later. */
  function InsertAt(task: seq<Rec>, q: seq<Slot>, runNext: word, k: nat): (r: nat)
    requires |task| == POOL && k <= |q|
    ensures k <= r <= |q|
    decreases |q| - k
  {
    if k == |q| || S32(runNext - task[q[k]].runNext) < 0 then k
    else InsertAt(task, q, runNext, k + 1)
  }

  function Inserted(task: seq<Rec>, q: seq<Slot>, i: Slot): (r: seq<Slot>)
    requires |task| == POOL
  {
    var k := InsertAt(task, q, task[i].runNext, 0);
    q[..k] + [i] + q[k..]
  }

  function Index(q: seq<Slot>, i: Slot): (k: nat)
    requires i in q
    ensures k < |q| && q[k] == i
  {
    if q[0] == i then 0 else 1 + Index(q[1..], i)
  }

  /** pop(): the queue without task i. */
  function Popped(q: seq<Slot>, i: Slot): seq<Slot>
    requires i in q
  {
    var k := Index(q, i);
    q[..k] + q[k + 1..]
  }

  // ----- effects of the individual operations

  predicate Sized(s: St) {
    |s.task| == POOL
  }

  function SetSchedule(s: St, i: Slot, c: Schedule): St
    requires Sized(s)
  {
    s.(task := s.task[i := s.task[i].(schedule := c)])
  }

  function SetDue(s: St, i: Slot, due: int, runNext: word): St
    requires Sized(s)
  {
    s.(task := s.task[i := s.task[i].(runNext := runNext, due := due)])
  }

  /** insert() of a task in hand, recording the order of arrival. */
  function DoInsert(s: St, i: Slot): St
    requires Sized(s)
  {
    s.(queue := Inserted(s.task, s.queue, i),
       task := s.task[i := s.task[i].(arrival := s.stamp)],
       stamp := s.stamp + 1)
  }

  /** A cancelled task goes from the queue to the free stack. */
  function DoFree(s: St, i: Slot): St
    requires Sized(s) && i in s.queue
  {
    s.(task := s.task[i := s.task[i].(schedule := Free, to := s.task[i].to.(callback := 0))],
       queue := Popped(s.queue, i), free := [i] + s.free)
  }

  /** update(): woken tasks run now. */
  function DoStampNow(s: St, i: Slot): St
    requires Sized(s)
  {
    SetDue(s, i, s.now, U32(s.now))
  }

  /** requeue(): next run after the previous deadline or after the current tick. */
  function DoStampNext(s: St, i: Slot): St
    requires Sized(s)
  {
    var r := s.task[i];
    if r.schedule == Periodic
    then SetDue(s, i, r.due + r.runInterval, U32(r.runInterval + r.runNext))
    else SetDue(s, i, s.now + r.runInterval, U32(r.runInterval + U32(s.now)))
  }

  function KindSchedule(k: Kind): Schedule {
    if k.KPeriodic? then Periodic else Sleep
  }

  function KindInterval(k: Kind): word {
    match k
    case KSleep(d) => ToMonoRaw(d)
    case KPeriodic(d) => ToMonoRaw(d)
    case KWait => MAX_INTV
  }

  /** alloc() and setSleep, setPeriodic or setWait. */
  function DoNew(s: St, k: Kind, to: Callee): St
    requires Sized(s) && s.free != []
  {
    var i := s.free[0];
    var d := KindInterval(k);
    var r := Rec(KindSchedule(k), U32(U32(s.now) + d), d, s.now + d, 0, to);
    DoInsert(s.(free := s.free[1..], task := s.task[i := r]), i)
  }

  function DoWake(s: St, w: set<Slot>): St
    requires Sized(s)
  {
    s.(task := seq(POOL, i requires 0 <= i < POOL => if i in w then s.task[i].(schedule := Wake) else s.task[i]),
       flag := s.flag || w != {},
       pending := s.pending + w)
  }

  function DoCancel(s: St, w: set<Slot>): St
    requires Sized(s)
  {
    s.(task := seq(POOL, i requires 0 <= i < POOL =>
         if i in w then s.task[i].(schedule := Canceled, to := NOTHING) else s.task[i]),
       flag := s.flag || w != {},
       pending := s.pending - w)
  }

  // ----- steps

  /** With an empty queue the root itself is tested and run: a zero-filled one is ready
      while the counter is below 2^31, and has no callback; a constructed one does
      nothing. */
  predicate RootFaults(s: St) {
    S32(U32(s.now)) >= 0 && !s.constructed
  }

  /** The scheduler's own step at each program point. The tests in Scan and
      Requeue read the schedule that is there at that moment. */
  function MainStep(s: St): (r: St)
    requires Sized(s)
    ensures Sized(r)
  {
    match s.pc
    case Top => s.(pc := if s.flag then Clear else Look)
    case Clear => s.(flag := false, pc := Scan(0))
    case Scan(i) =>
      if i >= POOL then s.(pc := Look)
      else if s.task[i].schedule != Canceled then s.(pc := ScanWake(i))
      else if i in s.queue then DoFree(s, i).(pc := Scan(i + 1))
      else s.(pc := NullUnlink)
    case ScanWake(i) =>
      s.(pc := if s.task[i].schedule == Wake then ScanPop(i) else Scan(i + 1))
    case ScanPop(i) =>
      if i in s.queue then s.(queue := Popped(s.queue, i), pc := ScanStamp(i))
      else s.(pc := NullUnlink)
    case ScanStamp(i) =>
      DoStampNow(s, i).(pc := ScanInsert(i))
    case ScanInsert(i) =>
      DoInsert(s, i).(pc := Scan(i + 1))
    case Look =>
      var t := s.(turns := s.turns + 1);
      if s.queue == [] then t.(pc := if RootFaults(s) then NullCall else Top)
      else if IsReady(s.now, s.task[s.queue[0]]) then t.(pc := Run(s.queue[0]))
      else t.(pc := Top)
    case Run(t) =>
      s.(pc := if s.task[t].schedule == Wait then Requeue(t) else RunWoken(t))
    case RunWoken(t) =>
      s.(pc := if s.task[t].schedule == Wake then RunRearm(t) else Call(t))
    case RunRearm(t) =>
      SetSchedule(s, t, Wait).(pc := Call(t))
    case Call(t) =>
      s.(pc := Body(t), pending := s.pending - {t})
    case Requeue(t) =>
      s.(pc := if s.task[t].schedule == Canceled then Top else RePop(t))
    case RePop(t) =>
      if t in s.queue then s.(queue := Popped(s.queue, t), pc := ReStamp(t))
      else s.(pc := NullUnlink)
    case ReStamp(t) =>
      DoStampNext(s, t).(pc := ReInsert(t))
    case ReInsert(t) =>
      DoInsert(s, t).(pc := Top)
    case _ => s
  }

  /** The slot that is unlinked but not yet linked again, or -1. */
  function Hand(pc: Pc): int {
    match pc
    case ScanStamp(i) => i
    case ScanInsert(i) => i
    case ReStamp(t) => t
    case ReInsert(t) => t
    case _ => -1
  }

  predicate Live(s: St, i: Slot)
    requires Sized(s)
  {
    i !in s.free && s.task[i].schedule != Free && s.task[i].schedule != Canceled
  }

  predicate InCode(pc: Pc) {
    pc.Boot? || pc.Body?
  }

  predicate Halted(pc: Pc) {
    pc.NullUnlink? || pc.NoTasks? || pc.NullCall?
  }

  /** What the environment may do. A wake names a live task; no task is ever MAX_INTV
      late; API calls come from callbacks or from main before the scheduler starts. */
  predicate Enabled(s: St, e: Ev)
    requires Sized(s)
  {
    !Halted(s.pc) &&
    match e
    case Tick(dt) => forall i: Slot :: i !in s.free ==> s.now + dt - MAX_INTV < s.task[i].due
    case Isr(w) => forall i :: i in w ==> Live(s, i)
    case Main => !InCode(s.pc)
    case New(_, _) => InCode(s.pc)
    case Cancel(w) => InCode(s.pc) && forall i :: i in w ==> i in s.queue
    case Adjust(i, _) => InCode(s.pc)
    case Return => InCode(s.pc)
  }

  function Step(s: St, e: Ev): (r: St)
    requires Sized(s)
    ensures Sized(r)
  {
    match e
    case Tick(dt) => s.(now := s.now + dt)
    case Isr(w) => DoWake(s, w)
    case Main => MainStep(s)
    case New(k, to) => if s.free == [] then s.(pc := NoTasks) else DoNew(s, k, to)
    case Cancel(w) => DoCancel(s, w)
    case Adjust(i, d) => s.(task := s.task[i := s.task[i].(runInterval := ToMonoRaw(d))])
    case Return => s.(pc := if s.pc.Body? then Requeue(s.pc.t) else Top)
  }

  /** A zero-filled node. */
  const ZERO := Rec(Free, 0, 0, 0, 0, Callee(0, 0))

  /** initScheduler over a static pool. `constructed` says whether the pool's
      constructors ran, leaving Canceled, or whether it is zero-filled storage,
      which reads as Free. */
  function Start(now: int, constructed: bool): St {
    St(now,
       seq(POOL, i => if constructed then Rec(Canceled, 0, 0, 0, 0, NOTHING) else ZERO),
       [], seq(POOL, i requires 0 <= i < POOL => i), false, Boot, 0, {}, 0, constructed)
  }

  /** Event k leads from state k to the next. */
  predicate Leads(tr: seq<St>, evs: seq<Ev>, k: nat)
    requires |tr| == |evs| + 1 && k < |evs|
  {
    Sized(tr[k]) && Enabled(tr[k], evs[k]) && tr[k + 1] == Step(tr[k], evs[k])
  }

  /** A run: one state more than there are events. */
  predicate IsRun(tr: seq<St>, evs: seq<Ev>, constructed: bool) {
    && |tr| == |evs| + 1
    && tr[0] == Start(tr[0].now, constructed)
    && forall k: nat :: k < |evs| ==> Leads(tr, evs, k)
  }
}
