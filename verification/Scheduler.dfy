/** run.cpp on the heap: task nodes linked in place, with interrupts allowed
    between the statements. The ghost state `m` follows the state machine of
    SchedulerModel step by step, so every theorem about its runs is one about
    this code. */
module Scheduler {
  import opened Words
  import opened SchedulerModel
  import opened SchedulerInvariant
  import opened SchedulerRuns
  import opened SchedulerTiming

  class Task {
    var qNext: Task?
    var qPrev: Task?
    var schedule: Schedule
    var callback: int
    var reference: int
    var runNext: word
    var runInterval: word
    ghost var due: int
    ghost var arrival: int

    constructor ()
      ensures qNext == null && qPrev == null && AsRec() == ZERO
    {
      qNext, qPrev, schedule, callback, reference := null, null, Free, 0, 0;
      runNext, runInterval, due, arrival := 0, 0, 0, 0;
    }

    ghost function AsRec(): Rec
      reads this`schedule, this`runNext, this`runInterval, this`due, this`arrival, this`callback, this`reference
    {
      Rec(schedule, runNext, runInterval, due, arrival, Callee(callback, reference))
    }
  }

  /** The record that a new task starts with. */
  function NewRec(k: Kind, to: Callee, now: int): Rec {
    Rec(KindSchedule(k), U32(U32(now) + KindInterval(k)), KindInterval(k), now + KindInterval(k), 0, to)
  }

  // What a step does to the fields the heap code keeps.

  lemma LinkIs(s: St, i: Slot)
    requires Sized(s) && (s.pc == ScanInsert(i) || s.pc == ReInsert(i))
    ensures MainStep(s) == s.(queue := Inserted(s.task, s.queue, i),
      task := s.task[i := s.task[i].(arrival := s.stamp)], stamp := s.stamp + 1,
      pc := if s.pc.ScanInsert? then Scan(i + 1) else Top)
  {
  }

  lemma UnlinkIs(s: St, i: Slot)
    requires Sized(s) && (s.pc == ScanPop(i) || s.pc == RePop(i)) && i in s.queue
    ensures MainStep(s) == s.(queue := Popped(s.queue, i), pc := if s.pc.ScanPop? then ScanStamp(i) else ReStamp(i))
  {
  }

  lemma ReleaseIs(s: St, i: Slot)
    requires Sized(s) && s.pc == Scan(i) && s.task[i].schedule == Canceled && i in s.queue
    ensures MainStep(s) == s.(queue := Popped(s.queue, i), free := [i] + s.free,
      task := s.task[i := s.task[i].(schedule := Free, to := s.task[i].to.(callback := 0))], pc := Scan(i + 1))
  {
  }

  lemma LookIs(s: St)
    requires Sized(s) && s.pc == Look && !s.constructed
    ensures s.queue != [] ==>
      MainStep(s) == s.(turns := s.turns + 1, pc := if IsReady(s.now, s.task[s.queue[0]]) then Run(s.queue[0]) else Top)
    ensures s.queue == [] ==>
      MainStep(s) == s.(turns := s.turns + 1, pc := if U32(s.now) < TWO31 then NullCall else Top)
  {
  }

  lemma NotNegative(x: word)
    ensures S32(x) >= 0 <==> x < TWO31
  {
  }

  lemma CallIs(s: St, i: Slot)
    requires Sized(s) && s.pc == Call(i)
    ensures MainStep(s) == s.(pc := Body(i), pending := s.pending - {i})
  {
  }

  lemma StampNextIs(s: St, i: Slot)
    requires Sized(s) && s.pc == ReStamp(i)
    ensures MainStep(s) == DoStampNext(s, i).(pc := ReInsert(i))
    ensures DoStampNext(s, i).task == s.task[i := DoStampNext(s, i).task[i]]
  {
  }

  lemma NewIs(s: St, k: Kind, to: Callee)
    requires Sized(s) && s.free != []
    ensures var i := s.free[0]; var task := s.task[i := NewRec(k, to, s.now)];
      Step(s, New(k, to)) == s.(queue := Inserted(task, s.queue, i), free := s.free[1..],
        task := task[i := NewRec(k, to, s.now).(arrival := s.stamp)], stamp := s.stamp + 1)
  {
  }

  class TaskQueue {
    const root: Task         // taskQueue
    const pool: seq<Task>    // taskPool
    var taskFree: Task?
    var taskUpdate: bool
    var raw: word            // the tick counter
    ghost var m: St          // the state of the state machine
    ghost var h: History     // how it came to be
    ghost var invoked: seq<Invocation>

    // ----- shape

    ghost predicate Nodes() {
      && |pool| == POOL
      && (forall i, j :: 0 <= i < j < POOL ==> pool[i] != pool[j])
      && root !in pool
    }

    /** Place k on the ring: the root is both place 0 and place |q| + 1. */
    ghost function Node(q: seq<Slot>, k: int): Task
      requires Nodes()
    {
      if 1 <= k <= |q| then pool[q[k - 1]] else root
    }

    ghost predicate RingNext(q: seq<Slot>)
      requires Nodes()
      reads root`qNext, pool`qNext
    {
      forall k {:trigger Node(q, k).qNext} :: 0 <= k <= |q| ==> Node(q, k).qNext == Node(q, k + 1)
    }

    ghost predicate RingPrev(q: seq<Slot>)
      requires Nodes()
      reads root`qPrev, pool`qPrev
    {
      forall k {:trigger Node(q, k).qPrev} :: 1 <= k <= |q| + 1 ==> Node(q, k).qPrev == Node(q, k - 1)
    }

    /** qNext and qPrev run round the queue and the root in opposite senses. */
    ghost predicate Ring(q: seq<Slot>)
      requires Nodes()
      reads root`qNext, root`qPrev, pool`qNext, pool`qPrev
    {
      RingNext(q) && RingPrev(q)
    }

    ghost predicate Stack(f: seq<Slot>)
      requires Nodes()
      reads this`taskFree, pool`qNext
    {
      && taskFree == (if f == [] then null else pool[f[0]])
      && (forall a, b :: 0 <= a < b < |f| && b == a + 1 ==> pool[f[a]].qNext == pool[f[b]])
      && (f != [] ==> pool[f[|f| - 1]].qNext == null)
    }

    ghost predicate Recs(task: seq<Rec>)
      requires Nodes()
      reads pool`schedule, pool`runNext, pool`runInterval, pool`due, pool`arrival, pool`callback, pool`reference
    {
      |task| == POOL && forall i :: 0 <= i < POOL ==> task[i] == pool[i].AsRec()
    }

    /** The root, but for its links, stays zero-filled. */
    ghost predicate RootZero()
      reads root`schedule, root`runNext, root`callback
    {
      root.schedule == Free && root.runNext == 0 && root.callback == 0
    }

    ghost predicate Valid()
      reads this, root, pool
    {
      && Nodes() && RootZero() && Recs(m.task)
      && Ring(m.queue) && Stack(m.free)
      && taskUpdate == m.flag && raw == U32(m.now)
      && Traced() && !Halted(m.pc)
    }

    /** m is where the history leads, and the callbacks invoked are those that the history
        starts, each with the argument that its task was created with. */
    ghost predicate Traced()
      reads this`m, this`h, this`invoked
    {
      Lawful(h) && m == Final(h) && invoked == Invocations(h)
    }

    ghost predicate Began(a: History, b: History) {
      Extends(a, b)
    }

    /** The history has only grown: what began it still does. */
    twostate predicate Continues()
      reads this`h
    {
      forall a {:trigger Began(a, old(h))} :: Began(a, old(h)) ==> Began(a, h)
    }

    /** Exactly one event was added to the history. */
    twostate predicate Took(e: Ev)
      reads this`h
    {
      h == Then(old(h), e) && Continues()
    }

    /** One step of the scheduler's own, to this program point, within its turn. */
    twostate predicate Moved(pc: Pc)
      reads this`h, this`m
    {
      Took(Main) && m.pc == pc && m.turns == old(m.turns)
    }

    /** Any number of events, to this program point, within one turn. */
    twostate predicate Went(pc: Pc)
      reads this`h, this`m
    {
      Continues() && m.pc == pc && m.turns == old(m.turns)
    }

    // ----- start

    /** The zero-filled node pool. */
    static method MakePool() returns (nodes: seq<Task>)
      ensures |nodes| == POOL && fresh(nodes)
      ensures forall i, j :: 0 <= i < j < POOL ==> nodes[i] != nodes[j]
      ensures forall i :: 0 <= i < POOL ==> nodes[i].AsRec() == ZERO && nodes[i].qNext == null
    {
      nodes := [];
      while |nodes| < POOL
        invariant |nodes| <= POOL && fresh(nodes)
        invariant forall i, j :: 0 <= i < j < |nodes| ==> nodes[i] != nodes[j]
        invariant forall i :: 0 <= i < |nodes| ==> nodes[i].AsRec() == ZERO && nodes[i].qNext == null
      {
        var t := new Task();
        nodes := nodes + [t];
      }
    }

    static ghost function NodeOrNull(nodes: seq<Task>, i: int): Task? {
      if 0 <= i < |nodes| then nodes[i] else null
    }

    /** The loop of initScheduler(). */
    static method LinkPool(nodes: seq<Task>)
      requires |nodes| == POOL && forall i, j :: 0 <= i < j < POOL ==> nodes[i] != nodes[j]
      requires forall i :: 0 <= i < POOL ==> nodes[i].qNext == null
      modifies nodes`qNext
      ensures forall i :: 0 <= i < POOL ==> nodes[i].qNext == NodeOrNull(nodes, i + 1)
    {
      for i := 1 to POOL
        invariant forall j :: 0 <= j < i - 1 ==> nodes[j].qNext == nodes[j + 1]
        invariant forall j :: i - 1 <= j < POOL ==> nodes[j].qNext == null
      {
        nodes[i - 1].qNext := nodes[i];
      }
    }

    /** Storage as initScheduler() leaves it. */
    static ghost predicate Initial(queue: Task, nodes: seq<Task>)
      reads queue, nodes
    {
      && |nodes| == POOL && queue !in nodes
      && (forall i, j :: 0 <= i < j < POOL ==> nodes[i] != nodes[j])
      && (forall i :: 0 <= i < POOL ==> nodes[i].AsRec() == ZERO)
      && (forall i :: 0 <= i < POOL ==> nodes[i].qNext == NodeOrNull(nodes, i + 1))
      && queue.qNext == queue && queue.qPrev == queue && queue.AsRec() == ZERO
    }

    /** initScheduler() over a zero-filled pool. */
    static method Initialize() returns (queue: Task, nodes: seq<Task>)
      ensures Initial(queue, nodes) && fresh(queue) && fresh(nodes)
    {
      nodes := MakePool();
      LinkPool(nodes);
      assert forall i :: 0 <= i < POOL ==> nodes[i].AsRec() == ZERO;
      queue := new Task();
      queue.qNext, queue.qPrev := queue, queue;
    }

    constructor (timer: word)
      ensures Valid() && m == Start(timer, false) && m.pc == Boot && m.turns == 0
      ensures fresh(root) && fresh(pool)
    {
      hide Initial, Start, Ring, Stack, Recs, Traced;
      var queue, nodes := Initialize();
      PoolLength(queue, nodes);
      root, pool := queue, nodes;
      taskFree, taskUpdate, raw := nodes[0], false, timer;
      m := Start(timer, false);
      h := Begin(timer);
      invoked := [];
      new;
      StartValid(timer);
    }

    static lemma PoolLength(queue: Task, nodes: seq<Task>)
      requires Initial(queue, nodes)
      ensures |nodes| == POOL
    {
    }

    lemma StartValid(timer: word)
      requires Initial(root, pool) && m == Start(timer, false) && h == Begin(timer) && invoked == []
      requires raw == timer && !taskUpdate && taskFree == pool[0]
      ensures Valid() && m.pc == Boot && m.turns == 0
    {
      assert |m.free| == POOL && forall k :: 0 <= k < POOL ==> m.free[k] == k;
      forall k | 0 <= k < POOL
        ensures pool[m.free[k]].qNext == if k + 1 < POOL then pool[m.free[k + 1]] else null
      {
        assert k + 1 < POOL ==> m.free[k + 1] == k + 1;
      }
    }

    // ----- links

    lemma NodesDiffer(q: seq<Slot>, a: int, b: int)
      requires Nodes() && Distinct(q) && 0 <= a < b <= |q| + 1 && !(a == 0 && b == |q| + 1)
      ensures Node(q, a) != Node(q, b)
    {
    }

    /** Place j of the ring without place k + 1, as a place of the whole ring. */
    ghost function Around(k: int, j: int): int {
      if j <= k then j else j + 1
    }

    lemma PoppedNode(q: seq<Slot>, i: Slot, j: int)
      requires Nodes() && i in q && 0 <= j <= |q|
      ensures Node(Popped(q, i), j) == Node(q, Around(Index(q, i), j))
    {
    }

    /** The ring, but for the successor of place k. */
    ghost predicate RingNextBut(q: seq<Slot>, k: int)
      requires Nodes()
      reads root`qNext, pool`qNext
    {
      forall j {:trigger Node(q, j).qNext} :: 0 <= j <= |q| && j != k ==> Node(q, j).qNext == Node(q, j + 1)
    }

    /** The ring, but for the predecessor of place k. */
    ghost predicate RingPrevBut(q: seq<Slot>, k: int)
      requires Nodes()
      reads root`qPrev, pool`qPrev
    {
      forall j {:trigger Node(q, j).qPrev} :: 1 <= j <= |q| + 1 && j != k ==> Node(q, j).qPrev == Node(q, j - 1)
    }

    lemma UnlinkedNext(q: seq<Slot>, i: Slot)
      requires Nodes() && i in q && RingNextBut(q, Index(q, i))
      requires Node(q, Index(q, i)).qNext == Node(q, Index(q, i) + 2)
      ensures RingNext(Popped(q, i))
    {
      var p := Popped(q, i);
      forall j {:trigger Node(p, j).qNext} | 0 <= j <= |p| ensures Node(p, j).qNext == Node(p, j + 1) {
        PoppedNode(q, i, j);
        PoppedNode(q, i, j + 1);
      }
    }

    lemma UnlinkedPrev(q: seq<Slot>, i: Slot)
      requires Nodes() && i in q && RingPrevBut(q, Index(q, i) + 2)
      requires Node(q, Index(q, i) + 2).qPrev == Node(q, Index(q, i))
      ensures RingPrev(Popped(q, i))
    {
      var p := Popped(q, i);
      forall j {:trigger Node(p, j).qPrev} | 1 <= j <= |p| + 1 ensures Node(p, j).qPrev == Node(p, j - 1) {
        PoppedNode(q, i, j);
        PoppedNode(q, i, j - 1);
      }
    }

    /** pop() */
    method Pop(t: Task, ghost i: Slot, ghost q: seq<Slot>, ghost f: seq<Slot>)
      requires Nodes() && Ring(q) && Distinct(q) && i in q && t == pool[i]
      requires Stack(f) && forall j :: j in f ==> j !in q
      modifies root`qNext, root`qPrev, pool`qNext, pool`qPrev
      ensures Ring(Popped(q, i)) && Stack(f)
    {
      ghost var k := Index(q, i);
      assert t == Node(q, k + 1);
      assert t.qPrev == Node(q, k) && t.qNext == Node(q, k + 2);
      NodesDiffer(q, k, k + 1);
      NodesDiffer(q, k + 1, k + 2);
      t.qPrev.qNext := t.qNext;
      t.qNext.qPrev := t.qPrev;
      assert RingNextBut(q, k) by {
        forall j | 0 <= j <= |q| && j != k ensures Node(q, j) != Node(q, k) {
          NodesDiffer(q, if j < k then j else k, if j < k then k else j);
        }
      }
      assert RingPrevBut(q, k + 2) by {
        forall j | 1 <= j <= |q| + 1 && j != k + 2 ensures Node(q, j) != Node(q, k + 2) {
          NodesDiffer(q, if j < k + 2 then j else k + 2, if j < k + 2 then k + 2 else j);
        }
      }
      UnlinkedNext(q, i);
      UnlinkedPrev(q, i);
      assert forall a :: 0 <= a < |f| ==> f[a] in f;
    }

    /** The free stack takes a node that is not linked. */
    method Push(t: Task, ghost i: Slot, ghost q: seq<Slot>, ghost f: seq<Slot>)
      requires Nodes() && Ring(q) && i !in q && t == pool[i]
      requires Stack(f) && i !in f
      modifies this`taskFree, t`qNext, t`qPrev
      ensures Ring(q) && Stack([i] + f)
    {
      t.qPrev := null;
      t.qNext := taskFree;
      taskFree := t;
      assert forall k :: 0 <= k <= |q| + 1 ==> Node(q, k) != t;
      assert forall a :: 0 <= a < |f| ==> f[a] in f;
    }

    /** A linked node goes to the free stack. */
    method Discard(t: Task, ghost i: Slot, ghost q: seq<Slot>, ghost f: seq<Slot>)
      requires Nodes() && Ring(q) && Distinct(q) && i in q && t == pool[i]
      requires Stack(f) && forall j :: j in f ==> j !in q
      modifies this`taskFree, root`qNext, root`qPrev, pool`qNext, pool`qPrev
      ensures Ring(Popped(q, i)) && Stack([i] + f)
    {
      PoppedIs(q, i);
      Pop(t, i, q, f);
      Push(t, i, Popped(q, i), f);
    }

    ghost function Spliced(q: seq<Slot>, i: Slot, k: nat): seq<Slot>
      requires k <= |q|
    {
      q[..k] + [i] + q[k..]
    }

    lemma SplicedNode(q: seq<Slot>, i: Slot, k: nat, j: int)
      requires Nodes() && k <= |q| && 0 <= j <= |q| + 2
      ensures Node(Spliced(q, i, k), j) == if j <= k then Node(q, j) else if j == k + 1 then pool[i] else Node(q, j - 1)
    {
    }

    lemma LinkedNext(q: seq<Slot>, i: Slot, k: nat)
      requires Nodes() && k <= |q| && RingNextBut(q, k)
      requires Node(q, k).qNext == pool[i] && pool[i].qNext == Node(q, k + 1)
      ensures RingNext(Spliced(q, i, k))
    {
      var p := Spliced(q, i, k);
      forall j {:trigger Node(p, j).qNext} | 0 <= j <= |p| ensures Node(p, j).qNext == Node(p, j + 1) {
        SplicedNode(q, i, k, j);
        SplicedNode(q, i, k, j + 1);
      }
    }

    lemma LinkedPrev(q: seq<Slot>, i: Slot, k: nat)
      requires Nodes() && k <= |q| && RingPrevBut(q, k + 1)
      requires Node(q, k + 1).qPrev == pool[i] && pool[i].qPrev == Node(q, k)
      ensures RingPrev(Spliced(q, i, k))
    {
      var p := Spliced(q, i, k);
      forall j {:trigger Node(p, j).qPrev} | 1 <= j <= |p| + 1 ensures Node(p, j).qPrev == Node(p, j - 1) {
        SplicedNode(q, i, k, j);
        SplicedNode(q, i, k, j - 1);
      }
    }

    /** The search of insert(): the first task, from the head, that is later. */
    method FindLater(t: Task, ghost i: Slot, ghost q: seq<Slot>, ghost task: seq<Rec>) returns (ins: Task)
      requires Nodes() && Ring(q) && Distinct(q) && Recs(task) && t == pool[i]
      ensures ins == Node(q, InsertAt(task, q, task[i].runNext, 0) + 1)
    {
      ghost var k := 0;
      assert Node(q, 0) == root && Node(q, 0).qNext == Node(q, 1);
      ins := root.qNext;
      while ins != root
        invariant 0 <= k <= |q| && ins == Node(q, k + 1)
        invariant InsertAt(task, q, t.runNext, 0) == InsertAt(task, q, t.runNext, k)
        decreases |q| - k
      {
        if S32(t.runNext - ins.runNext) < 0 {
          return;
        }
        assert Node(q, k + 1).qNext == Node(q, k + 2);
        ins := ins.qNext;
        k := k + 1;
      }
    }

    /** The links of insert(): the task goes just before ins. */
    method LinkBefore(t: Task, ins: Task, ghost i: Slot, ghost q: seq<Slot>, ghost k: nat)
      requires Nodes() && Ring(q) && Distinct(q) && i !in q && t == pool[i]
      requires k <= |q| && ins == Node(q, k + 1)
      modifies root`qNext, root`qPrev, pool`qNext, pool`qPrev
      ensures Ring(Spliced(q, i, k))
      ensures forall j: Slot :: j !in q && j != i ==> pool[j].qNext == old(pool[j].qNext)
    {
      assert ins.qPrev == Node(q, k);
      assert t != Node(q, k) && t != Node(q, k + 1);
      t.qNext := ins;
      t.qPrev := ins.qPrev;
      ins.qPrev := t;
      t.qPrev.qNext := t;
      assert RingNextBut(q, k) by {
        forall j | 0 <= j <= |q| && j != k ensures Node(q, j) != Node(q, k) {
          NodesDiffer(q, if j < k then j else k, if j < k then k else j);
        }
      }
      assert RingPrevBut(q, k + 1) by {
        forall j | 1 <= j <= |q| + 1 && j != k + 1 ensures Node(q, j) != Node(q, k + 1) {
          NodesDiffer(q, if j < k + 1 then j else k + 1, if j < k + 1 then k + 1 else j);
        }
      }
      LinkedNext(q, i, k);
      LinkedPrev(q, i, k);
    }

    /** insert() */
    method Insert(t: Task, ghost i: Slot, ghost q: seq<Slot>, ghost f: seq<Slot>, ghost task: seq<Rec>)
      requires Nodes() && Ring(q) && Distinct(q) && i !in q && Recs(task) && t == pool[i]
      requires Stack(f) && i !in f && forall j :: j in f ==> j !in q
      modifies root`qNext, root`qPrev, pool`qNext, pool`qPrev
      ensures Ring(Inserted(task, q, i)) && Stack(f)
    {
      var ins := FindLater(t, i, q, task);
      LinkBefore(t, ins, i, q, InsertAt(task, q, t.runNext, 0));
      assert forall a :: 0 <= a < |f| ==> f[a] in f;
    }

    // ----- the run

    lemma Shape()
      requires Traced() && Sized(m) && !Halted(m.pc)
      ensures Inv(m)
    {
      HistoryInv(h);
    }

    /** Where slot i is, as the links need it. */
    lemma Whereabouts(i: Slot)
      requires Traced() && Sized(m) && !Halted(m.pc)
      ensures Distinct(m.queue) && (forall j :: j in m.free ==> j !in m.queue)
      ensures m.pc == ScanPop(i) || m.pc == RePop(i) ==> i in m.queue && i !in m.free
      ensures Hand(m.pc) == i ==> i !in m.queue && i !in m.free
      ensures i in m.free <==> m.task[i].schedule == Free
      ensures m.task[i].schedule == Canceled && m.pc.Scan? ==> i in m.queue
    {
      Shape();
      assert Placed(m.queue, m.free, Hand(m.pc), i);
      forall j | j in m.free ensures j !in m.queue {
        assert Placed(m.queue, m.free, Hand(m.pc), j);
      }
    }

    /** The event that starts a callback. */
    ghost predicate Starting(pc: Pc, e: Ev) {
      e.Main? && pc.Call?
    }

    /** Note an event in the history. */
    ghost method Record(e: Ev)
      requires Traced() && Sized(m) && Enabled(m, e) && !Starting(m.pc, e)
      modifies this`m, this`h
      ensures Traced() && m == Step(old(m), e) && Took(e)
    {
      m := Step(m, e);
      h := Then(h, e);
    }

    /** The state machine moves on and the heap has kept up. */
    ghost method Arrive(e: Ev, next: St)
      requires Traced() && Sized(m) && Enabled(m, e) && next == Step(m, e) && !Halted(next.pc)
      requires !Starting(m.pc, e)
      requires Nodes() && RootZero() && Recs(next.task) && Ring(next.queue) && Stack(next.free)
      requires taskUpdate == next.flag && raw == U32(next.now)
      modifies this`m, this`h
      ensures Valid() && m == next && Took(e)
    {
      Record(e);
    }

    /** The records follow a change of one node. */
    lemma OneChanged(task: seq<Rec>, i: Slot, r: Rec)
      requires Nodes() && |task| == POOL && pool[i].AsRec() == r
      requires forall j :: 0 <= j < POOL && j != i ==> task[j] == pool[j].AsRec()
      ensures Recs(task[i := r])
    {
    }

    // ----- interrupts

    /** runWake(), from a handler or a callback, on a live task. */
    method RunWake(t: Task, ghost i: Slot)
      requires Valid() && Live(m, i) && t == pool[i]
      modifies this`taskUpdate, this`m, this`h, pool`schedule
      ensures Valid() && m == DoWake(old(m), {i}) && Took(Isr({i}))
    {
      hide Traced, Ring, Stack;
      Record(Isr({i}));
      t.schedule := Wake;
      taskUpdate := true;
      forall j | 0 <= j < POOL ensures m.task[j] == pool[j].AsRec() {
        assert j != i ==> pool[j] != pool[i];
      }
    }

    /** No task would be MAX_INTV late in dt ticks, as the counters show it. */
    predicate CanPass(dt: nat)
      requires |pool| == POOL
      reads this`raw, pool`schedule, pool`runNext
    {
      dt < MAX_INTV &&
      forall j: Slot :: pool[j].schedule != Free ==> S32(U32(raw + dt) - pool[j].runNext) < MAX_INTV
    }

    lemma CanPassEnables(dt: nat)
      requires Valid() && CanPass(dt)
      ensures Enabled(m, Tick(dt))
    {
      hide Traced;
      Shape();
      forall j: Slot | j !in m.free ensures m.now + dt - MAX_INTV < m.task[j].due {
        assert pool[j].AsRec() == m.task[j] && Timely(m.now, m.task[j]);
        U32Add(m.now, dt);
        WrappedDifference(m.now + dt, m.task[j].due);
      }
    }

    /** The tick counter moves on. */
    method Elapse(dt: nat)
      requires Valid() && CanPass(dt)
      modifies this`raw, this`m, this`h
      ensures Valid() && m == old(m).(now := old(m).now + dt) && Took(Tick(dt))
    {
      hide Traced, Ring, Stack;
      CanPassEnables(dt);
      U32Add(m.now, dt);
      Record(Tick(dt));
      raw := U32(raw + dt);
    }

    /** What may happen between two statements: time passes, handlers wake live
        tasks, any number of times. */
    method Interrupts()
      requires Valid()
      modifies this`raw, this`taskUpdate, this`m, this`h, pool`schedule
      ensures Valid() && Went(old(m.pc))
      ensures m.queue == old(m.queue) && m.free == old(m.free)
    {
      hide Traced;
      var n: nat :| n >= 0;
      while n > 0
        invariant Valid() && Went(old(m.pc))
        invariant m.queue == old(m.queue) && m.free == old(m.free)
      {
        var dt: nat :| dt >= 0;
        if CanPass(dt) {
          Elapse(dt);
        }
        var i: Slot :| 0 <= i < POOL;
        if pool[i].schedule != Free && pool[i].schedule != Canceled {
          Whereabouts(i);
          RunWake(pool[i], i);
        }
        n := n - 1;
      }
    }

    // ----- update()

    /** update(): the test for Canceled, when it fails. */
    ghost method NotCanceled(t: Task, i: Slot)
      requires Valid() && m.pc == Scan(i) && t == pool[i] && t.schedule != Canceled
      modifies this`m, this`h
      ensures Valid() && Moved(ScanWake(i))
    {
      Arrive(Main, MainStep(m));
    }

    /** A cancelled task's node goes from the queue to the free stack. */
    method Withdraw(t: Task, ghost i: Slot, ghost s: St)
      requires Nodes() && Ring(s.queue) && Distinct(s.queue) && Stack(s.free) && Recs(s.task)
      requires t == pool[i] && i in s.queue && forall j :: j in s.free ==> j !in s.queue
      modifies this`taskFree, root`qNext, root`qPrev, pool`qNext, pool`qPrev, t`schedule, t`callback
      ensures Ring(Popped(s.queue, i)) && Stack([i] + s.free)
      ensures Recs(s.task[i := s.task[i].(schedule := Free, to := s.task[i].to.(callback := 0))])
    {
      hide Ring, Stack, Popped;
      Discard(t, i, s.queue, s.free);
      t.schedule := Free;
      t.callback := 0;
      OneChanged(s.task, i, s.task[i].(schedule := Free, to := s.task[i].to.(callback := 0)));
    }

    /** update(): a cancelled task is unlinked and goes back to the free stack. */
    method Release(t: Task, ghost i: Slot)
      requires Valid() && m.pc == Scan(i) && t == pool[i] && t.schedule == Canceled
      modifies this`taskFree, this`m, this`h
      modifies root`qNext, root`qPrev, pool`qNext, pool`qPrev, t`schedule, t`callback
      ensures Valid() && Moved(Scan(i + 1))
    {
      hide Traced, Ring, Stack, MainStep, Popped, Inv;
      Whereabouts(i);
      Withdraw(t, i, m);
      ReleaseIs(m, i);
      Arrive(Main, MainStep(m));
    }

    /** update(): the test for Wake. */
    method TestWake(t: Task, ghost i: Slot) returns (woken: bool)
      requires Valid() && m.pc == ScanWake(i) && t == pool[i]
      modifies this`m, this`h
      ensures Valid() && woken == (t.schedule == Wake)
      ensures Moved(if woken then ScanPop(i) else Scan(i + 1))
    {
      woken := t.schedule == Wake;
      Arrive(Main, MainStep(m));
    }

    /** pop(), in update() or requeue(). */
    method Unlink(t: Task, ghost i: Slot)
      requires Valid() && (m.pc == ScanPop(i) || m.pc == RePop(i)) && t == pool[i]
      modifies this`m, this`h, root`qNext, root`qPrev, pool`qNext, pool`qPrev
      ensures Valid() && Moved(if old(m.pc).ScanPop? then ScanStamp(i) else ReStamp(i))
    {
      hide Traced, Ring, Stack, MainStep;
      Whereabouts(i);
      Pop(t, i, m.queue, m.free);
      UnlinkIs(m, i);
      Arrive(Main, MainStep(m));
    }

    /** update(): a woken task is to run now. */
    method StampNow(t: Task, ghost i: Slot)
      requires Valid() && m.pc == ScanStamp(i) && t == pool[i]
      modifies this`m, this`h, t`runNext, t`due
      ensures Valid() && Moved(ScanInsert(i))
    {
      hide Traced, Ring, Stack;
      t.runNext := raw;
      t.due := m.now;
      OneChanged(m.task, i, m.task[i].(runNext := raw, due := m.now));
      Arrive(Main, MainStep(m));
    }

    /** insert(), in update() or requeue(). */
    method Link(t: Task, ghost i: Slot)
      requires Valid() && (m.pc == ScanInsert(i) || m.pc == ReInsert(i)) && t == pool[i]
      modifies this`m, this`h, root`qNext, root`qPrev, pool`qNext, pool`qPrev, t`arrival
      ensures Valid() && Moved(if old(m.pc).ScanInsert? then Scan(i + 1) else Top)
    {
      hide Traced, Ring, Stack, MainStep;
      Whereabouts(i);
      InsertStamped(t, i, m.queue, m.free, m.task, m.stamp);
      LinkIs(m, i);
      Arrive(Main, MainStep(m));
    }

    /** insert(), the order of arrival noted. */
    method InsertStamped(t: Task, ghost i: Slot, ghost q: seq<Slot>, ghost f: seq<Slot>, ghost task: seq<Rec>,
                         ghost stamp: int)
      requires Nodes() && Ring(q) && Distinct(q) && i !in q && Recs(task) && t == pool[i]
      requires Stack(f) && i !in f && forall j :: j in f ==> j !in q
      modifies root`qNext, root`qPrev, pool`qNext, pool`qPrev, t`arrival
      ensures Ring(Inserted(task, q, i)) && Stack(f) && Recs(task[i := task[i].(arrival := stamp)])
    {
      hide Ring, Stack, Inserted;
      Insert(t, i, q, f, task);
      t.arrival := stamp;
      OneChanged(task, i, task[i].(arrival := stamp));
    }

    /** update(): a woken task is moved to run now. */
    method MoveToNow(t: Task, ghost i: Slot)
      requires Valid() && m.pc == ScanPop(i) && t == pool[i]
      modifies this, root, pool
      ensures Valid() && Went(Scan(i + 1))
    {
      Unlink(t, i);
      Interrupts();
      StampNow(t, i);
      Interrupts();
      Link(t, i);
    }

    /** update() */
    method Update(t: Task, ghost i: Slot)
      requires Valid() && m.pc == Scan(i) && t == pool[i]
      modifies this, root, pool
      ensures Valid() && Went(Scan(i + 1))
    {
      Interrupts();
      if t.schedule == Canceled {
        Release(t, i);
        return;
      }
      NotCanceled(t, i);
      Interrupts();
      var woken := TestWake(t, i);
      if woken {
        Interrupts();
        MoveToNow(t, i);
      }
    }

    // ----- requeue()

    /** requeue(): the test for Canceled. */
    method TestCanceled(t: Task, ghost i: Slot) returns (cancelled: bool)
      requires Valid() && m.pc == Requeue(i) && t == pool[i]
      modifies this`m, this`h
      ensures Valid() && cancelled == (t.schedule == Canceled)
      ensures Moved(if cancelled then Top else RePop(i))
    {
      cancelled := t.schedule == Canceled;
      Arrive(Main, MainStep(m));
    }

    /** requeue(): the next run, after the last deadline or after now. */
    method StampNext(t: Task, ghost i: Slot)
      requires Valid() && m.pc == ReStamp(i) && t == pool[i]
      modifies this`m, this`h, t`runNext, t`due
      ensures Valid() && Moved(ReInsert(i))
    {
      hide Traced, Ring, Stack, MainStep;
      ghost var next := DoStampNext(m, i);
      t.due := (if t.schedule == Periodic then t.due else m.now) + t.runInterval;
      t.runNext := U32(t.runInterval + (if t.schedule == Periodic then t.runNext else raw));
      OneChanged(m.task, i, next.task[i]);
      StampNextIs(m, i);
      Arrive(Main, MainStep(m));
    }

    /** requeue(): the task is moved to its next deadline. */
    method MoveToNext(t: Task, ghost i: Slot)
      requires Valid() && m.pc == RePop(i) && t == pool[i]
      modifies this, root, pool
      ensures Valid() && Went(Top)
    {
      Unlink(t, i);
      Interrupts();
      StampNext(t, i);
      Interrupts();
      Link(t, i);
    }

    /** requeue() */
    method RequeueTask(t: Task, ghost i: Slot)
      requires Valid() && m.pc == Requeue(i) && t == pool[i]
      modifies this, root, pool
      ensures Valid() && Went(Top)
    {
      Interrupts();
      var cancelled := TestCanceled(t, i);
      if !cancelled {
        Interrupts();
        MoveToNext(t, i);
      }
    }

    // ----- tasks' own operations

    /** setSleep(), setPeriodic() and setWait(), up to insert(). */
    method Configure(t: Task, k: Kind, callback: int, reference: int, ghost now: int)
      requires raw == U32(now)
      modifies t`schedule, t`runInterval, t`callback, t`reference, t`runNext, t`due, t`arrival
      ensures t.AsRec() == NewRec(k, Callee(callback, reference), now)
    {
      match k {
        case KSleep(delay) =>
          t.schedule := Sleep;
          t.runInterval := ToMonoRaw(delay);
        case KPeriodic(interval) =>
          t.schedule := Periodic;
          t.runInterval := ToMonoRaw(interval);
        case KWait =>
          t.schedule := Sleep;
          t.runInterval := MAX_INTV;
      }
      t.callback, t.reference := callback, reference;
      t.runNext := U32(raw + t.runInterval);
      t.due, t.arrival := now + t.runInterval, 0;
    }

    /** alloc(): the top of the free stack. */
    method Alloc(ghost q: seq<Slot>, ghost i: Slot, ghost f: seq<Slot>) returns (t: Task)
      requires Nodes() && Ring(q) && Stack([i] + f) && i !in f && i !in q
      modifies this`taskFree, pool`qNext, pool`qPrev
      ensures t == pool[i] && Ring(q) && Stack(f)
    {
      t := taskFree;
      ghost var all := [i] + f;
      assert all[0] == i && f != [] ==> all[1] == f[0];
      assert f != [] ==> all[|all| - 1] == f[|f| - 1];
      taskFree := t.qNext;
      t.qNext, t.qPrev := null, null;
      assert forall k :: 0 <= k <= |q| + 1 ==> Node(q, k) != t;
      forall a, b | 0 <= a < b < |f| && b == a + 1 ensures pool[f[a]].qNext == pool[f[b]] {
        assert f[a] == all[a + 1] && f[b] == all[b + 1] && f[a] in f;
      }
      assert f != [] ==> f[|f| - 1] in f;
    }

    /** A new task, ready to be inserted. */
    method SetUp(k: Kind, callback: int, reference: int, ghost s: St) returns (t: Task)
      requires Nodes() && Ring(s.queue) && Stack(s.free) && Recs(s.task) && raw == U32(s.now)
      requires s.free != [] && s.free[0] !in s.free[1..] && s.free[0] !in s.queue
      modifies this`taskFree, pool
      ensures t == pool[s.free[0]] && Ring(s.queue) && Stack(s.free[1..])
      ensures Recs(s.task[s.free[0] := NewRec(k, Callee(callback, reference), s.now)])
    {
      hide Ring, Stack;
      assert s.free == [s.free[0]] + s.free[1..];
      t := Alloc(s.queue, s.free[0], s.free[1..]);
      Configure(t, k, callback, reference, s.now);
      OneChanged(s.task, s.free[0], NewRec(k, Callee(callback, reference), s.now));
    }

    /** runSleep(), runPeriodic() and runWait(). A null result stands for the
        halt in faultBlink() when the pool is exhausted. */
    method Create(k: Kind, callback: int, reference: int) returns (t: Task?)
      requires Valid() && InCode(m.pc)
      modifies this`taskFree, this`m, this`h, root`qNext, root`qPrev, pool
      ensures Valid()
      ensures old(m.free) == [] ==> t == null && m == old(m) && h == old(h)
      ensures m.pc == old(m.pc) && m.turns == old(m.turns)
      ensures old(m.free) != [] ==>
        && t == pool[old(m.free)[0]] && t.callback == callback && t.reference == reference
        && var e := New(k, Callee(callback, reference)); m == Step(old(m), e) && Took(e)
    {
      hide Traced, DoNew, Step, Ring, Stack, Inserted;
      ExhaustedIsNull();
      if taskFree == null {
        return null;
      }
      ghost var s, to := m, Callee(callback, reference);
      ghost var i := s.free[0];
      FreeAndDistinct();
      var u := SetUp(k, callback, reference, s);
      ghost var task := s.task[i := NewRec(k, to, s.now)];
      InsertStamped(u, i, s.queue, s.free[1..], task, s.stamp);
      NewIs(s, k, to);
      Arrive(New(k, to), Step(s, New(k, to)));
      t := u;
    }

    lemma ExhaustedIsNull()
      requires Valid()
      ensures taskFree == null <==> m.free == []
    {
    }

    lemma FreeAndDistinct()
      requires Valid() && m.free != []
      ensures Distinct(m.free) && Distinct(m.queue) && m.free[0] !in m.queue && m.free[0] !in m.free[1..]
      ensures forall j :: j in m.free[1..] ==> j !in m.queue
    {
      Whereabouts(m.free[0]);
      Shape();
    }

    /** runAdjust() */
    method RunAdjust(t: Task, ghost i: Slot, interval: word)
      requires Valid() && InCode(m.pc) && t == pool[i]
      modifies this`m, this`h, t`runInterval
      ensures Valid() && Took(Adjust(i, interval)) && m.pc == old(m.pc) && m.turns == old(m.turns)
    {
      hide Traced, Ring, Stack;
      t.runInterval := ToMonoRaw(interval);
      OneChanged(m.task, i, m.task[i].(runInterval := ToMonoRaw(interval)));
      Record(Adjust(i, interval));
    }

    /** The tasks that runCancel() is after; 0 stands for a null argument. */
    predicate Matches(t: Task, callback: int, reference: int)
      reads t`callback, t`reference
    {
      if callback == 0 then t.reference == reference
      else if reference == 0 then t.callback == callback
      else t.callback == callback && t.reference == reference
    }

    ghost function Targets(q: seq<Slot>, callback: int, reference: int): set<Slot>
      requires Nodes()
      reads pool`callback, pool`reference
    {
      set i: Slot | i in q && Matches(pool[i], callback, reference)
    }

    /** What the cancellation of the tasks w makes of task j. */
    ghost function CancelledIn(w: set<Slot>, j: Slot, r: Rec): Rec {
      if j in w then r.(schedule := Canceled, to := NOTHING) else r
    }

    /** The walk of runCancel() round the queue, cancel() on every match. */
    method CancelMatching(callback: int, reference: int, ghost q: seq<Slot>, ghost w: set<Slot>, ghost task: seq<Rec>)
      requires Nodes() && Ring(q) && Distinct(q) && w == Targets(q, callback, reference) && Recs(task)
      modifies this`taskUpdate, pool`schedule, pool`callback, pool`reference
      ensures forall j: Slot :: pool[j].AsRec() == CancelledIn(w, j, task[j])
      ensures taskUpdate == (old(taskUpdate) || w != {})
    {
      hide Ring, CancelledIn, MatchesRec, Targets, Visited;
      ghost var k, now := 0, task;
      NextOnRing(q, 0);
      TargetsAre(q, callback, reference, task);
      VisitedStart(q, w, task);
      var iter := root.qNext;
      while iter != root
        invariant 0 <= k <= |q| && iter == Node(q, k + 1)
        invariant Recs(now) && Visited(q, k, w, task, now)
        invariant taskUpdate == (old(taskUpdate) || exists a :: 0 <= a < k && q[a] in w)
        decreases |q| - k
      {
        var t := iter;
        assert t == pool[q[k]] && q[k] in q;
        NextOnRing(q, k + 1);
        iter := iter.qNext;
        VisitedNext(q, k, w, task, now);
        CancelIf(t, callback, reference, q[k], w, task[q[k]]);
        now := now[q[k] := CancelledIn(w, q[k], task[q[k]])];
        k := k + 1;
      }
      VisitedAll(q, w, task, now);
    }

    /** The first k tasks of the queue are cancelled, as far as they are among w. */
    ghost predicate Visited(q: seq<Slot>, k: nat, w: set<Slot>, task: seq<Rec>, now: seq<Rec>)
      requires k <= |q|
    {
      && |task| == |now| == POOL
      && forall j: Slot :: now[j] == if j in q[..k] then CancelledIn(w, j, task[j]) else task[j]
    }

    lemma VisitedStart(q: seq<Slot>, w: set<Slot>, task: seq<Rec>)
      requires |task| == POOL
      ensures Visited(q, 0, w, task, task)
    {
    }

    lemma VisitedNext(q: seq<Slot>, k: nat, w: set<Slot>, task: seq<Rec>, now: seq<Rec>)
      requires Distinct(q) && k < |q| && Visited(q, k, w, task, now)
      ensures now[q[k]] == task[q[k]]
      ensures Visited(q, k + 1, w, task, now[q[k] := CancelledIn(w, q[k], task[q[k]])])
    {
      hide CancelledIn;
      assert q[..k + 1] == q[..k] + [q[k]];
    }

    lemma VisitedAll(q: seq<Slot>, w: set<Slot>, task: seq<Rec>, now: seq<Rec>)
      requires Visited(q, |q|, w, task, now) && forall j :: j in w ==> j in q
      ensures forall j: Slot :: now[j] == CancelledIn(w, j, task[j])
      ensures (exists a :: 0 <= a < |q| && q[a] in w) <==> w != {}
    {
      assert q[..|q|] == q;
      if j :| j in w {
        assert q[Index(q, j)] in w;
      }
    }

    lemma NextOnRing(q: seq<Slot>, k: nat)
      requires Nodes() && Ring(q) && k <= |q|
      ensures Node(q, k).qNext == Node(q, k + 1) && Node(q, 0) == root
    {
    }

    /** The body of that walk. */
    method CancelIf(t: Task, callback: int, reference: int, ghost i: Slot, ghost w: set<Slot>, ghost r: Rec)
      requires t.AsRec() == r && (i in w <==> MatchesRec(r, callback, reference))
      modifies this`taskUpdate, t`schedule, t`callback, t`reference
      ensures t.AsRec() == CancelledIn(w, i, r)
      ensures taskUpdate == (old(taskUpdate) || i in w)
    {
      if Matches(t, callback, reference) {
        t.schedule := Canceled;
        t.callback, t.reference := -1, 0;
        taskUpdate := true;
      }
    }

    /** Whether a task matches is a matter of its record. */
    predicate MatchesRec(r: Rec, callback: int, reference: int) {
      if callback == 0 then r.to.reference == reference
      else if reference == 0 then r.to.callback == callback
      else r.to == Callee(callback, reference)
    }

    lemma TargetsAre(q: seq<Slot>, callback: int, reference: int, task: seq<Rec>)
      requires Nodes() && Recs(task)
      ensures forall j: Slot ::
        j in Targets(q, callback, reference) <==> j in q && MatchesRec(task[j], callback, reference)
    {
    }

    /** A null callback stands for every callback, and a null reference beside a callback
        for every reference. */
    lemma TargetsSelected(q: seq<Slot>, callback: int, reference: int)
      requires Nodes()
      ensures forall i: Slot ::
        i in Targets(q, callback, reference) <==>
          && i in q
          && (callback != 0 ==> pool[i].callback == callback)
          && (callback == 0 || reference != 0 ==> pool[i].reference == reference)
    {
    }

    /** runCancel(): every queued task that matches. */
    method RunCancel(callback: int, reference: int)
      requires Valid() && InCode(m.pc)
      modifies this`taskUpdate, this`m, this`h, pool`schedule, pool`callback, pool`reference
      ensures Valid() && Took(Cancel(old(Targets(m.queue, callback, reference))))
      ensures m.pc == old(m.pc) && m.turns == old(m.turns)
    {
      hide Traced, Stack, Ring;
      ghost var s, w := m, Targets(m.queue, callback, reference);
      Shape();
      CancelMatching(callback, reference, s.queue, w, s.task);
      Arrive(Cancel(w), DoCancel(s, w));
    }

    /** Any callback, or main's set-up: API calls in any number and order, with
        interrupts between them. */
    method Callback()
      requires Valid() && InCode(m.pc)
      modifies this`taskFree, this`taskUpdate, this`raw, this`m, this`h, root, pool
      ensures Valid() && Went(old(m.pc))
    {
      hide Valid;
      PoolSize();
      var n: nat :| n >= 0;
      while n > 0
        invariant Valid() && Went(old(m.pc))
      {
        Interrupts();
        AnyCall();
        n := n - 1;
      }
    }

    lemma PoolSize()
      requires Valid()
      ensures |pool| == POOL
    {
    }

    /** One call of the API, of any kind and with any arguments. */
    method AnyCall()
      requires Valid() && InCode(m.pc)
      modifies this`taskFree, this`taskUpdate, this`raw, this`m, this`h, root, pool
      ensures Valid() && Went(old(m.pc))
    {
      hide Traced, Ring, Stack;
      var a: int, b: int := *, *;
      var d: word :| 0 <= d;
      var i: Slot :| 0 <= i;
      var c: nat :| c >= 0;
      if c == 0 {
        var t := Create(KSleep(d), a, b);
      } else if c == 1 {
        var t := Create(KPeriodic(d), a, b);
      } else if c == 2 {
        var t := Create(KWait, a, b);
      } else if c == 3 {
        RunAdjust(pool[i], i, d);
      } else {
        RunCancel(a, b);
      }
    }

    // ----- run()

    /** run(): the test for Wait. */
    method TestWait(t: Task, ghost i: Slot) returns (waits: bool)
      requires Valid() && m.pc == Run(i) && t == pool[i]
      modifies this`m, this`h
      ensures Valid() && waits == (t.schedule == Wait)
      ensures Moved(if waits then Requeue(i) else RunWoken(i))
    {
      hide Traced, Ring, Stack;
      waits := t.schedule == Wait;
      Arrive(Main, MainStep(m));
    }

    /** run(): the test for Wake. */
    method TestWoken(t: Task, ghost i: Slot) returns (woken: bool)
      requires Valid() && m.pc == RunWoken(i) && t == pool[i]
      modifies this`m, this`h
      ensures Valid() && woken == (t.schedule == Wake)
      ensures Moved(if woken then RunRearm(i) else Call(i))
    {
      hide Traced, Ring, Stack;
      woken := t.schedule == Wake;
      Arrive(Main, MainStep(m));
    }

    /** run(): a woken task goes back to waiting. */
    method Rearm(t: Task, ghost i: Slot)
      requires Valid() && m.pc == RunRearm(i) && t == pool[i]
      modifies this`m, this`h, t`schedule
      ensures Valid() && Moved(Call(i))
    {
      hide Traced, Ring, Stack;
      t.schedule := Wait;
      OneChanged(m.task, i, m.task[i].(schedule := Wait));
      Arrive(Main, MainStep(m));
    }

    /** The callback of t starts, with the argument that t holds. */
    ghost method Enter(t: Task, i: Slot)
      requires Valid() && m.pc == Call(i) && t == pool[i]
      modifies this`m, this`h, this`invoked
      ensures Valid() && Moved(Body(i))
      ensures invoked == old(invoked) + [Invocation(i, Callee(t.callback, t.reference))]
    {
      hide Ring, Stack, MainStep, Recs;
      OwnCallee(i);
      CallIs(m, i);
      RecOf(i);
      invoked := invoked + [Invocation(i, Callee(t.callback, t.reference))];
      h := Then(h, Main);
      m := MainStep(m);
    }

    lemma RecOf(i: Slot)
      requires Nodes() && Recs(m.task)
      ensures m.task[i] == pool[i].AsRec()
    {
    }

    /** The task about to be called still holds what it was created with. */
    lemma OwnCallee(i: Slot)
      requires Traced() && Sized(m) && m.pc == Call(i)
      ensures m.task[i].to == Owner(h, i)
    {
      Shape();
      assert Placed(m.queue, m.free, Hand(m.pc), i);
      CalleeIsOwners(h, i);
    }

    /** The callback, or main's set-up, returns. */
    ghost method Leave()
      requires Valid() && InCode(m.pc)
      modifies this`m, this`h
      ensures Valid() && Took(Return)
      ensures m.pc == if old(m.pc).Body? then Requeue(old(m.pc).t) else Top
      ensures m.turns == old(m.turns)
    {
      hide Traced, Ring, Stack;
      Arrive(Return, Step(m, Return));
    }

    /** The call in run(): the task's own callback with its own argument. */
    method Invoke(t: Task, ghost i: Slot)
      requires Valid() && m.pc == Call(i) && t == pool[i]
      modifies this, root, pool
      ensures Valid() && Went(Requeue(i))
      ensures invoked == old(invoked) + [Invocation(i, Callee(old(t.callback), old(t.reference)))]
    {
      hide Valid;
      Enter(t, i);
      Callback();
      Leave();
    }

    /** run() */
    method RunTask(t: Task, ghost i: Slot)
      requires Valid() && m.pc == Run(i) && t == pool[i]
      modifies this, root, pool
      ensures Valid() && Went(Requeue(i))
    {
      PoolSize();
      hide Valid;
      Interrupts();
      var waits := TestWait(t, i);
      if waits {
        return;
      }
      Interrupts();
      var woken := TestWoken(t, i);
      if woken {
        Interrupts();
        Rearm(t, i);
      }
      Interrupts();
      Invoke(t, i);
    }

    // ----- runScheduler()

    /** The test of taskUpdate. */
    method TestUpdate() returns (update: bool)
      requires Valid() && m.pc == Top
      modifies this`m, this`h
      ensures Valid() && update == taskUpdate && Moved(if update then Clear else Look)
    {
      hide Traced, Ring, Stack;
      update := taskUpdate;
      Arrive(Main, MainStep(m));
    }

    method ClearUpdate()
      requires Valid() && m.pc == Clear
      modifies this`taskUpdate, this`m, this`h
      ensures Valid() && Moved(Scan(0))
    {
      hide Traced, Ring, Stack;
      taskUpdate := false;
      Arrive(Main, MainStep(m));
    }

    ghost method PassDone()
      requires Valid() && m.pc == Scan(POOL)
      modifies this`m, this`h
      ensures Valid() && Moved(Look)
    {
      hide Traced, Ring, Stack;
      Arrive(Main, MainStep(m));
    }

    /** The head of the ring, if it is ready: a task is then the earliest queued deadline.
        With no task due there is none, unless the queue is empty and the root is ready. */
    method NextReady() returns (t: Task?, ghost i: Slot)
      requires Valid() && m.pc == Look
      modifies this`m, this`h
      ensures Valid()
      ensures t != null && t != root ==>
        && t == pool[i] && Took(Main) && m.pc == Run(i) && m.turns == old(m.turns) + 1
        && i in m.queue && m.task[i].due <= m.now
        && forall j :: j in m.queue && j != i ==> Before(m.task[i], m.task[j])
      ensures t == null ==>
        && Took(Main) && m.pc == Top && m.turns == old(m.turns) + 1
        && forall j :: j in m.queue ==> m.now < m.task[j].due
      ensures t == root ==> m == old(m) && h == old(h)
      ensures t == root <==> old(m.queue) == [] && raw < TWO31
    {
      hide Traced, Stack, Ring, MainStep, S32, U32, Inv;
      Shape();
      NotConstructed();
      LookIs(m);
      NotNegative(raw);
      NextOnRing(m.queue, 0);
      t := root.qNext;
      i := if m.queue == [] then 0 else m.queue[0];
      if t != root {
        QueueByHead(i);
      }
      if S32(raw - t.runNext) < 0 {
        t := null;
      }
      if t != root {
        Arrive(Main, MainStep(m));
      }
    }

    lemma NotConstructed()
      requires Traced()
      ensures !m.constructed
    {
      NeverConstructed(h);
    }

    lemma QueueByHead(i: Slot)
      requires Inv(m) && m.queue != [] && i == m.queue[0]
      ensures IsReady(m.now, m.task[i]) <==> m.task[i].due <= m.now
      ensures forall j :: j in m.queue && j != i ==> Before(m.task[i], m.task[j])
    {
      forall j | j in m.queue
        ensures j != i ==> Before(m.task[i], m.task[j])
        ensures IsReady(m.now, m.task[j]) <==> m.task[j].due <= m.now
      {
        HeadSpeaksForAll(m, j);
      }
    }

    /** The update pass of runScheduler(). */
    method UpdatePass()
      requires Valid() && m.pc == Clear
      modifies this, root, pool
      ensures Valid() && Went(Look)
    {
      hide Valid;
      PoolSize();
      ClearUpdate();
      ScanPool();
      PassDone();
    }

    /** Its loop over the pool. */
    method ScanPool()
      requires Valid() && |pool| == POOL && m.pc == Scan(0)
      modifies this, root, pool
      ensures Valid() && Went(Scan(POOL))
    {
      hide Valid;
      for i := 0 to POOL
        invariant Valid() && Went(Scan(i))
      {
        Update(pool[i], i);
      }
    }

    /** runScheduler(), for any number of turns of its endless loop. It ends early when
        the queue is empty while the root is ready, whose callback is null. */
    method RunScheduler(turns: nat) returns (fault: bool)
      requires Valid() && m.pc == Top
      modifies this, root, pool
      ensures Valid() && Continues()
      ensures !fault ==> m.pc == Top && m.turns == old(m.turns) + turns
      ensures fault ==> m.pc == Look && m.queue == [] && raw < TWO31
    {
      hide Valid;
      for turn := 0 to turns
        invariant Valid() && Continues() && m.pc == Top && m.turns == old(m.turns) + turn
      {
        fault := Turn();
        if fault {
          return;
        }
      }
      fault := false;
    }

    /** The exact rate, in the node's own word: until it is woken, a periodic task that was
        requeued k times is due k + 1 intervals after its creation. */
    lemma NodeOnTime(i: Slot)
      requires Valid() && Live(m, i) && LifeOf(h, i).kind.KPeriodic?
      requires LifeOf(h, i).wakes == 0 && !LifeOf(h, i).adjusted
      ensures var l := LifeOf(h, i);
        pool[i].runNext == U32(l.born + (l.requeues + 1) * TicksFor(l.kind.interval))
    {
      hide LifeOf, Lawful, Final, Ring, Stack, Invocations, Conserved, Ordered, Control, Schedules, Cancels, Wakes;
      Standing();
      PeriodicIsExact(h, i);
      assert Timely(m.now, m.task[i]);
    }

    /** What a valid state is, by its history. */
    lemma Standing()
      requires Valid()
      ensures Inv(m) && !m.constructed && m.turns == Looks(h) && raw == U32(m.now)
      ensures Lawful(h) && m == Final(h) && invoked == Invocations(h)
    {
      Shape();
      NotConstructed();
      TurnsAreLooks(h);
    }

    /** One turn of the loop. */
    method Turn() returns (fault: bool)
      requires Valid() && m.pc == Top
      modifies this, root, pool
      ensures Valid() && Continues()
      ensures !fault ==> m.pc == Top && m.turns == old(m.turns) + 1
      ensures fault ==> m.pc == Look && m.queue == [] && raw < TWO31
    {
      hide Valid;
      CheckUpdates();
      ghost var i;
      var t;
      t, i := NextReady();
      if t == root {
        return true;
      }
      if t != null {
        RunTask(t, i);
        RequeueTask(t, i);
      }
      fault := false;
    }

    /** The out-of-band updates of a turn. */
    method CheckUpdates()
      requires Valid() && m.pc == Top
      modifies this, root, pool
      ensures Valid() && Went(Look)
    {
      hide Valid;
      Interrupts();
      var update := TestUpdate();
      if update {
        Interrupts();
        UpdatePass();
      }
      Interrupts();
    }
  }

  /** The firmware's main: set-up, then the scheduler. What holds at the end of any number
      of turns is what the invariant says of every run. */
  method Firmware(timer: word, turns: nat) returns (s: TaskQueue, fault: bool)
    ensures s.Valid() && Inv(s.m) && Lawful(s.h) && s.m == Final(s.h)
    ensures s.invoked == Invocations(s.h)
    ensures !fault ==> s.m.pc == Top && Looks(s.h) == turns
    ensures fault ==> Step(s.m, Main).pc == NullCall
  {
    s := new TaskQueue(timer);
    hide TaskQueue.Valid, Start, Final, Lawful, Step;
    s.Callback();
    s.Leave();
    fault := s.RunScheduler(turns);
    s.Standing();
    if fault {
      EmptyQueueFaultsExactly(s.m);
      FaultIs(s.m);
    }
  }

  lemma FaultIs(s: St)
    requires Sized(s) && MainStep(s).pc == NullCall
    ensures Step(s, Main).pc == NullCall
  {
  }
}
