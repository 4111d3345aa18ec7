// The scheduler with its mutexes and semaphores as one transition system, and what every step of it keeps.
module Scheduling {
  import opened Tasks
  import opened Mutexes
  import opened Semaphores

  datatype System = System(tm: Sched, locks: seq<Lock>, sems: seq<Sem>)

  // One stretch of kernel code that runs with interrupts off. Tick is the timer interrupt; Resume is what is
  // left of it when a task switched out in its middle runs again; the others are calls of the running task,
  // except that Notify may also come from an interrupt.
  datatype Op =
    | Tick
    | Resume
    | Yield
    | Sleep(ms: nat)
    | Start(t: Tid)
    | Exit
    | Acquire(m: nat)
    | Release(m: nat)
    | Wait(j: nat)
    | Notify(j: nat)

  // A task in the middle of task_time_tick has interrupts off and does nothing before the rest of it. The idle
  // task only halts.
  predicate Enabled(s: System, op: Op) {
    match op
    case Resume => s.tm.curr in s.tm.walking
    case Tick => s.tm.curr !in s.tm.walking
    case Notify(j) => s.tm.curr !in s.tm.walking && j < |s.sems|
    case _ =>
      && s.tm.curr !in s.tm.walking && s.tm.curr != IDLE
      && match op
         case Sleep(ms) => ms < WORD_SIZE
         case Start(t) => t != IDLE && t !in s.tm.place
         case Acquire(m) => m < |s.locks|
         case Release(m) => m < |s.locks|
         case Wait(j) => j < |s.sems|
         case _ => true
  }

  function Next(s: System, op: Op): System
    requires Enabled(s, op)
  {
    match op
    case Tick => s.(tm := Ticked(s.tm))
    case Resume => s.(tm := Resumed(s.tm))
    case Yield => s.(tm := Yielded(s.tm))
    case Sleep(ms) => s.(tm := Slept(s.tm, ms))
    case Start(t) => s.(tm := Started(s.tm, t))
    case Exit => s.(tm := Parked(s.tm, Exited))
    case Acquire(m) => var (tm, l) := Acquired(s.tm, s.locks[m], m); System(tm, s.locks[m := l], s.sems)
    case Release(m) => var (tm, l) := Released(s.tm, s.locks[m]); System(tm, s.locks[m := l], s.sems)
    case Wait(j) => var (tm, c) := Waited(s.tm, s.sems[j], j); System(tm, s.locks, s.sems[j := c])
    case Notify(j) => var (tm, c) := Notified(s.tm, s.sems[j]); System(tm, s.locks, s.sems[j := c])
  }

  ghost predicate LocksOk(s: System, except: Place) {
    forall m: nat :: OnMutex(m) != except ==>
      if m < |s.locks| then LockOk(s.tm.place, s.locks[m], m) else Queue(s.tm.place, [], OnMutex(m))
  }

  ghost predicate SemsOk(s: System, except: Place) {
    forall j: nat :: OnSem(j) != except ==>
      if j < |s.sems| then SemOk(s.tm.place, s.sems[j], j) else Queue(s.tm.place, [], OnSem(j))
  }

  ghost predicate Inv(s: System) {
    Shape(s.tm) && LocksOk(s, Ready) && SemsOk(s, Ready)
  }

  // Task t is on the list of p.
  predicate On(s: System, t: Tid, p: Place) {
    match p
    case Ready => t in s.tm.ready
    case Asleep => t in s.tm.sleep
    case OnMutex(m) => m < |s.locks| && t in s.locks[m].waiters
    case OnSem(j) => j < |s.sems| && t in s.sems[j].waiters
    case _ => t in s.tm.place && s.tm.place[t] == p
  }

  // Every started task is on exactly one list, and nothing else is on any.
  ghost predicate OneHome(s: System) {
    && (forall t :: t in s.tm.place ==> exists p :: On(s, t, p))
    && (forall t, p :: On(s, t, p) ==> t in s.tm.place && t != IDLE)
    && (forall t, p, p' :: On(s, t, p) && On(s, t, p') ==> p == p')
  }

  lemma HomeIsPlace(s: System, t: Tid, p: Place)
    requires Inv(s)
    ensures On(s, t, p) <==> t in s.tm.place && s.tm.place[t] == p
  {
    match p
    case OnMutex(m) => assert m < |s.locks| ==> LockOk(s.tm.place, s.locks[m], m);
                       assert m >= |s.locks| ==> Queue(s.tm.place, [], OnMutex(m));
    case OnSem(j) => assert j < |s.sems| ==> SemOk(s.tm.place, s.sems[j], j);
                     assert j >= |s.sems| ==> Queue(s.tm.place, [], OnSem(j));
    case _ =>
  }

  lemma InvOneHome(s: System)
    requires Inv(s)
    ensures OneHome(s)
  {
    assert IDLE !in s.tm.place;
    hide Inv, On;
    forall t, p
      ensures On(s, t, p) <==> t in s.tm.place && s.tm.place[t] == p
    {
      HomeIsPlace(s, t, p);
    }
    forall t | t in s.tm.place
      ensures exists p :: On(s, t, p)
    {
      assert On(s, t, s.tm.place[t]);
    }
  }

  // ---- Steps keep the invariant ----

  // Nobody joins or leaves a wait list, but for the list of except.
  ghost predicate Undisturbed(place: map<Tid, Place>, place': map<Tid, Place>, except: Place) {
    forall p: Place :: (p.OnMutex? || p.OnSem?) && p != except ==> SameAt(place, place', p)
  }

  lemma ParkedUndisturbed(s: Sched, p: Place)
    requires Shape(s) && s.curr != IDLE
    ensures Undisturbed(s.place, Parked(s, p).place, p)
  {
    HeadPlaced(s);
  }

  lemma ChargedUndisturbed(s: Sched)
    requires Shape(s)
    ensures Undisturbed(s.place, Charged(s).place, Ready)
  {
    HeadPlaced(s);
  }

  lemma WalkedUndisturbed(s: Sched)
    requires Lists(s)
    ensures Undisturbed(s.place, Walked(s).place, Ready)
  {
    assert forall t :: t in s.sleep ==> t in s.place && s.place[t] == Asleep;
  }

  lemma TickedUndisturbed(s: Sched)
    requires Shape(s) && s.curr !in s.walking
    ensures Undisturbed(s.place, Ticked(s).place, Ready)
  {
    ChargedShape(s);
    ChargedUndisturbed(s);
    WalkedUndisturbed(Charged(s));
    hide Charged, Walked, Queue;
  }

  lemma AloneUndisturbed(s: System, op: Op)
    requires Inv(s) && Enabled(s, op)
    requires op.Tick? || op.Resume? || op.Yield? || op.Sleep? || op.Start? || op.Exit?
    ensures Undisturbed(s.tm.place, Next(s, op).tm.place, Ready)
  {
    hide LocksOk, SemsOk, Queue, Walked, Charged;
    HeadPlaced(s.tm);
    match op
    case Tick =>
      TickedUndisturbed(s.tm);
    case Resume =>
      var r := s.tm.(walking := s.tm.walking - {s.tm.curr});
      WalkedUndisturbed(r);
    case Sleep(ms) =>
      ParkedUndisturbed(s.tm, if SleepLength(ms) == 0 then Lost else Asleep);
    case Exit =>
      ParkedUndisturbed(s.tm, Exited);
    case _ =>
  }

  lemma AloneShape(s: System, op: Op)
    requires Inv(s) && Enabled(s, op)
    requires op.Tick? || op.Resume? || op.Yield? || op.Sleep? || op.Start? || op.Exit?
    ensures Shape(Next(s, op).tm)
  {
    hide LocksOk, SemsOk, Shape, Ticked, Resumed, Yielded, Slept, Started, Parked;
    match op
    case Tick => TickedShape(s.tm);
    case Resume => ResumedShape(s.tm);
    case Yield => YieldedShape(s.tm);
    case Sleep(ms) => SleptShape(s.tm, ms);
    case Start(t) => StartedShape(s.tm, t);
    case Exit => ParkedShape(s.tm, Exited);
  }

  lemma OthersOk(s: System, s': System, except: Place)
    requires Inv(s) && Undisturbed(s.tm.place, s'.tm.place, except)
    requires |s'.locks| == |s.locks| && |s'.sems| == |s.sems|
    requires forall m :: 0 <= m < |s.locks| && OnMutex(m) != except ==> s'.locks[m] == s.locks[m]
    requires forall j :: 0 <= j < |s.sems| && OnSem(j) != except ==> s'.sems[j] == s.sems[j]
    ensures LocksOk(s', except) && SemsOk(s', except)
  {
    hide Queue, SameAt;
    forall m: nat | OnMutex(m) != except
      ensures if m < |s'.locks| then LockOk(s'.tm.place, s'.locks[m], m) else Queue(s'.tm.place, [], OnMutex(m))
    {
      assert SameAt(s.tm.place, s'.tm.place, OnMutex(m));
      QueueSame(s.tm.place, s'.tm.place, if m < |s.locks| then s.locks[m].waiters else [], OnMutex(m));
    }
    forall j: nat | OnSem(j) != except
      ensures if j < |s'.sems| then SemOk(s'.tm.place, s'.sems[j], j) else Queue(s'.tm.place, [], OnSem(j))
    {
      assert SameAt(s.tm.place, s'.tm.place, OnSem(j));
      QueueSame(s.tm.place, s'.tm.place, if j < |s.sems| then s.sems[j].waiters else [], OnSem(j));
    }
  }

  lemma LockStep(s: System, op: Op)
    requires Inv(s) && Enabled(s, op) && (op.Acquire? || op.Release?)
    ensures Inv(Next(s, op))
    ensures s.tm.curr !in s.locks[op.m].waiters
  {
    var s' := Next(s, op);
    assert LockOk(s.tm.place, s.locks[op.m], op.m);
    AcquiredKeeps(s.tm, s.locks[op.m], op.m);
    ReleasedKeeps(s.tm, s.locks[op.m], op.m);
    hide Shape, LockOk, SemOk, Acquired, Released, SameAt, Queue;
    assert Undisturbed(s.tm.place, s'.tm.place, OnMutex(op.m));
    OthersOk(s, s', OnMutex(op.m));
    assert LockOk(s'.tm.place, s'.locks[op.m], op.m);
  }

  lemma SemStep(s: System, op: Op)
    requires Inv(s) && Enabled(s, op) && (op.Wait? || op.Notify?)
    ensures Inv(Next(s, op))
    ensures op.Wait? ==> s.tm.curr !in s.sems[op.j].waiters
  {
    var s' := Next(s, op);
    assert SemOk(s.tm.place, s.sems[op.j], op.j);
    if op.Wait? {
      WaitedKeeps(s.tm, s.sems[op.j], op.j);
    } else {
      NotifiedKeeps(s.tm, s.sems[op.j], op.j);
    }
    hide Shape, LockOk, SemOk, Waited, Notified, SameAt, Queue;
    assert Undisturbed(s.tm.place, s'.tm.place, OnSem(op.j));
    OthersOk(s, s', OnSem(op.j));
    assert SemOk(s'.tm.place, s'.sems[op.j], op.j);
  }

  // Every step keeps the invariant.
  lemma NextKeeps(s: System, op: Op)
    requires Inv(s) && Enabled(s, op)
    ensures Inv(Next(s, op))
  {
    if op.Acquire? || op.Release? {
      LockStep(s, op);
    } else if op.Wait? || op.Notify? {
      SemStep(s, op);
    } else {
      hide Shape, LocksOk, SemsOk, Undisturbed, Ticked, Resumed, Yielded, Slept, Started, Parked;
      AloneShape(s, op);
      AloneUndisturbed(s, op);
      OthersOk(s, Next(s, op), Ready);
    }
  }

  // ---- Runs ----

  ghost predicate Step(s: System, op: Op, s': System) {
    Enabled(s, op) && s' == Next(s, op)
  }

  // A run: ops[k] leads from ss[k] to ss[k + 1].
  ghost predicate Run(ss: seq<System>, ops: seq<Op>) {
    |ss| == |ops| + 1 && forall k :: 0 <= k < |ops| ==> Step(ss[k], ops[k], ss[k + 1])
  }

  // The system when the first task starts
  function Initial(first: Tid, locks: nat, counts: seq<nat>): System {
    System(Sched(first, [first], [], map[first := 0], map[IDLE := TIME_SLICE, first := TIME_SLICE], {},
        map[first := Ready]),
           seq(locks, _ => Lock(Nobody, 0, [])), seq(|counts|, j requires 0 <= j < |counts| => Sem(counts[j], [])))
  }

  lemma InitialInv(first: Tid, locks: nat, counts: seq<nat>)
    requires first != IDLE
    ensures Inv(Initial(first, locks, counts))
  {
  }

  lemma RunFront(ss: seq<System>, ops: seq<Op>)
    requires Run(ss, ops) && ops != []
    ensures |ss| == |ops| + 1
    ensures Run(ss[..|ops|], ops[..|ops| - 1]) && Step(ss[|ops| - 1], ops[|ops| - 1], ss[|ops|])
    ensures ss[..|ops|][|ops| - 1] == ss[|ops| - 1]
  {
    hide Step;
    forall k | 0 <= k < |ops| - 1
      ensures Step(ss[..|ops|][k], ops[..|ops| - 1][k], ss[..|ops|][k + 1])
    {
      assert Step(ss[k], ops[k], ss[k + 1]);
    }
  }

  // Whenever a task can execute, it is the head of the ready list, or the idle task with that list empty; and
  // every started task is on exactly one list.
  lemma {:induction false} ShapeOverRuns(ss: seq<System>, ops: seq<Op>)
    requires Run(ss, ops) && Inv(ss[0])
    ensures Inv(ss[|ops|]) && OneHome(ss[|ops|])
    ensures var tm := ss[|ops|].tm; tm.curr == if tm.ready == [] then IDLE else tm.ready[0]
  {
    if ops == [] {
    } else {
      RunFront(ss, ops);
      ShapeOverRuns(ss[..|ops|], ops[..|ops| - 1]);
      NextKeeps(ss[|ops| - 1], ops[|ops| - 1]);
    }
    InvOneHome(ss[|ops|]);
    assert Shape(ss[|ops|].tm);
  }

  // No task is dropped from the lists in a run whose sleeps all last at least one tick.
  lemma {:induction false} NobodyLost(ss: seq<System>, ops: seq<Op>)
    requires Run(ss, ops) && (forall k :: 0 <= k < |ops| ==> LongSleep(ops[k]))
    requires NoneAt(ss[0].tm, Lost)
    ensures NoneAt(ss[|ops|].tm, Lost)
  {
    if ops != [] {
      RunFront(ss, ops);
      hide Step, NoneAt;
      NobodyLost(ss[..|ops|], ops[..|ops| - 1]);
      StepLosesNobody(ss[|ops| - 1], ops[|ops| - 1], ss[|ops|]);
    }
  }

  predicate LongSleep(op: Op) {
    op.Sleep? ==> 1 <= op.ms < WORD_SIZE - 9
  }

  predicate NoneAt(s: Sched, p: Place) {
    forall t :: t in s.place ==> s.place[t] != p
  }

  lemma StepLosesNobody(s: System, op: Op, s': System)
    requires Step(s, op, s') && LongSleep(op) && NoneAt(s.tm, Lost)
    ensures NoneAt(s'.tm, Lost)
  {
    hide Walked, Charged, Without;
    if op.Tick? {
      PlacesAfterCharge(s.tm);
      PlacesAfterWalk(Charged(s.tm));
    } else if op.Resume? {
      PlacesAfterWalk(s.tm.(walking := s.tm.walking - {s.tm.curr}));
    }
  }

  lemma PlacesAfterWalk(s: Sched)
    requires NoneAt(s, Lost)
    ensures NoneAt(Walked(s), Lost)
  {
  }

  lemma PlacesAfterCharge(s: Sched)
    requires NoneAt(s, Lost)
    ensures NoneAt(Charged(s), Lost)
  {
  }

  // ---- Tasks that are gone ----

  // A task that has exited, or that a sleep of no ticks has dropped
  predicate Gone(s: System, t: Tid) {
    t in s.tm.place && (s.tm.place[t] == Exited || s.tm.place[t] == Lost)
  }

  lemma GoneFromLists(s: System, t: Tid)
    requires Inv(s) && Gone(s, t)
    ensures t != s.tm.curr && t !in s.tm.ready && t !in s.tm.sleep
    ensures forall m :: 0 <= m < |s.locks| ==> t !in s.locks[m].waiters
    ensures forall j :: 0 <= j < |s.sems| ==> t !in s.sems[j].waiters
  {
    HeadPlaced(s.tm);
    assert t !in s.tm.ready && t !in s.tm.sleep;
    forall m: nat | m < |s.locks|
      ensures t !in s.locks[m].waiters
    {
      HomeIsPlace(s, t, OnMutex(m));
    }
    forall j: nat | j < |s.sems|
      ensures t !in s.sems[j].waiters
    {
      HomeIsPlace(s, t, OnSem(j));
    }
  }

  lemma GoneAfterTick(s: Sched, t: Tid)
    requires t in s.place && t != s.curr && t !in s.sleep
    ensures t in Ticked(s).place && Ticked(s).place[t] == s.place[t]
  {
    var c := Charged(s);
    assert c.sleep == s.sleep && t in c.place && c.place[t] == s.place[t];
    GoneAfterWalk(c, t);
    hide Charged, Walked;
  }

  lemma GoneAfterWalk(s: Sched, t: Tid)
    requires t in s.place && t !in s.sleep
    ensures t in Walked(s).place && Walked(s).place[t] == s.place[t]
  {
  }

  lemma GoneStep(s: System, op: Op, t: Tid)
    requires Inv(s) && Enabled(s, op) && Gone(s, t)
    ensures Gone(Next(s, op), t)
  {
    GoneFromLists(s, t);
    hide Inv, Walked, Charged, Without;
    if op.Tick? {
      GoneAfterTick(s.tm, t);
      hide Ticked;
    } else if op.Resume? {
      GoneAfterWalk(s.tm.(walking := s.tm.walking - {s.tm.curr}), t);
    }
  }

  // It never runs again, whatever happens.
  lemma {:induction false} GoneForGood(ss: seq<System>, ops: seq<Op>, t: Tid)
    requires Run(ss, ops) && Inv(ss[0]) && Gone(ss[0], t)
    ensures Gone(ss[|ops|], t) && ss[|ops|].tm.curr != t
  {
    if ops != [] {
      RunFront(ss, ops);
      GoneForGood(ss[..|ops|], ops[..|ops| - 1], t);
      ShapeOverRuns(ss[..|ops|], ops[..|ops| - 1]);
      hide Inv, Next, Enabled, Gone;
      GoneStep(ss[|ops| - 1], ops[|ops| - 1], t);
    }
    ShapeOverRuns(ss, ops);
    hide Inv, Next, Enabled, Gone;
    GoneFromLists(ss[|ops|], t);
  }
}
