// Mutexes and semaphores over whole runs: who owns what, in which order waiting tasks are served, and that
// no call is lost.
module Handoff {
  import opened Tasks
  import opened Mutexes
  import opened Semaphores
  import opened Scheduling

  // ---- Mutexes ----

  predicate Owns(s: System, m: nat, t: Tid) {
    m < |s.locks| && s.locks[m].owner == HeldBy(t)
  }

  // Calls of mutex_acquire(m) by t, finished or not
  function Acquires(ss: seq<System>, ops: seq<Op>, m: nat, t: Tid): nat
    requires |ss| == |ops| + 1
  {
    if ops == [] then 0
    else Acquires(ss[..|ops|], ops[..|ops| - 1], m, t)
         + if ops[|ops| - 1] == Acquire(m) && ss[|ops| - 1].tm.curr == t then 1 else 0
  }

  // Calls of mutex_release(m) by t as the owner
  function Releases(ss: seq<System>, ops: seq<Op>, m: nat, t: Tid): nat
    requires |ss| == |ops| + 1
  {
    if ops == [] then 0
    else Releases(ss[..|ops|], ops[..|ops| - 1], m, t)
         + if ops[|ops| - 1] == Release(m) && ss[|ops| - 1].tm.curr == t && Owns(ss[|ops| - 1], m, t) then 1 else 0
  }

  // What t has open on a mutex: the count if it is the owner, one call if it waits
  function Open(l: Lock, t: Tid): int {
    (if l.owner == HeldBy(t) then l.count else 0) + if t in l.waiters then 1 else 0
  }

  lemma LockUntouched(s: System, op: Op, m: nat)
    requires Enabled(s, op) && m < |s.locks| && op != Acquire(m) && op != Release(m)
    ensures m < |Next(s, op).locks| && Next(s, op).locks[m] == s.locks[m]
  {
    hide Parked, Readied, Dispatched, Ticked, Resumed, Yielded, Slept, Started;
  }

  lemma LockTouched(s: System, op: Op, m: nat)
    requires Enabled(s, op) && m < |s.locks| && (op == Acquire(m) || op == Release(m))
    ensures m < |Next(s, op).locks|
    ensures Next(s, op).locks[m] == if op == Acquire(m) then Acquired(s.tm, s.locks[m], m).1
             else Released(s.tm, s.locks[m]).1
  {
    hide Acquired, Released;
  }

  lemma OpenStep(s: System, op: Op, m: nat, t: Tid)
    requires Inv(s) && Enabled(s, op) && m < |s.locks|
    ensures m < |Next(s, op).locks|
    ensures Open(Next(s, op).locks[m], t) == Open(s.locks[m], t)
              + (if op == Acquire(m) && s.tm.curr == t then 1 else 0)
              - (if op == Release(m) && s.tm.curr == t && Owns(s, m, t) then 1 else 0)
  {
    LockFacts(s, m);
    if op == Acquire(m) || op == Release(m) {
      LockTouched(s, op, m);
      hide Inv, Parked, Readied, Dispatched, Next, Enabled;
      var l := s.locks[m];
      if l.waiters != [] {
        assert l.waiters == [l.waiters[0]] + l.waiters[1..];
        assert l.waiters[0] !in l.waiters[1..];
      }
    } else {
      LockUntouched(s, op, m);
    }
  }

  lemma LockFacts(s: System, m: nat)
    requires Inv(s) && m < |s.locks|
    ensures var l := s.locks[m];
            && l.count >= 0 && (l.count == 0 <==> l.owner == Nobody) && (l.waiters != [] ==> l.owner != Nobody)
            && (l.owner.HeldBy? ==> l.owner.task !in l.waiters) && Distinct(l.waiters)
            && forall t :: t in l.waiters ==> t != IDLE && t !in s.tm.ready && t != s.tm.curr
  {
    assert LockOk(s.tm.place, s.locks[m], m);
    HeadPlaced(s.tm);
  }

  // The count of a mutex is the number of acquires less releases that its owner has open, and no other task
  // has any, but for the one call of each waiting task.
  lemma {:induction false} CountIsBalance(ss: seq<System>, ops: seq<Op>, m: nat, t: Tid)
    requires Run(ss, ops) && Inv(ss[0]) && m < |ss[0].locks|
    ensures m < |ss[|ops|].locks|
    ensures Open(ss[|ops|].locks[m], t) - Open(ss[0].locks[m], t) == Acquires(ss, ops, m, t) - Releases(ss, ops, m, t)
  {
    if ops != [] {
      RunFront(ss, ops);
      CountIsBalance(ss[..|ops|], ops[..|ops| - 1], m, t);
      ShapeOverRuns(ss[..|ops|], ops[..|ops| - 1]);
      hide Inv, Next, Enabled, Open;
      OpenStep(ss[|ops| - 1], ops[|ops| - 1], m, t);
    }
  }

  // t is between mutex_acquire, from which it has returned, and the release that ends its ownership.
  predicate Inside(ss: seq<System>, ops: seq<Op>, m: nat, t: Tid)
    requires |ss| == |ops| + 1 && m < |ss[|ops|].locks|
  {
    Acquires(ss, ops, m, t) > Releases(ss, ops, m, t) && t !in ss[|ops|].locks[m].waiters
  }

  // At most one task is inside, and it is the owner.
  lemma MutualExclusion(ss: seq<System>, ops: seq<Op>, m: nat, t: Tid, u: Tid)
    requires Run(ss, ops) && Inv(ss[0]) && m < |ss[0].locks| && ss[0].locks[m] == Lock(Nobody, 0, [])
    requires m < |ss[|ops|].locks|
    ensures Inside(ss, ops, m, t) <==> Owns(ss[|ops|], m, t)
    ensures Inside(ss, ops, m, t) && Inside(ss, ops, m, u) ==> t == u
  {
    CountIsBalance(ss, ops, m, t);
    CountIsBalance(ss, ops, m, u);
    ShapeOverRuns(ss, ops);
    LockFacts(ss[|ops|], m);
  }

  // A task that waits for a mutex has it, with count one, when it runs again: the call returns in the owner.
  lemma {:induction false} AcquireReturnsToOwner(ss: seq<System>, ops: seq<Op>, m: nat, t: Tid)
    requires Run(ss, ops) && Inv(ss[0]) && m < |ss[0].locks| && t in ss[0].locks[m].waiters
    requires forall i :: 0 <= i < |ops| ==> ss[i].tm.curr != t
    ensures m < |ss[|ops|].locks|
    ensures t in ss[|ops|].locks[m].waiters || (Owns(ss[|ops|], m, t) && ss[|ops|].locks[m].count == 1)
    ensures ss[|ops|].tm.curr == t ==> Owns(ss[|ops|], m, t) && ss[|ops|].locks[m].count == 1
  {
    if ops != [] {
      RunFront(ss, ops);
      AcquireReturnsToOwner(ss[..|ops|], ops[..|ops| - 1], m, t);
      ShapeOverRuns(ss[..|ops|], ops[..|ops| - 1]);
      WaiterStep(ss[|ops| - 1], ops[|ops| - 1], m, t);
    }
    hide Next, Enabled, Owns;
    ShapeOverRuns(ss, ops);
    LockFacts(ss[|ops|], m);
  }

  lemma WaiterStep(s: System, op: Op, m: nat, t: Tid)
    requires Inv(s) && Enabled(s, op) && m < |s.locks| && s.tm.curr != t
    requires t in s.locks[m].waiters || (Owns(s, m, t) && s.locks[m].count == 1)
    ensures var s' := Next(s, op);
            m < |s'.locks| && (t in s'.locks[m].waiters || (Owns(s', m, t) && s'.locks[m].count == 1))
  {
    LockFacts(s, m);
    if op == Acquire(m) || op == Release(m) {
      LockTouched(s, op, m);
    } else {
      LockUntouched(s, op, m);
    }
    hide Inv, Parked, Readied, Dispatched, Next, Enabled;
  }

  // The tasks that had to wait, in the order of their calls
  function Arrivals(ss: seq<System>, ops: seq<Op>, m: nat): seq<Tid>
    requires |ss| == |ops| + 1
  {
    if ops == [] then []
    else Arrivals(ss[..|ops|], ops[..|ops| - 1], m) + Arrival(ss[|ops| - 1], ops[|ops| - 1], ss[|ops|], m)
  }

  // A task that calls mutex_acquire and is not the owner afterwards
  function Arrival(s: System, op: Op, s': System, m: nat): seq<Tid> {
    if op == Acquire(m) && !Owns(s', m, s.tm.curr) then [s.tm.curr] else []
  }

  // The tasks to which ownership went straight from another task, in that order
  function HandOffs(ss: seq<System>, ops: seq<Op>, m: nat): seq<Tid>
    requires |ss| == |ops| + 1
  {
    if ops == [] then []
    else HandOffs(ss[..|ops|], ops[..|ops| - 1], m) + HandOff(ss[|ops| - 1], ss[|ops|], m)
  }

  function HandOff(s: System, s': System, m: nat): seq<Tid> {
    if m < |s.locks| && m < |s'.locks| && s.locks[m].owner != s'.locks[m].owner
       && s.locks[m].owner.HeldBy? && s'.locks[m].owner.HeldBy?
    then [s'.locks[m].owner.task] else []
  }

  lemma FifoStep(s: System, op: Op, m: nat)
    requires Inv(s) && Enabled(s, op) && m < |s.locks|
    ensures var s' := Next(s, op);
            m < |s'.locks| && s.locks[m].waiters + Arrival(s, op, s', m) == HandOff(s, s', m) + s'.locks[m].waiters
  {
    LockFacts(s, m);
    if op == Acquire(m) || op == Release(m) {
      LockTouched(s, op, m);
    } else {
      LockUntouched(s, op, m);
    }
    hide Inv, Parked, Readied, Dispatched, Next, Enabled;
    var l := s.locks[m];
    if op == Release(m) && l.waiters != [] {
      assert l.waiters[0] in l.waiters;
      assert l.waiters == [l.waiters[0]] + l.waiters[1..];
    }
  }

  // Waiting tasks get the mutex in the order of their calls.
  lemma {:induction false} MutexIsFifo(ss: seq<System>, ops: seq<Op>, m: nat)
    requires Run(ss, ops) && Inv(ss[0]) && m < |ss[0].locks|
    ensures m < |ss[|ops|].locks|
    ensures ss[0].locks[m].waiters + Arrivals(ss, ops, m) == HandOffs(ss, ops, m) + ss[|ops|].locks[m].waiters
  {
    if ops != [] {
      var n := |ops| - 1;
      RunFront(ss, ops);
      MutexIsFifo(ss[..|ops|], ops[..n], m);
      ShapeOverRuns(ss[..|ops|], ops[..n]);
      hide Inv, Next, Enabled, Arrival, HandOff, Run, OneHome;
      FifoStep(ss[n], ops[n], m);
      FifoJoin(ss[0].locks[m].waiters, Arrivals(ss[..|ops|], ops[..n], m), HandOffs(ss[..|ops|], ops[..n], m),
               ss[n].locks[m].waiters, Arrival(ss[n], ops[n], ss[|ops|], m), HandOff(ss[n], ss[|ops|], m),
                   ss[|ops|].locks[m].waiters);
    }
  }

  lemma FifoJoin(q: seq<Tid>, a: seq<Tid>, h: seq<Tid>, q': seq<Tid>, a': seq<Tid>, h': seq<Tid>, q'': seq<Tid>)
    requires q + a == h + q' && q' + a' == h' + q''
    ensures q + (a + a') == (h + h') + q''
  {
    calc {
      q + (a + a');
      (q + a) + a';
      h + (q' + a');
      (h + h') + q'';
    }
  }

  // ---- Semaphores ----

  function WaitCalls(ops: seq<Op>, j: nat): nat {
    if ops == [] then 0 else WaitCalls(ops[..|ops| - 1], j) + if ops[|ops| - 1] == Wait(j) then 1 else 0
  }

  function NotifyCalls(ops: seq<Op>, j: nat): nat {
    if ops == [] then 0 else NotifyCalls(ops[..|ops| - 1], j) + if ops[|ops| - 1] == Notify(j) then 1 else 0
  }

  lemma SemFacts(s: System, j: nat)
    requires Inv(s) && j < |s.sems|
    ensures var c := s.sems[j]; c.count >= 0 && (c.count > 0 ==> c.waiters == [])
    ensures forall t :: t in s.sems[j].waiters ==> t != IDLE && t !in s.tm.ready && t != s.tm.curr
  {
    assert SemOk(s.tm.place, s.sems[j], j);
    HeadPlaced(s.tm);
  }

  lemma ConservedStep(s: System, op: Op, j: nat)
    requires Inv(s) && Enabled(s, op) && j < |s.sems|
    ensures var s' := Next(s, op);
            && j < |s'.sems|
            && s'.sems[j].count - |s'.sems[j].waiters| == s.sems[j].count - |s.sems[j].waiters|
                 + (if op == Notify(j) then 1 else 0) - (if op == Wait(j) then 1 else 0)
  {
    SemFacts(s, j);
    hide Inv, Parked, Readied, Dispatched, Ticked, Resumed, Yielded, Slept, Started;
  }

  // The initial count and the signals are the count and the waits granted; a wait is granted unless its task
  // is on the wait list. So no signal is lost, and none is counted while a task waits.
  lemma {:induction false} SignalsConserved(ss: seq<System>, ops: seq<Op>, j: nat)
    requires Run(ss, ops) && Inv(ss[0]) && j < |ss[0].sems| && ss[0].sems[j].waiters == []
    ensures j < |ss[|ops|].sems|
    ensures var c := ss[|ops|].sems[j];
            && c.count >= 0 && (c.count > 0 ==> c.waiters == [])
            && ss[0].sems[j].count + NotifyCalls(ops, j) == c.count + (WaitCalls(ops, j) - |c.waiters|)
  {
    if ops != [] {
      RunFront(ss, ops);
      SignalsConserved(ss[..|ops|], ops[..|ops| - 1], j);
      ShapeOverRuns(ss[..|ops|], ops[..|ops| - 1]);
      ConservedStep(ss[|ops| - 1], ops[|ops| - 1], j);
    }
    hide Next, Enabled;
    ShapeOverRuns(ss, ops);
    SemFacts(ss[|ops|], j);
  }

  // The tasks that had to wait, and those that a signal made ready, in order
  function Queued(ss: seq<System>, ops: seq<Op>, j: nat): seq<Tid>
    requires |ss| == |ops| + 1
  {
    if ops == [] then []
    else Queued(ss[..|ops|], ops[..|ops| - 1], j) + QueuedBy(ss[|ops| - 1], ops[|ops| - 1], ss[|ops|], j)
  }

  function QueuedBy(s: System, op: Op, s': System, j: nat): seq<Tid> {
    if op == Wait(j) && s'.tm.curr != s.tm.curr then [s.tm.curr] else []
  }

  function Granted(ss: seq<System>, ops: seq<Op>, j: nat): seq<Tid>
    requires |ss| == |ops| + 1
  {
    if ops == [] then []
    else Granted(ss[..|ops|], ops[..|ops| - 1], j) + GrantedBy(ss[|ops| - 1], ops[|ops| - 1], ss[|ops|], j)
  }

  function GrantedBy(s: System, op: Op, s': System, j: nat): seq<Tid> {
    if op == Notify(j) && |s'.tm.ready| > |s.tm.ready| then [s'.tm.ready[|s'.tm.ready| - 1]] else []
  }

  lemma SemFifoStep(s: System, op: Op, j: nat)
    requires Inv(s) && Enabled(s, op) && j < |s.sems|
    ensures var s' := Next(s, op);
            j < |s'.sems| && s.sems[j].waiters + QueuedBy(s, op, s', j) == GrantedBy(s, op, s', j) + s'.sems[j].waiters
  {
    SemFacts(s, j);
    var s' := Next(s, op);
    var c := s.sems[j];
    if op == Wait(j) && c.count <= 0 {
      WaitedKeeps(s.tm, c, j) by { assert SemOk(s.tm.place, c, j); }
      HeadPlaced(s.tm);
      ParkedElsewhere(s.tm, OnSem(j));
    } else if op == Notify(j) && c.waiters != [] {
      assert c.waiters[0] in c.waiters;
      assert c.waiters == [c.waiters[0]] + c.waiters[1..];
    }
  }

  lemma ParkedElsewhere(s: Sched, p: Place)
    requires Shape(s) && s.curr != IDLE && s.curr !in s.walking && p != Ready && p != Asleep
    ensures Parked(s, p).curr != s.curr
  {
    HeadPlaced(s);
    if |s.ready| > 1 {
      assert s.ready[0] != s.ready[1];
    }
  }

  // Waiting tasks are served in the order of their calls.
  lemma {:induction false} SemIsFifo(ss: seq<System>, ops: seq<Op>, j: nat)
    requires Run(ss, ops) && Inv(ss[0]) && j < |ss[0].sems|
    ensures j < |ss[|ops|].sems|
    ensures ss[0].sems[j].waiters + Queued(ss, ops, j) == Granted(ss, ops, j) + ss[|ops|].sems[j].waiters
  {
    if ops != [] {
      var n := |ops| - 1;
      RunFront(ss, ops);
      SemIsFifo(ss[..|ops|], ops[..n], j);
      ShapeOverRuns(ss[..|ops|], ops[..n]);
      hide Inv, Next, Enabled, QueuedBy, GrantedBy, Run, OneHome;
      SemFifoStep(ss[n], ops[n], j);
      FifoJoin(ss[0].sems[j].waiters, Queued(ss[..|ops|], ops[..n], j), Granted(ss[..|ops|], ops[..n], j),
               ss[n].sems[j].waiters, QueuedBy(ss[n], ops[n], ss[|ops|], j), GrantedBy(ss[n], ops[n], ss[|ops|], j),
               ss[|ops|].sems[j].waiters);
    }
  }
}
