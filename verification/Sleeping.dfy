// How long tasks sleep. The walk of the sleep list that belongs to a tick is put off when the tick ends a time
// slice: it is done when the preempted task runs again, perhaps many ticks later.
module Sleeping {
  import opened Counting
  import opened Tasks
  import opened Mutexes
  import opened Semaphores
  import opened Scheduling
  import opened Timing

  // The step op goes through the sleep list.
  predicate DoesWalk(s: System, op: Op) {
    op.Resume? || (op.Tick? && Charged(s.tm).curr == s.tm.curr)
  }

  function Walks(ss: seq<System>, ops: seq<Op>): nat
    requires |ss| == |ops| + 1
  {
    if ops == [] then 0
    else Walks(ss[..|ops|], ops[..|ops| - 1]) + if DoesWalk(ss[|ops| - 1], ops[|ops| - 1]) then 1 else 0
  }

  // ---- No walk is lost ----

  lemma WalkingStep(s: System, op: Op)
    requires Inv(s) && Enabled(s, op)
    ensures |Next(s, op).tm.walking| + (if DoesWalk(s, op) then 1 else 0) == |s.tm.walking| + if op.Tick? then 1 else 0
  {
    var w := s.tm.walking;
    hide Inv, Woken, StillAsleep, Decremented, Replaced, Without, NextRun;
    if op.Tick? {
      assert Charged(s.tm).walking == w;
      assert |w + {s.tm.curr}| == |w| + 1;
    } else if op.Resume? {
      assert |w - {s.tm.curr}| == |w| - 1;
    }
  }

  // On every run the ticks are the walks done and the walks still owed by tasks that were switched out.
  lemma {:induction false} TickAccounting(ss: seq<System>, ops: seq<Op>)
    requires Run(ss, ops) && Inv(ss[0])
    ensures Ticks(ops) + |ss[0].tm.walking| == Walks(ss, ops) + |ss[|ops|].tm.walking|
  {
    if ops != [] {
      RunFront(ss, ops);
      TickAccounting(ss[..|ops|], ops[..|ops| - 1]);
      ShapeOverRuns(ss[..|ops|], ops[..|ops| - 1]);
      hide Inv, Next, Enabled, DoesWalk;
      WalkingStep(ss[|ops| - 1], ops[|ops| - 1]);
    }
  }

  // Walks are owed by tasks that are ready: there are no more of them than ready tasks.
  lemma OwedBound(s: System)
    requires Inv(s)
    ensures |s.tm.walking| <= |s.tm.ready|
  {
    assert forall t :: t in s.tm.walking ==> t in s.tm.ready;
    hide Inv;
    Pigeons(s.tm.walking, s.tm.ready);
  }

  // ---- A sleeper wakes on the walk its time is up, not before ----

  // t has n walks to go.
  predicate Sleeps(s: System, t: Tid, n: int) {
    t in s.tm.sleep && Field(s.tm.sleepTicks, t) == n
  }

  lemma WalkedSleeper(s: Sched, t: Tid)
    requires t in s.sleep
    ensures Field(s.sleepTicks, t) == 1 ==> t in Walked(s).ready
    ensures Field(s.sleepTicks, t) != 1 ==>
              t in Walked(s).sleep && Field(Walked(s).sleepTicks, t) == Field(s.sleepTicks, t) - 1
  {
    hide Woken, StillAsleep, Replaced;
  }

  lemma SleeperStep(s: System, op: Op, t: Tid, n: int)
    requires Inv(s) && Enabled(s, op) && Sleeps(s, t, n)
    ensures var s' := Next(s, op);
            if !DoesWalk(s, op) then Sleeps(s', t, n)
            else if n == 1 then t in s'.tm.ready
            else Sleeps(s', t, n - 1)
  {
    assert t in s.tm.place && t != s.tm.curr by { HeadPlaced(s.tm); }
    hide Inv, Without, Walked;
    if op.Tick? {
      TickedSleeper(s.tm, t);
      hide Ticked, Charged;
    } else if op.Resume? {
      WalkedSleeper(s.tm.(walking := s.tm.walking - {s.tm.curr}), t);
    } else {
      hide Ticked, Charged, Resumed;
    }
  }

  lemma TickedSleeper(s: Sched, t: Tid)
    requires t in s.sleep
    ensures var n := Field(s.sleepTicks, t);
            var s' := Ticked(s);
            if Charged(s).curr != s.curr then t in s'.sleep && Field(s'.sleepTicks, t) == n
            else if n == 1 then t in s'.ready
            else t in s'.sleep && Field(s'.sleepTicks, t) == n - 1
  {
    assert Charged(s).sleep == s.sleep && Charged(s).sleepTicks == s.sleepTicks;
    hide Charged, Walked;
    WalkedSleeper(Charged(s), t);
  }

  // The same, by the number of walks
  lemma SleeperGoesOn(s: System, op: Op, s': System, t: Tid, n: int)
    requires Inv(s) && Step(s, op, s') && Sleeps(s, t, n) && n > (if DoesWalk(s, op) then 1 else 0)
    ensures Sleeps(s', t, n - if DoesWalk(s, op) then 1 else 0)
  {
    SleeperStep(s, op, t, n);
    hide Inv, Sleeps, DoesWalk, Next, Enabled;
  }

  lemma WalksStep(ss: seq<System>, ops: seq<Op>)
    requires |ss| == |ops| + 1 && ops != []
    ensures Walks(ss, ops) == Walks(ss[..|ops|], ops[..|ops| - 1])
                              + if DoesWalk(ss[|ops| - 1], ops[|ops| - 1]) then 1 else 0
  {
    hide DoesWalk;
  }

  // As long as fewer than n walks are done, a task that has n walks to go sleeps on.
  lemma {:induction false} SleepsOn(ss: seq<System>, ops: seq<Op>, t: Tid, n: int)
    requires Run(ss, ops) && Inv(ss[0]) && Sleeps(ss[0], t, n) && Walks(ss, ops) < n
    ensures Sleeps(ss[|ops|], t, n - Walks(ss, ops))
  {
    hide *;
    if ops == [] {
      WalksNone(ss, ops);
    } else {
      RunFront(ss, ops);
      WalksStep(ss, ops);
      SleepsOn(ss[..|ops|], ops[..|ops| - 1], t, n);
      ShapeOverRuns(ss[..|ops|], ops[..|ops| - 1]);
      SleeperGoesOn(ss[|ops| - 1], ops[|ops| - 1], ss[|ops|], t, n - Walks(ss[..|ops|], ops[..|ops| - 1]));
    }
  }

  lemma WalksNone(ss: seq<System>, ops: seq<Op>)
    requires Run(ss, ops) && ops == []
    ensures |ss| == 1 && Walks(ss, ops) == 0
  {
  }

  // The n-th walk makes it ready.
  lemma WakesReady(ss: seq<System>, ops: seq<Op>, t: Tid, n: int)
    requires Run(ss, ops) && Inv(ss[0]) && Sleeps(ss[0], t, n) && ops != []
    requires DoesWalk(ss[|ops| - 1], ops[|ops| - 1]) && Walks(ss, ops) == n
    ensures t in ss[|ops|].tm.ready
  {
    RunFront(ss, ops);
    WalksStep(ss, ops);
    hide Inv, DoesWalk, Sleeps, Run, Walks, Next, Enabled;
    OneToGo(ss[..|ops|], ops[..|ops| - 1], t, n);
    SleeperStep(ss[|ops| - 1], ops[|ops| - 1], t, 1);
  }

  lemma OneToGo(ss: seq<System>, ops: seq<Op>, t: Tid, n: int)
    requires Run(ss, ops) && Inv(ss[0]) && Sleeps(ss[0], t, n) && Walks(ss, ops) == n - 1
    ensures Inv(ss[|ops|]) && Sleeps(ss[|ops|], t, 1)
  {
    SleepsOn(ss, ops, t, n);
    ShapeOverRuns(ss, ops);
  }

  // Counted in ticks of the clock, its sleep is off by the walks owed: those owed when it fell asleep make it
  // shorter, those owed when it wakes make it longer. Each is owed by a ready task.
  lemma WakesOnTime(ss: seq<System>, ops: seq<Op>, t: Tid, n: int)
    requires Run(ss, ops) && Inv(ss[0]) && Sleeps(ss[0], t, n) && ops != []
    requires DoesWalk(ss[|ops| - 1], ops[|ops| - 1]) && Walks(ss, ops) == n
    ensures t in ss[|ops|].tm.ready
    ensures Ticks(ops) == n + |ss[|ops|].tm.walking| - |ss[0].tm.walking|
    ensures n - |ss[0].tm.ready| <= Ticks(ops) <= n + |ss[|ops|].tm.ready|
  {
    WakesReady(ss, ops, t, n);
    ShapeOverRuns(ss, ops);
    hide Inv, Run, DoesWalk, Sleeps, OneHome, Walks, Ticks;
    TickAccounting(ss, ops);
    OwedBound(ss[0]);
    OwedBound(ss[|ops|]);
  }

  // The task that calls sys_sleep has the rounded number of ticks to go.
  lemma SleepBegins(s: System, ms: nat)
    requires Inv(s) && Enabled(s, Sleep(ms)) && 1 <= ms < WORD_SIZE - 9
    ensures Sleeps(Next(s, Sleep(ms)), s.tm.curr, (ms + 9) / 10) && (ms + 9) / 10 >= 1
  {
    hide Inv, Without;
  }
}
