// What every step of the system does, list by list and field by field, and what follows for tasks that start,
// end, or sleep.
module Effects {
  import opened Tasks
  import opened Mutexes
  import opened Semaphores
  import opened Scheduling
  import opened Timing
  import opened Sleeping

  // a holds some of the tasks of q, in the order of q.
  ghost predicate InOrderOf(a: seq<Tid>, q: seq<Tid>) {
    forall i, j :: 0 <= i < j < |a| ==> InFront(q, a[i], a[j])
  }

  // t stands before u in q.
  ghost predicate InFront(q: seq<Tid>, t: Tid, u: Tid) {
    exists x, y :: 0 <= x < y < |q| && q[x] == t && q[y] == u
  }

  // Of the sleepers of s those with one tick to go are up; the others still sleep in s'. Both in their old order
  ghost predicate SleepersSplit(s: Sched, s': Sched, up: seq<Tid>) {
    && (forall u :: u in up <==> u in s.sleep && Field(s.sleepTicks, u) == 1)
    && (forall u :: u in s'.sleep <==> u in s.sleep && Field(s.sleepTicks, u) != 1)
    && InOrderOf(up, s.sleep) && InOrderOf(s'.sleep, s.sleep)
  }

  ghost predicate TicksCounted(s: Sched, s': Sched, up: seq<Tid>) {
    && (forall u :: Field(s'.sleepTicks, u) == Field(s.sleepTicks, u) - if u in s.sleep then 1 else 0)
    && (forall u :: u in s'.place <==> u in s.place)
    && (forall u :: u in s.place ==> s'.place[u] == if u in up then Ready else s.place[u])
  }

  // Every sleeper has a tick less to go. Those with none left go to the back of the ready list, in the order in
  // which they fell asleep, and end the idling of the processor.
  ghost predicate SleepersCounted(s: Sched, s': Sched) {
    var up := s'.ready[if |s.ready| <= |s'.ready| then |s.ready| else 0..];
    && s'.ready == s.ready + up
    && SleepersSplit(s, s', up) && TicksCounted(s, s', up)
    && s'.curr == if s.curr == IDLE && up != [] then up[0] else s.curr
  }

  // The running task goes to place p, off the ready list, and the next one on it runs.
  function Left(s: Sched, p: Place): Sched
    requires s.ready != []
  {
    s.(curr := if |s.ready| >= 2 then s.ready[1] else IDLE, ready := s.ready[1..], place := s.place[s.curr := p])
  }

  ghost predicate Effect(s: System, op: Op, s': System)
    requires Enabled(s, op) && (s.tm.curr != IDLE ==> s.tm.ready != [])
  {
    var t := s.tm;
    match op
    case Tick =>
      var n := Field(t.slice, t.curr);
      && s' == s.(tm := s'.tm) && s'.tm.slice == t.slice[t.curr := if n == 1 then 10 else n - 1]
      && if n == 1 && |t.ready| >= 2 then
           s'.tm == t.(curr := t.ready[1], ready := t.ready[1..] + [t.curr], slice := s'.tm.slice,
                       walking := t.walking + {t.curr})
         else
           SleepersCounted(t, s'.tm) && s'.tm.walking == t.walking
    case Resume =>
      s' == s.(tm := s'.tm) && s'.tm.slice == t.slice && s'.tm.walking == t.walking - {t.curr}
      && SleepersCounted(t, s'.tm)
    case Yield =>
      s' == if |t.ready| >= 2 then s.(tm := t.(curr := t.ready[1], ready := t.ready[1..] + [t.curr])) else s
    case Sleep(ms) =>
      s' == s.(tm := if 1 <= ms <= 0xFFFF_FFF6 then
                       Left(t, Asleep).(sleep := t.sleep + [t.curr], sleepTicks := t.sleepTicks[t.curr := (ms + 9) / 10])
                     else Left(t, Lost))
    case Start(u) =>
      s' == s.(tm := t.(ready := t.ready + [u], slice := t.slice[u := 10], sleepTicks := t.sleepTicks[u := 0],
                        place := t.place[u := Ready]))
    case Exit =>
      s' == s.(tm := Left(t, Exited))
    case Acquire(m) =>
      var l := s.locks[m];
      if l.owner == Nobody then s' == s.(locks := s.locks[m := Lock(HeldBy(t.curr), 1, [])])
      else if l.owner == HeldBy(t.curr) then s' == s.(locks := s.locks[m := l.(count := l.count + 1)])
      else s' == s.(tm := Left(t, OnMutex(m)), locks := s.locks[m := l.(waiters := l.waiters + [t.curr])])
    case Release(m) =>
      var l := s.locks[m];
      if l.owner != HeldBy(t.curr) then s' == s
      else if l.count >= 2 then s' == s.(locks := s.locks[m := l.(count := l.count - 1)])
      else if l.waiters == [] then s' == s.(locks := s.locks[m := Lock(Nobody, 0, [])])
      else s' == s.(tm := t.(ready := t.ready + [l.waiters[0]], place := t.place[l.waiters[0] := Ready]),
                    locks := s.locks[m := Lock(HeldBy(l.waiters[0]), 1, l.waiters[1..])])
    case Wait(j) =>
      var c := s.sems[j];
      if c.count >= 1 then s' == s.(sems := s.sems[j := c.(count := c.count - 1)])
      else s' == s.(tm := Left(t, OnSem(j)), sems := s.sems[j := c.(waiters := c.waiters + [t.curr])])
    case Notify(j) =>
      var c := s.sems[j];
      if c.waiters == [] then s' == s.(sems := s.sems[j := c.(count := c.count + 1)])
      else s' == s.(tm := t.(curr := if t.curr == IDLE then c.waiters[0] else t.curr,
                             ready := t.ready + [c.waiters[0]], place := t.place[c.waiters[0] := Ready]),
                    sems := s.sems[j := c.(waiters := c.waiters[1..])])
  }

  lemma ParkedIsLeft(s: Sched, p: Place)
    requires Shape(s) && s.curr != IDLE
    ensures s.ready != [] && Parked(s, p) == Left(s, p)
  {
    HeadPlaced(s);
    hide Shape;
  }

  lemma TurnedIs(s: Sched)
    requires Shape(s) && s.ready != []
    ensures Without(s.ready, s.curr) == s.ready[1..] && s.place[s.curr := Ready] == s.place && s.curr != IDLE
  {
    HeadPlaced(s);
    hide Shape;
  }

  lemma {:induction false} FilterInOrder(q: seq<Tid>, ticks: map<Tid, int>)
    ensures InOrderOf(Woken(q, ticks), q) && InOrderOf(StillAsleep(q, ticks), q)
  {
    if q != [] {
      var front, last := q[..|q| - 1], q[|q| - 1];
      FilterInOrder(front, ticks);
      JoinInOrder(Woken(front, ticks), front, last);
      JoinInOrder(StillAsleep(front, ticks), front, last);
      assert q == front + [last];
    }
  }

  lemma JoinInOrder(a: seq<Tid>, q: seq<Tid>, t: Tid)
    requires InOrderOf(a, q) && forall u :: u in a ==> u in q
    ensures InOrderOf(a + [t], q + [t]) && InOrderOf(a, q + [t])
  {
    forall i, j | 0 <= i < j < |a + [t]|
      ensures InFront(q + [t], (a + [t])[i], (a + [t])[j])
    {
      if j < |a| {
        StaysAhead(q, [t], a[i], a[j]);
      } else {
        assert a[i] in q;
        var x :| 0 <= x < |q| && q[x] == a[i];
        assert (q + [t])[x] == a[i] && (q + [t])[|q|] == t;
      }
    }
    forall i, j | 0 <= i < j < |a|
      ensures InFront(q + [t], a[i], a[j])
    {
      StaysAhead(q, [t], a[i], a[j]);
    }
  }

  lemma StaysAhead(q: seq<Tid>, more: seq<Tid>, t: Tid, u: Tid)
    requires InFront(q, t, u)
    ensures InFront(q + more, t, u)
  {
    var x, y :| 0 <= x < y < |q| && q[x] == t && q[y] == u;
    assert (q + more)[x] == t && (q + more)[y] == u;
  }

  lemma WalkSplits(s: Sched)
    ensures SleepersSplit(s, Dispatched(Walked(s)), Woken(s.sleep, s.sleepTicks))
  {
    FilterInOrder(s.sleep, s.sleepTicks);
    hide InOrderOf, Decremented, Replaced, Field;
  }

  lemma WalkTicks(s: Sched)
    requires Shape(s)
    ensures TicksCounted(s, Dispatched(Walked(s)), Woken(s.sleep, s.sleepTicks))
  {
    SleepersPlaced(s);
    hide Shape, StillAsleep;
  }

  lemma WalkCounts(s: Sched)
    requires Shape(s)
    ensures SleepersCounted(s, Dispatched(Walked(s)))
  {
    HeadPlaced(s);
    WalkSplits(s);
    WalkTicks(s);
    var up := Woken(s.sleep, s.sleepTicks);
    WalkRuns(s.ready, up);
    hide Shape, SleepersSplit, TicksCounted, Woken, StillAsleep, Decremented, Replaced;
  }

  lemma WalkRuns(ready: seq<Tid>, up: seq<Tid>)
    ensures (ready + up)[|ready|..] == up
  {
  }

  lemma SleepersPlaced(s: Sched)
    requires Shape(s)
    ensures forall t :: t in s.sleep ==> t in s.place
  {
  }

  lemma ChargedIs(s: Sched)
    requires Shape(s) && s.curr !in s.walking
    ensures var n := Field(s.slice, s.curr);
            var c := s.(slice := s.slice[s.curr := if n == 1 then 10 else n - 1]);
            Charged(s) == if n == 1 && |s.ready| >= 2 then
                            c.(curr := s.ready[1], ready := s.ready[1..] + [s.curr])
                          else c
  {
    if s.ready != [] {
      TurnedIs(s);
    }
    HeadPlaced(s);
    hide Shape;
  }

  // The walk and the dispatch after it, in the state that differs from s in slices and debts only
  lemma WalkEffect(s: Sched, c: Sched)
    requires Shape(c) && c == s.(slice := c.slice, walking := c.walking)
    ensures var s' := Dispatched(Walked(c));
            SleepersCounted(s, s') && s'.slice == c.slice && s'.walking == c.walking
  {
    WalkCounts(c);
    SameSleepers(s, c, Dispatched(Walked(c)));
    hide Shape, SleepersCounted, Woken, StillAsleep, Decremented, Replaced;
  }

  lemma SameSleepers(s: Sched, c: Sched, s': Sched)
    requires c == s.(slice := c.slice, walking := c.walking) && SleepersCounted(c, s')
    ensures SleepersCounted(s, s')
  {
    hide InOrderOf, Field;
  }

  lemma TickedIs(s: Sched)
    requires Shape(s) && s.curr !in s.walking
    ensures var n := Field(s.slice, s.curr);
            var slice := s.slice[s.curr := if n == 1 then 10 else n - 1];
            if n == 1 && |s.ready| >= 2 then
              Ticked(s) == s.(curr := s.ready[1], ready := s.ready[1..] + [s.curr], slice := slice,
                              walking := s.walking + {s.curr})
            else
              SleepersCounted(s, Ticked(s)) && Ticked(s).slice == slice && Ticked(s).walking == s.walking
  {
    HeadPlaced(s);
    ChargedIs(s);
    ChargedShape(s);
    assert |s.ready| >= 2 ==> s.ready[1] != s.ready[0] by { assert Distinct(s.ready); }
    var c := Charged(s);
    hide Shape, Charged, Field, SleepersCounted, Walked, Dispatched;
    if c.curr == s.curr {
      WalkEffect(s, c);
    }
  }

  lemma InvShape(s: System)
    requires Inv(s)
    ensures Shape(s.tm) && (s.tm.curr != IDLE <==> s.tm.ready != [])
  {
    HeadPlaced(s.tm);
  }

  lemma TickEffect(s: System)
    requires Inv(s) && Enabled(s, Tick)
    ensures s.tm.curr != IDLE ==> s.tm.ready != []
    ensures Effect(s, Tick, Next(s, Tick))
  {
    hide Inv, Shape, Ticked, SleepersCounted, Field;
    InvShape(s);
    TickedIs(s.tm);
  }

  lemma ResumeEffect(s: System)
    requires Inv(s) && Enabled(s, Resume)
    ensures s.tm.curr != IDLE ==> s.tm.ready != []
    ensures Effect(s, Resume, Next(s, Resume))
  {
    hide Inv, Walked, SleepersCounted, Dispatched;
    InvShape(s);
    var t := s.tm;
    var t1 := t.(walking := t.walking - {t.curr});
    assert Shape(t1);
    hide Shape;
    WalkEffect(t, t1);
  }

  // Every step has its effect.
  lemma NextEffect(s: System, op: Op)
    requires Inv(s) && Enabled(s, op)
    ensures s.tm.curr != IDLE ==> s.tm.ready != []
    ensures Effect(s, op, Next(s, op))
  {
    hide *;
    InvShape(s);
    match op
    case Tick => TickEffect(s);
    case Resume => ResumeEffect(s);
    case Acquire(m) => LockEffect(s, op);
    case Release(m) => LockEffect(s, op);
    case Wait(j) => SemEffect(s, op);
    case Notify(j) => SemEffect(s, op);
    case _ => AloneEffect(s, op);
  }

  lemma AloneEffect(s: System, op: Op)
    requires Inv(s) && Enabled(s, op) && (op.Yield? || op.Sleep? || op.Start? || op.Exit?)
    ensures s.tm.ready != [] && Effect(s, op, Next(s, op))
  {
    hide Inv, Shape, Parked, Without, Slept, Left;
    InvShape(s);
    var t := s.tm;
    TurnedIs(t);
    ParkedIsLeft(t, Lost);
    ParkedIsLeft(t, Exited);
    if op.Sleep? {
      SleptIs(t, op.ms);
    }
  }

  lemma SleptIs(s: Sched, ms: nat)
    requires Shape(s) && s.curr != IDLE && ms < WORD_SIZE
    ensures s.ready != []
    ensures Slept(s, ms) == if 1 <= ms <= 0xFFFF_FFF6 then
                              Left(s, Asleep).(sleep := s.sleep + [s.curr],
                                               sleepTicks := s.sleepTicks[s.curr := (ms + 9) / 10])
                            else Left(s, Lost)
  {
    ParkedIsLeft(s, Lost);
    ParkedIsLeft(s, Asleep);
    hide Shape, Without, NextRun;
  }

  lemma LockEffect(s: System, op: Op)
    requires Inv(s) && Enabled(s, op) && (op.Acquire? || op.Release?)
    ensures s.tm.ready != [] && Effect(s, op, Next(s, op))
  {
    hide Inv, Shape, Parked, Left;
    InvShape(s);
    LockCount(s, op.m);
    if op.Acquire? {
      ParkedIsLeft(s.tm, OnMutex(op.m));
    }
  }

  lemma LockCount(s: System, m: nat)
    requires Inv(s) && m < |s.locks|
    ensures var l := s.locks[m];
            && l.count >= 0 && (l.count == 0 <==> l.owner == Nobody) && (l.waiters != [] ==> l.owner != Nobody)
            && (l.waiters != [] ==> l.waiters[0] != IDLE)
            && NextRun(s.tm) == s.tm.curr
  {
    assert LockOk(s.tm.place, s.locks[m], m);
    assert s.locks[m].waiters != [] ==> s.locks[m].waiters[0] in s.locks[m].waiters;
  }

  lemma SemEffect(s: System, op: Op)
    requires Inv(s) && Enabled(s, op) && (op.Wait? || op.Notify?)
    ensures s.tm.curr != IDLE ==> s.tm.ready != []
    ensures Effect(s, op, Next(s, op))
  {
    hide Inv, Shape, Parked, Left;
    InvShape(s);
    SemCount(s, op.j);
    if op.Wait? {
      ParkedIsLeft(s.tm, OnSem(op.j));
    }
  }

  lemma SemCount(s: System, j: nat)
    requires Inv(s) && j < |s.sems|
    ensures s.sems[j].count >= 0 && (s.sems[j].waiters != [] ==> s.sems[j].waiters[0] != IDLE)
    ensures NextRun(s.tm) == s.tm.curr
  {
    assert SemOk(s.tm.place, s.sems[j], j);
    assert s.sems[j].waiters != [] ==> s.sems[j].waiters[0] in s.sems[j].waiters;
  }

  // The system never stops: a task in the middle of a tick can finish it; otherwise the clock can tick and an interrupt
  // can notify, and a running task can make every call.
  lemma NeverStuck(s: System, ms: nat, t: Tid, m: nat, j: nat)
    requires Inv(s)
    ensures s.tm.curr in s.tm.walking ==> Enabled(s, Resume)
    ensures s.tm.curr !in s.tm.walking ==> Enabled(s, Tick) && (j < |s.sems| ==> Enabled(s, Notify(j)))
    ensures s.tm.curr !in s.tm.walking && s.tm.ready != [] ==>
              && Enabled(s, Yield) && Enabled(s, Exit) && (ms < 0x1_0000_0000 ==> Enabled(s, Sleep(ms)))
              && (t != IDLE && t !in s.tm.place ==> Enabled(s, Start(t)))
              && (m < |s.locks| ==> Enabled(s, Acquire(m)) && Enabled(s, Release(m)))
              && (j < |s.sems| ==> Enabled(s, Wait(j)))
  {
    HeadPlaced(s.tm);
    hide Inv;
  }

  // ---- A started task runs ----

  lemma RunRest(ss: seq<System>, ops: seq<Op>)
    requires Run(ss, ops) && ops != []
    ensures Run(ss[1..], ops[1..]) && Step(ss[0], ops[0], ss[1]) && ss[1..][|ops[1..]|] == ss[|ops|]
  {
    hide Step;
    forall k | 0 <= k < |ops| - 1
      ensures Step(ss[1..][k], ops[1..][k], ss[1..][k + 1])
    {
      assert Step(ss[k + 1], ops[k + 1], ss[k + 1 + 1]);
    }
  }

  lemma {:induction false} TicksRest(ops: seq<Op>)
    requires ops != []
    ensures Ticks(ops) == Ticks(ops[1..]) + if ops[0].Tick? then 1 else 0
  {
    var n := |ops| - 1;
    if n == 0 {
      assert ops[..n] == [] && ops[1..] == [];
    } else {
      TicksRest(ops[..n]);
      assert ops[..n][1..] == ops[1..][..n - 1];
    }
  }

  // A task that is started runs before 10 ticks have gone by for each task that was ready before it: as long as
  // it has not run there are fewer, and it is ready.
  lemma StartedRuns(ss: seq<System>, ops: seq<Op>, t: Tid)
    requires Run(ss, ops) && Inv(ss[0]) && ops != [] && ops[0] == Start(t)
    requires forall i :: 1 <= i <= |ops| ==> ss[i].tm.curr != t
    ensures t in ss[|ops|].tm.ready && Ticks(ops) < 10 * |ss[0].tm.ready|
  {
    RunRest(ss, ops);
    NextKeeps(ss[0], ops[0]);
    NextEffect(ss[0], ops[0]);
    TicksRest(ops);
    hide Inv, Run, Ticks, Next, Enabled;
    var k := |ss[0].tm.ready|;
    assert ss[1].tm.ready == ss[0].tm.ready + [t];
    BoundedWaiting(ss[1..], ops[1..], t, k);
  }

  // A task that has called sys_exit never runs again.
  lemma ExitedNeverRuns(ss: seq<System>, ops: seq<Op>)
    requires Run(ss, ops) && Inv(ss[0]) && ops != [] && ops[0] == Exit
    ensures Gone(ss[|ops|], ss[0].tm.curr) && ss[|ops|].tm.curr != ss[0].tm.curr
  {
    RunRest(ss, ops);
    NextKeeps(ss[0], ops[0]);
    NextEffect(ss[0], ops[0]);
    assert Gone(ss[1], ss[0].tm.curr);
    hide Inv, Run, Next, Enabled, Gone;
    GoneForGood(ss[1..], ops[1..], ss[0].tm.curr);
  }

  // ---- Sleepers wake in the order in which they fell asleep ----

  // Whoever sleeps already is ahead of a task that falls asleep.
  lemma SleepsBehind(s: System, ms: nat, t: Tid)
    requires Inv(s) && Enabled(s, Sleep(ms)) && 1 <= ms <= 0xFFFF_FFF6 && t in s.tm.sleep
    ensures InFront(Next(s, Sleep(ms)).tm.sleep, t, s.tm.curr)
  {
    NextEffect(s, Sleep(ms));
    hide Inv, Next;
    var q := s.tm.sleep;
    var x :| 0 <= x < |q| && q[x] == t;
    assert (q + [s.tm.curr])[x] == t && (q + [s.tm.curr])[|q|] == s.tm.curr;
  }

  lemma OrderInherited(a: seq<Tid>, q: seq<Tid>, t: Tid, u: Tid)
    requires InOrderOf(a, q) && Distinct(q) && t in a && u in a && InFront(q, t, u)
    ensures InFront(a, t, u)
  {
    NeverBoth(q, t, u);
    var i :| 0 <= i < |a| && a[i] == t;
    var j :| 0 <= j < |a| && a[j] == u;
    OrderAt(a, q, i, j);
  }

  lemma OrderAt(a: seq<Tid>, q: seq<Tid>, i: nat, j: nat)
    requires InOrderOf(a, q) && i < |a| && j < |a|
    ensures i <= j || InFront(q, a[j], a[i])
  {
  }

  lemma NeverBoth(q: seq<Tid>, t: Tid, u: Tid)
    requires Distinct(q) && InFront(q, t, u)
    ensures t != u && !InFront(q, u, t)
  {
  }

  // What a step that counts the sleepers does to two of them
  lemma CountedInOrder(s: Sched, s': Sched, t: Tid, u: Tid)
    requires SleepersCounted(s, s') && Distinct(s.sleep) && InFront(s.sleep, t, u)
    ensures t in s'.sleep && u in s'.sleep ==> InFront(s'.sleep, t, u)
    ensures Field(s.sleepTicks, t) == 1 && Field(s.sleepTicks, u) == 1 ==> InFront(s'.ready, t, u)
  {
    hide InOrderOf, Field;
    assert t in s.sleep && u in s.sleep;
    if t in s'.sleep && u in s'.sleep {
      OrderInherited(s'.sleep, s.sleep, t, u);
    }
    var up := s'.ready[|s.ready|..];
    if t in up && u in up {
      OrderInherited(up, s.sleep, t, u);
      BehindAll(s.ready, up, t, u);
    }
  }

  lemma BehindAll(q: seq<Tid>, up: seq<Tid>, t: Tid, u: Tid)
    requires InFront(up, t, u)
    ensures InFront(q + up, t, u)
  {
    var x, y :| 0 <= x < y < |up| && up[x] == t && up[y] == u;
    assert (q + up)[|q| + x] == t && (q + up)[|q| + y] == u;
  }

  lemma SleepOrderStep(s: System, op: Op, t: Tid, u: Tid)
    requires Inv(s) && Enabled(s, op) && InFront(s.tm.sleep, t, u)
    requires t in Next(s, op).tm.sleep && u in Next(s, op).tm.sleep
    ensures InFront(Next(s, op).tm.sleep, t, u)
  {
    NextEffect(s, op);
    SleepDistinct(s);
    hide Inv, Next, Enabled, InFront, SleepersCounted, Distinct;
    var s' := Next(s, op);
    if s'.tm.sleep != s.tm.sleep {
      if op.Sleep? {
        StaysAhead(s.tm.sleep, [s.tm.curr], t, u);
      } else {
        CountedInOrder(s.tm, s'.tm, t, u);
      }
    }
  }

  lemma SleepDistinct(s: System)
    requires Inv(s)
    ensures Distinct(s.tm.sleep)
  {
  }

  lemma SleepsIn(s: System, t: Tid, n: int)
    requires Sleeps(s, t, n)
    ensures t in s.tm.sleep && Field(s.tm.sleepTicks, t) == n
  {
  }

  lemma {:induction false} SleepOrderKept(ss: seq<System>, ops: seq<Op>, t: Tid, u: Tid, n: int)
    requires Run(ss, ops) && Inv(ss[0]) && Sleeps(ss[0], t, n) && Sleeps(ss[0], u, n)
    requires InFront(ss[0].tm.sleep, t, u) && Walks(ss, ops) < n
    ensures InFront(ss[|ops|].tm.sleep, t, u)
  {
    hide *;
    if ops == [] {
      WalksNone(ss, ops);
    } else {
      RunFront(ss, ops);
      WalksStep(ss, ops);
      SleepOrderKept(ss[..|ops|], ops[..|ops| - 1], t, u, n);
      ShapeOverRuns(ss[..|ops|], ops[..|ops| - 1]);
      SleepsOn(ss, ops, t, n);
      SleepsOn(ss, ops, u, n);
      SleepsIn(ss[|ops|], t, n - Walks(ss, ops));
      SleepsIn(ss[|ops|], u, n - Walks(ss, ops));
      StepIsNext(ss[|ops| - 1], ops[|ops| - 1], ss[|ops|]);
      SleepOrderStep(ss[|ops| - 1], ops[|ops| - 1], t, u);
    }
  }

  lemma StepIsNext(s: System, op: Op, s': System)
    requires Step(s, op, s')
    ensures Enabled(s, op) && s' == Next(s, op)
  {
  }

  // Two tasks with the same number of walks to go become ready in the order in which they fell asleep.
  lemma WakeInOrder(ss: seq<System>, ops: seq<Op>, t: Tid, u: Tid, n: int)
    requires Run(ss, ops) && Inv(ss[0]) && Sleeps(ss[0], t, n) && Sleeps(ss[0], u, n)
    requires InFront(ss[0].tm.sleep, t, u) && ops != []
    requires DoesWalk(ss[|ops| - 1], ops[|ops| - 1]) && Walks(ss, ops) == n
    ensures InFront(ss[|ops|].tm.ready, t, u)
  {
    var i := |ops| - 1;
    RunFront(ss, ops);
    WalksStep(ss, ops);
    StepIsNext(ss[i], ops[i], ss[i + 1]);
    WalkIsCount(ss[i], ops[i]);
    hide *;
    OneToGo(ss[..|ops|], ops[..i], t, n);
    OneToGo(ss[..|ops|], ops[..i], u, n);
    SleepsIn(ss[i], t, 1);
    SleepsIn(ss[i], u, 1);
    SleepOrderKept(ss[..|ops|], ops[..i], t, u, n);
    NextCounts(ss[i], ops[i]);
    SleepDistinct(ss[i]);
    CountedInOrder(ss[i].tm, ss[i + 1].tm, t, u);
  }

  lemma WalkIsCount(s: System, op: Op)
    requires DoesWalk(s, op)
    ensures op.Tick? || op.Resume?
  {
  }

  // A step that goes through the sleep list counts the sleepers.
  lemma NextCounts(s: System, op: Op)
    requires Inv(s) && Enabled(s, op) && DoesWalk(s, op)
    ensures SleepersCounted(s.tm, Next(s, op).tm)
  {
    HeadPlaced(s.tm);
    NextEffect(s, op);
    if op.Tick? {
      ChargedIs(s.tm);
      assert |s.tm.ready| >= 2 ==> s.tm.ready[1] != s.tm.ready[0] by { assert Distinct(s.tm.ready); }
    }
    hide Inv, Next, SleepersCounted, Charged;
  }
}
