// The task manager of source/kernel/core/task.c with its lists updated in place. Each method is one stretch of
// the code between two points where the processor may change tasks.
module TaskManagers {
  import opened Tasks

  class TaskManager {
    var curr: Tid
    var ready: seq<Tid>
    var sleep: seq<Tid>
    var sleepTicks: map<Tid, int>
    var slice: map<Tid, int>
    var walking: set<Tid>              // tasks whose saved position is the first task_dispatch of task_time_tick
    ghost var place: map<Tid, Place>

    ghost function State(): Sched
      reads this
    {
      Sched(curr, ready, sleep, sleepTicks, slice, walking, place)
    }

    // task_manager_init and the scheduling part of task_first_init
    constructor (first: Tid)
      requires first != IDLE
      ensures Shape(State()) && curr == first && ready == [first] && sleep == []
      ensures walking == {} && place == map[first := Ready]
      ensures slice == map[IDLE := 10, first := 10] && sleepTicks == map[first := 0]
    {
      curr, ready, sleep, sleepTicks := first, [first], [], map[first := 0];
      slice, walking, place := map[IDLE := TIME_SLICE, first := TIME_SLICE], {}, map[first := Ready];
    }

    method SetReady(task: Tid)
      modifies this
      ensures State() == Readied(old(State()), task)
    {
      if task == IDLE {
        return;
      }
      ready := ready + [task];
      place := place[task := Ready];
    }

    method SetBlocked(task: Tid)
      requires task == IDLE || task in ready
      modifies this
      ensures State() == Blocked(old(State()), task)
    {
      if task == IDLE {
        return;
      }
      ready := Without(ready, task);
    }

    method Dispatch()
      modifies this
      ensures State() == Dispatched(old(State()))
    {
      var to := if |ready| == 0 then IDLE else ready[0];
      if to != curr {
        curr := to;
      }
    }

    // sys_sched_yield
    method Yield()
      requires Shape(State())
      modifies this
      ensures State() == Yielded(old(State())) && Shape(State())
      ensures if |old(ready)| >= 2 then
                curr == old(ready)[1] && ready == old(ready)[1..] + [old(curr)]
              else
                curr == old(curr) && ready == old(ready)
    {
      YieldedShape(State());
      if |ready| > 1 {
        var task := curr;
        SetBlocked(task);
        SetReady(task);
        Dispatch();
      }
    }

    // task_time_tick, up to its end or to the point where another task is dispatched
    method TimeTick()
      requires Shape(State()) && curr !in walking
      modifies this
      ensures State() == Ticked(old(State())) && Shape(State())
    {
      TickFacts(State());
      hide Walked, Shape, Lists, Blocked, Readied, Dispatched, Charged, Ticked, Field;
      var task := curr;
      slice := slice[task := Field(slice, task) - 1];
      if slice[task] == 0 {
        slice := slice[task := TIME_SLICE];
        SetBlocked(task);
        SetReady(task);
        Dispatch();
      }
      assert State() == Charged(old(State()));
      if curr != task {
        walking := walking + {task};
        return;
      }
      WalkSleepList();
      Dispatch();
    }

    // sys_sleep, up to the dispatch of another task
    method Sleep(ms: nat)
      requires Shape(State()) && curr != IDLE && curr !in walking && ms < WORD_SIZE
      modifies this
      ensures State() == Slept(old(State()), ms) && Shape(State())
    {
      SleptShape(State(), ms);
      HeadPlaced(State());
      hide Queue, Shape, Without;
      var ticks := ((ms + (TICK_MS - 1)) % WORD_SIZE) / TICK_MS;
      SetBlocked(curr);
      place := place[curr := if ticks == 0 then Lost else Asleep];
      SetSleep(curr, ticks);
      Dispatch();
    }

    method SetSleep(task: Tid, ticks: nat)
      modifies this
      ensures State() == if ticks == 0 then old(State())
                         else old(State()).(sleep := old(sleep) + [task], sleepTicks := old(sleepTicks)[task := ticks])
    {
      if ticks == 0 {
        return;
      }
      sleepTicks := sleepTicks[task := ticks];
      sleep := sleep + [task];
    }

    // The scheduling part of task_init, and task_start
    method Start(task: Tid)
      requires Shape(State()) && curr != IDLE && task != IDLE && task !in place
      modifies this
      ensures State() == Started(old(State()), task) && Shape(State())
      ensures ready == old(ready) + [task] && curr == old(curr) && sleep == old(sleep)
      ensures slice == old(slice)[task := 10] && sleepTicks == old(sleepTicks)[task := 0]
    {
      StartedShape(State(), task);
      hide Shape;
      slice, sleepTicks := slice[task := TIME_SLICE], sleepTicks[task := 0];
      SetReady(task);
    }

    // sys_exit
    method Exit()
      requires Shape(State()) && curr != IDLE && curr !in walking
      modifies this
      ensures State() == Parked(old(State()), Exited) && Shape(State())
      ensures |old(ready)| > 0 && ready == old(ready)[1..] && place == old(place)[old(curr) := Exited]
      ensures curr == if |old(ready)| >= 2 then old(ready)[1] else IDLE
    {
      ParkedShape(State(), Exited);
      Park(Exited);
    }

    // task_set_blocked for the running task, which goes to p, and task_dispatch
    method Park(ghost p: Place)
      requires Shape(State()) && curr != IDLE
      modifies this
      ensures State() == Parked(old(State()), p)
    {
      HeadPlaced(State());
      hide Shape, Without;
      SetBlocked(curr);
      place := place[curr := p];
      Dispatch();
    }

    // The rest of task_time_tick, when the task switched out in its middle runs again
    method ResumeTick()
      requires Shape(State()) && curr in walking
      modifies this
      ensures State() == Resumed(old(State())) && Shape(State())
    {
      ResumedShape(State());
      walking := walking - {curr};
      hide Walked, Queue;
      WalkSleepList();
      Dispatch();
    }

    // The loop over the sleep list; i is the place of the node that the loop looks at.
    method WalkSleepList()
      requires Lists(State())
      modifies this
      ensures State() == Walked(old(State()))
    {
      hide *;
      ghost var was := State();
      MidwayStarts(was);
      SleepLength();
      var i: nat := 0;
      while i < |sleep|
        invariant Midway(was, State(), i) && |State().sleep| == |sleep|
        decreases |sleep| - i
      {
        MidwayNext(was, State(), i);
        i := WalkNode(i);
        SleepLength();
      }
      MidwayEnds(was, State(), i);
    }

    lemma SleepLength()
      ensures |State().sleep| == |sleep|
    {
    }

    // The body of the loop: node i, and where the next one is
    method WalkNode(i: nat) returns (next: nat)
      requires i < |sleep|
      modifies this
      ensures State() == NodeWalked(old(State()), i)
      ensures next == if Field(old(State()).sleepTicks, old(State()).sleep[i]) == 1 then i else i + 1
    {
      var task := sleep[i];
      sleepTicks := sleepTicks[task := Field(sleepTicks, task) - 1];
      next := i + 1;
      if sleepTicks[task] == 0 {
        sleep := sleep[..i] + sleep[i + 1..];
        next := i;
        SetReady(task);
      }
    }
  }

  // What the tick does to the time slice, step by step
  lemma TickParts(s: Sched)
    ensures var n := Field(s.slice, s.curr) - 1;
            var s1 := s.(slice := s.slice[s.curr := n]);
            var s2 := s1.(slice := s1.slice[s.curr := TIME_SLICE]);
            Charged(s) == if n == 0 then Dispatched(Readied(Blocked(s2, s.curr), s.curr)) else s1
    ensures Ticked(s) == if Charged(s).curr != s.curr then Charged(s).(walking := s.walking + {s.curr})
                         else Dispatched(Walked(Charged(s)))
  {
    hide Blocked, Readied, Dispatched, Walked;
    assert s.slice[s.curr := 0][s.curr := TIME_SLICE] == s.slice[s.curr := TIME_SLICE];
  }

  lemma TickFacts(s: Sched)
    requires Shape(s) && s.curr !in s.walking
    ensures Shape(Ticked(s)) && Lists(Charged(s)) && Charged(s).walking == s.walking
    ensures s.curr == IDLE || s.curr in s.ready
    ensures var n := Field(s.slice, s.curr) - 1;
            var s1 := s.(slice := s.slice[s.curr := n]);
            var s2 := s1.(slice := s1.slice[s.curr := TIME_SLICE]);
            Charged(s) == if n == 0 then Dispatched(Readied(Blocked(s2, s.curr), s.curr)) else s1
    ensures Ticked(s) == if Charged(s).curr != s.curr then Charged(s).(walking := s.walking + {s.curr})
                         else Dispatched(Walked(Charged(s)))
  {
    TickedShape(s);
    ChargedShape(s);
    HeadPlaced(s);
    TickParts(s);
    hide Lists, Charged, Ticked;
  }

  // ---- The walk, node by node ----

  function NodeWalked(s: Sched, i: nat): Sched
    requires i < |s.sleep|
  {
    var t := s.sleep[i];
    var n := Field(s.sleepTicks, t) - 1;
    var s1 := s.(sleepTicks := s.sleepTicks[t := n]);
    if n == 0 then Readied(s1.(sleep := s.sleep[..i] + s.sleep[i + 1..]), t) else s1
  }

  // The walk has looked at the first k nodes and is at index i of what is left of the list.
  ghost predicate PartWalked(was: Sched, s: Sched, k: nat, i: nat) {
    && k <= |was.sleep|
    && i == |StillAsleep(was.sleep[..k], was.sleepTicks)|
    && var up := Woken(was.sleep[..k], was.sleepTicks);
    && s == was.(sleep := StillAsleep(was.sleep[..k], was.sleepTicks) + was.sleep[k..],
              ready := was.ready + up,
              sleepTicks := Decremented(was.sleepTicks, was.sleep[..k]),
              place := Replaced(was.place, up, Ready))
  }

  // The walk of was is at index i of s.
  ghost predicate Midway(was: Sched, s: Sched, i: nat) {
    && Distinct(was.sleep) && IDLE !in was.sleep && IDLE !in s.sleep
    && 0 <= |s.sleep| - i <= |was.sleep|
    && PartWalked(was, s, |was.sleep| - (|s.sleep| - i), i)
  }

  lemma MidwayStarts(was: Sched)
    requires Lists(was)
    ensures Midway(was, was, 0)
  {
    WokenElsewhere(was);
    hide Lists;
    assert Decremented(was.sleepTicks, []) == was.sleepTicks;
    assert Replaced(was.place, [], Ready) == was.place;
  }

  lemma PartWalkedAll(was: Sched, s: Sched, i: nat)
    requires PartWalked(was, s, |was.sleep|, i)
    ensures s == Walked(was)
  {
    hide Decremented, Replaced, Woken, StillAsleep;
    var q := was.sleep;
    assert q[..|q|] == q && q[|q|..] == [];
    assert StillAsleep(q, was.sleepTicks) + [] == StillAsleep(q, was.sleepTicks);
  }

  lemma MidwayEnds(was: Sched, s: Sched, i: nat)
    requires Midway(was, s, i) && i >= |s.sleep|
    ensures s == Walked(was)
  {
    hide PartWalked, Walked, Distinct;
    PartWalkedAll(was, s, i);
  }

  lemma MidwayNext(was: Sched, s: Sched, i: nat)
    requires Midway(was, s, i) && i < |s.sleep|
    ensures var next := if Field(s.sleepTicks, s.sleep[i]) == 1 then i else i + 1;
            Midway(was, NodeWalked(s, i), next) && |NodeWalked(s, i).sleep| - next == |s.sleep| - i - 1
  {
    hide PartWalked, Field, NodeWalked, Distinct;
    var k := |was.sleep| - (|s.sleep| - i);
    PartWalkedNext(was, s, k, i);
    NodeWalkedSize(s, i);
    var s' := NodeWalked(s, i);
    var next := if Field(s.sleepTicks, s.sleep[i]) == 1 then i else i + 1;
    assert |was.sleep| - (|s'.sleep| - next) == k + 1;
  }

  lemma NodeWalkedSize(s: Sched, i: nat)
    requires i < |s.sleep|
    ensures |NodeWalked(s, i).sleep| == if Field(s.sleepTicks, s.sleep[i]) == 1 then |s.sleep| - 1 else |s.sleep|
    ensures IDLE !in s.sleep ==> IDLE !in NodeWalked(s, i).sleep
  {
    hide Field;
  }

  lemma DecrementedNext(m: map<Tid, int>, q: seq<Tid>, t: Tid)
    requires t !in q
    ensures Field(Decremented(m, q), t) == Field(m, t)
    ensures Decremented(m, q + [t]) == Decremented(m, q)[t := Field(m, t) - 1]
  {
  }

  lemma ReplacedNext(place: map<Tid, Place>, q: seq<Tid>, t: Tid, p: Place)
    ensures Replaced(place, q + [t], p) == Replaced(place, q, p)[t := p]
  {
  }

  // The list during the walk: kept, then what the walk has not looked at
  lemma ListNext(q: seq<Tid>, k: nat, kept: seq<Tid>)
    requires Distinct(q) && k < |q|
    ensures var l := kept + q[k..];
            l[|kept|] == q[k] && l[..|kept|] + l[|kept| + 1..] == kept + q[k + 1..] && l == kept + [q[k]] + q[k + 1..]
    ensures q[..k + 1] == q[..k] + [q[k]] && q[k] !in q[..k]
  {
    var l := kept + q[k..];
    assert forall j :: 0 <= j < k ==> q[j] != q[k];
    assert l[..|kept|] == kept && l[|kept| + 1..] == q[k + 1..];
  }

  lemma SplitNext(q: seq<Tid>, t: Tid, ticks: map<Tid, int>)
    ensures StillAsleep(q + [t], ticks) == StillAsleep(q, ticks) + if Field(ticks, t) != 1 then [t] else []
    ensures Woken(q + [t], ticks) == Woken(q, ticks) + if Field(ticks, t) == 1 then [t] else []
  {
    assert (q + [t])[..|q|] == q;
  }

  lemma PartWalkedNext(was: Sched, s: Sched, k: nat, i: nat)
    requires Distinct(was.sleep) && IDLE !in was.sleep
    requires PartWalked(was, s, k, i) && k < |was.sleep|
    ensures i < |s.sleep| && s.sleep[i] == was.sleep[k]
    ensures PartWalked(was, NodeWalked(s, i), k + 1, if Field(s.sleepTicks, s.sleep[i]) == 1 then i else i + 1)
  {
    hide Decremented, Replaced, Woken, StillAsleep, Field, Distinct;
    var t := was.sleep[k];
    var q := was.sleep[..k];
    ListNext(was.sleep, k, StillAsleep(q, was.sleepTicks));
    DecrementedNext(was.sleepTicks, q, t);
    ReplacedNext(was.place, Woken(q, was.sleepTicks), t, Ready);
    SplitNext(q, t, was.sleepTicks);
    var up := Woken(q, was.sleepTicks);
    assert (was.ready + up) + [t] == was.ready + (up + [t]) && up + [] == up;
    assert StillAsleep(q, was.sleepTicks) + [] == StillAsleep(q, was.sleepTicks);
  }
}
