// How long tasks wait: turns on the ready list, and sleeps when part of a tick may be done late.
module Timing {
  import opened Tasks
  import opened Mutexes
  import opened Semaphores
  import opened Scheduling

  function Ticks(ops: seq<Op>): nat {
    if ops == [] then 0 else Ticks(ops[..|ops| - 1]) + if ops[|ops| - 1].Tick? then 1 else 0
  }

  // ---- Turns ----

  // The time slices of the tasks ahead of t in the queue q
  function Ahead(slice: map<Tid, int>, q: seq<Tid>, t: Tid): int {
    if q == [] || q[0] == t then 0 else Field(slice, q[0]) + Ahead(slice, q[1..], t)
  }

  lemma {:induction false} AheadAppend(slice: map<Tid, int>, q: seq<Tid>, x: seq<Tid>, t: Tid)
    requires t in q
    ensures Ahead(slice, q + x, t) == Ahead(slice, q, t)
  {
    if q[0] != t {
      assert (q + x)[1..] == q[1..] + x;
      AheadAppend(slice, q[1..], x, t);
    }
  }

  lemma {:induction false} AheadSame(slice: map<Tid, int>, slice': map<Tid, int>, q: seq<Tid>, t: Tid)
    requires forall u :: u in q ==> Field(slice, u) == Field(slice', u)
    ensures Ahead(slice, q, t) == Ahead(slice', q, t)
  {
    if q != [] && q[0] != t {
      AheadSame(slice, slice', q[1..], t);
    }
  }

  lemma {:induction false} AheadBound(slice: map<Tid, int>, q: seq<Tid>, t: Tid, k: nat)
    requires k < |q| && q[k] == t && forall u :: u in q ==> 1 <= Field(slice, u) <= TIME_SLICE
    ensures 0 <= Ahead(slice, q, t) <= TIME_SLICE * k
    ensures q[0] != t ==> Ahead(slice, q, t) >= 1
  {
    if q[0] != t {
      assert q[0] in q;
      AheadBound(slice, q[1..], t, k - 1);
    }
  }

  // What a step may do to the ready list and the slices, as far as a task behind the head can tell
  ghost predicate Advance(s: Sched, s': Sched, tick: bool) {
    && s.ready != []
    && var h, rest := s.ready[0], s.ready[1..];
    && (forall u :: u in rest ==> Field(s'.slice, u) == Field(s.slice, u))
    && ((rest <= s'.ready && (tick ==> Field(s.slice, h) == 1))
        || (s.ready <= s'.ready && Field(s'.slice, h) == if tick then Field(s.slice, h) - 1 else Field(s.slice, h)))
  }

  lemma AdvanceFalls(s: Sched, s': Sched, tick: bool, t: Tid)
    requires Lists(s) && Advance(s, s', tick) && t in s.ready && t != s.ready[0]
    ensures t in s'.ready
    ensures if tick then Ahead(s'.slice, s'.ready, t) == Ahead(s.slice, s.ready, t) - 1
            else Ahead(s'.slice, s'.ready, t) <= Ahead(s.slice, s.ready, t)
  {
    var h, rest := s.ready[0], s.ready[1..];
    assert s.ready == [h] + rest;
    assert h in s.ready && h !in rest && t in rest && Field(s.slice, h) >= 1;
    hide Lists;
    AheadSame(s.slice, s'.slice, rest, t);
    if rest <= s'.ready && (tick ==> Field(s.slice, h) == 1) {
      assert s'.ready == rest + s'.ready[|rest|..];
      AheadAppend(s'.slice, rest, s'.ready[|rest|..], t);
    } else {
      assert s'.ready == s.ready + s'.ready[|s.ready|..];
      AheadAppend(s'.slice, s.ready, s'.ready[|s.ready|..], t);
    }
  }

  lemma ChargedAdvance(s: Sched)
    requires Shape(s) && s.ready != []
    ensures Advance(s, Charged(s), true)
  {
    var h, rest := s.ready[0], s.ready[1..];
    HeadPlaced(s);
    assert h !in rest by { assert Distinct(s.ready); }
    hide Queue;
    if Field(s.slice, h) == 1 {
      TurnedLists(s.(slice := s.slice[h := TIME_SLICE]));
    }
  }

  lemma WalkedAdvance(s: Sched, s': Sched, tick: bool)
    requires Advance(s, s', tick)
    ensures Advance(s, Walked(s'), tick)
  {
    hide Woken, StillAsleep, Decremented, Replaced;
    var rest := s.ready[1..];
    var up := Woken(s'.sleep, s'.sleepTicks);
    assert rest <= s'.ready ==> rest <= s'.ready + up;
    assert s.ready <= s'.ready ==> s.ready <= s'.ready + up;
  }

  lemma TickedAdvance(s: Sched)
    requires Shape(s) && s.ready != []
    ensures Advance(s, Ticked(s), true)
  {
    ChargedAdvance(s);
    WalkedAdvance(s, Charged(s), true);
    hide Charged, Walked, Shape;
  }

  lemma NextAdvance(s: System, op: Op)
    requires Inv(s) && Enabled(s, op) && s.tm.ready != []
    ensures Advance(s.tm, Next(s, op).tm, op.Tick?)
  {
    HeadPlaced(s.tm);
    if op.Tick? {
      TickedAdvance(s.tm);
    } else if op.Resume? {
      WalkedAdvance(s.tm, s.tm.(walking := s.tm.walking - {s.tm.curr}), false);
    } else if op.Start? {
      assert op.t !in s.tm.ready;
    } else if op.Yield? {
      TurnedLists(s.tm);
    }
  }

  // A tick that ends a time slice sends the task to the back with a full slice and leaves the walk of the
  // sleep list to it; any other tick leaves it running.
  lemma SliceEnds(s: Sched)
    requires Shape(s) && s.curr !in s.walking && |s.ready| > 1
    ensures var s' := Ticked(s);
            if Field(s.slice, s.curr) == 1 then
              && s'.curr == s.ready[1] && s'.ready == s.ready[1..] + [s.curr] && Field(s'.slice, s.curr) == TIME_SLICE
              && s'.walking == s.walking + {s.curr} && s'.sleep == s.sleep && s'.sleepTicks == s.sleepTicks
            else
              s'.curr == s.curr && s.ready <= s'.ready && s'.walking == s.walking
  {
    HeadPlaced(s);
    assert s.ready[0] != s.ready[1] by { assert Distinct(s.ready); }
    hide Queue, Woken, StillAsleep, Decremented, Replaced;
    if Field(s.slice, s.curr) == 1 {
      TurnedLists(s.(slice := s.slice[s.curr := TIME_SLICE]));
    }
  }

  // The slices ahead of a task that waits its turn fall by exactly one with every tick, and no other step
  // lets anything in ahead of it.
  lemma WaitFalls(s: System, op: Op, t: Tid)
    requires Inv(s) && Enabled(s, op) && t in s.tm.ready && t != s.tm.curr
    ensures var (tm, tm') := (s.tm, Next(s, op).tm);
            && t in tm'.ready
            && if op.Tick? then Ahead(tm'.slice, tm'.ready, t) == Ahead(tm.slice, tm.ready, t) - 1
               else Ahead(tm'.slice, tm'.ready, t) <= Ahead(tm.slice, tm.ready, t)
  {
    NextAdvance(s, op);
    AdvanceFalls(s.tm, Next(s, op).tm, op.Tick?, t);
  }

  // A task at position k of the ready list runs before 10 * k ticks have gone by: in a run in which it does
  // not run there are fewer. What it still has to wait for is accounted for exactly or better.
  lemma {:induction false} BoundedWaiting(ss: seq<System>, ops: seq<Op>, t: Tid, k: nat)
    requires Run(ss, ops) && Inv(ss[0]) && k < |ss[0].tm.ready| && ss[0].tm.ready[k] == t
    requires forall i :: 0 <= i <= |ops| ==> ss[i].tm.curr != t
    ensures t in ss[|ops|].tm.ready
    ensures Ticks(ops) + Ahead(ss[|ops|].tm.slice, ss[|ops|].tm.ready, t) <= Ahead(ss[0].tm.slice, ss[0].tm.ready, t)
    ensures Ticks(ops) < TIME_SLICE * k
  {
    var s0 := ss[0].tm;
    if ops == [] {
    } else {
      RunFront(ss, ops);
      BoundedWaiting(ss[..|ops|], ops[..|ops| - 1], t, k);
      ShapeOverRuns(ss[..|ops|], ops[..|ops| - 1]);
      hide Inv, Ahead, Next;
      WaitFalls(ss[|ops| - 1], ops[|ops| - 1], t);
    }
    ShapeOverRuns(ss, ops);
    SlicesAhead(ss[0], t, k);
    var e := ss[|ops|];
    var i :| 0 <= i < |e.tm.ready| && e.tm.ready[i] == t;
    SlicesAhead(e, t, i);
  }

  lemma SlicesAhead(s: System, t: Tid, k: nat)
    requires Inv(s) && k < |s.tm.ready| && s.tm.ready[k] == t && s.tm.curr != t
    ensures 1 <= Ahead(s.tm.slice, s.tm.ready, t) <= TIME_SLICE * k
  {
    HeadPlaced(s.tm);
    forall u | u in s.tm.ready
      ensures SliceOk(s.tm, u)
    {
      assert u in s.tm.place;
    }
    hide Inv;
    AheadBound(s.tm.slice, s.tm.ready, t, k);
    assert s.tm.ready[0] == s.tm.curr;
  }
}
