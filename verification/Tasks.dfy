// The scheduler of source/kernel/core/task.c: the ready and sleep lists, time slices, and the timer tick,
// whose second half may run much later than its first.
module Tasks {
  // Tasks are named by number; IDLE is task_manager.idle_task.
  type Tid = nat
  const IDLE: Tid := 0
  const TIME_SLICE := 10
  const TICK_MS := 10
  const WORD_SIZE := 0x1_0000_0000

  // Where a started task is: on one of the lists, finished, or dropped from all lists.
  datatype Place = Ready | Asleep | OnMutex(m: nat) | OnSem(s: nat) | Exited | Lost

  datatype Sched = Sched(
    curr: Tid,
    ready: seq<Tid>,
    sleep: seq<Tid>,
    sleepTicks: map<Tid, int>,
    slice: map<Tid, int>,
    walking: set<Tid>,         // switched out inside task_time_tick: the walk of the sleep list is still to come
    place: map<Tid, Place>     // the tasks started so far
  )

  // A field of a task structure; structures are zeroed before use.
  function Field(m: map<Tid, int>, t: Tid): int {
    if t in m then m[t] else 0
  }

  // ---- The steps, on values ----

  function Without(q: seq<Tid>, t: Tid): seq<Tid> {
    if q == [] then [] else if q[0] == t then q[1..] else [q[0]] + Without(q[1..], t)
  }

  function NextRun(s: Sched): Tid {
    if s.ready == [] then IDLE else s.ready[0]
  }

  function Dispatched(s: Sched): Sched {
    s.(curr := NextRun(s))
  }

  function Readied(s: Sched, t: Tid): Sched {
    if t == IDLE then s else s.(ready := s.ready + [t], place := s.place[t := Ready])
  }

  function Blocked(s: Sched, t: Tid): Sched {
    if t == IDLE then s else s.(ready := Without(s.ready, t))
  }

  // The running task leaves the ready list for place p and another task is chosen.
  function Parked(s: Sched, p: Place): Sched {
    Dispatched(Blocked(s, s.curr).(place := s.place[s.curr := p]))
  }

  function Yielded(s: Sched): Sched {
    if |s.ready| > 1 then Dispatched(Readied(Blocked(s, s.curr), s.curr)) else s
  }

  // Those of q whose time is up after one more walk, and the others
  function Woken(q: seq<Tid>, ticks: map<Tid, int>): (r: seq<Tid>)
    ensures forall t :: t in r <==> t in q && Field(ticks, t) == 1
  {
    if q == [] then []
    else Woken(q[..|q| - 1], ticks) + if Field(ticks, q[|q| - 1]) == 1 then [q[|q| - 1]] else []
  }

  function StillAsleep(q: seq<Tid>, ticks: map<Tid, int>): (r: seq<Tid>)
    ensures forall t :: t in r <==> t in q && Field(ticks, t) != 1
  {
    if q == [] then []
    else StillAsleep(q[..|q| - 1], ticks) + if Field(ticks, q[|q| - 1]) != 1 then [q[|q| - 1]] else []
  }

  function Decremented(ticks: map<Tid, int>, q: seq<Tid>): map<Tid, int> {
    map t | t in ticks.Keys + (set u | u in q) :: if t in q then Field(ticks, t) - 1 else ticks[t]
  }

  function Replaced(place: map<Tid, Place>, q: seq<Tid>, p: Place): map<Tid, Place> {
    map t | t in place.Keys + (set u | u in q) :: if t in q then p else place[t]
  }

  // The walk of the sleep list
  function Walked(s: Sched): Sched {
    var up := Woken(s.sleep, s.sleepTicks);
    s.(sleep := StillAsleep(s.sleep, s.sleepTicks),
       ready := s.ready + up,
       sleepTicks := Decremented(s.sleepTicks, s.sleep),
       place := Replaced(s.place, up, Ready))
  }

  // The first half of task_time_tick: the slice, and the first call of task_dispatch
  function Charged(s: Sched): Sched {
    var n := Field(s.slice, s.curr) - 1;
    if n == 0 then
      Dispatched(Readied(Blocked(s.(slice := s.slice[s.curr := TIME_SLICE]), s.curr), s.curr))
    else
      s.(slice := s.slice[s.curr := n])
  }

  function Ticked(s: Sched): Sched {
    var c := Charged(s);
    if c.curr != s.curr then c.(walking := s.walking + {s.curr}) else Dispatched(Walked(c))
  }

  // A task switched out inside task_time_tick runs again.
  function Resumed(s: Sched): Sched {
    Dispatched(Walked(s.(walking := s.walking - {s.curr})))
  }

  // sys_sleep's number of ticks, with the addition done on 32 bits
  function SleepLength(ms: nat): nat {
    ((ms + (TICK_MS - 1)) % WORD_SIZE) / TICK_MS
  }

  function Slept(s: Sched, ms: nat): Sched {
    var n := SleepLength(ms);
    if n == 0 then Parked(s, Lost)
    else Parked(s.(sleep := s.sleep + [s.curr], sleepTicks := s.sleepTicks[s.curr := n]), Asleep)
  }

  function Started(s: Sched, t: Tid): Sched {
    Readied(s.(slice := s.slice[t := TIME_SLICE], sleepTicks := s.sleepTicks[t := 0]), t)
  }

  // ---- The invariant ----

  ghost predicate Distinct(q: seq<Tid>) {
    forall i, j :: 0 <= i < j < |q| ==> q[i] != q[j]
  }

  // q lists exactly the tasks at place p, each once.
  ghost predicate Queue(place: map<Tid, Place>, q: seq<Tid>, p: Place) {
    && Distinct(q)
    && forall t :: t in q <==> t in place && place[t] == p
  }

  predicate SliceOk(s: Sched, t: Tid) {
    1 <= Field(s.slice, t) <= TIME_SLICE
  }

  // Everything but the choice of the running task
  ghost predicate Lists(s: Sched) {
    && IDLE !in s.place
    && Queue(s.place, s.ready, Ready)
    && Queue(s.place, s.sleep, Asleep)
    && SliceOk(s, IDLE) && (forall t :: t in s.place ==> SliceOk(s, t))
    && (forall t :: t in s.sleep ==> Field(s.sleepTicks, t) >= 1)
    && (forall t :: t in s.walking ==> t in s.ready)
  }

  // The running task is the head of the ready list, or the idle task when that list is empty.
  ghost predicate Shape(s: Sched) {
    Lists(s) && s.curr == NextRun(s)
  }

  lemma QueueLeft(place: map<Tid, Place>, q: seq<Tid>, p: Place, q': Place)
    requires Queue(place, q, p) && q != [] && p != q'
    ensures Queue(place[q[0] := q'], q[1..], p)
  {
    var next := place[q[0] := q'];
    forall t
      ensures t in q[1..] <==> t in next && next[t] == p
    {
      if t in q && t != q[0] {
        var i :| 0 <= i < |q| && q[i] == t;
        assert q[1..][i - 1] == t;
      }
    }
  }

  lemma QueueJoined(place: map<Tid, Place>, q: seq<Tid>, p: Place, t: Tid)
    requires Queue(place, q, p) && t !in q
    ensures Queue(place[t := p], q + [t], p)
  {
  }

  // A task that moves between two other places
  lemma QueueKept(place: map<Tid, Place>, q: seq<Tid>, p: Place, t: Tid, p': Place)
    requires Queue(place, q, p) && t !in q && p' != p
    ensures Queue(place[t := p'], q, p)
  {
  }

  lemma QueueTurned(place: map<Tid, Place>, q: seq<Tid>, p: Place)
    requires Queue(place, q, p) && q != []
    ensures Queue(place[q[0] := p], q[1..] + [q[0]], p)
  {
    var turned := q[1..] + [q[0]];
    forall t
      ensures t in turned <==> t in q
    {
      if t in q && t != q[0] {
        var i :| 0 <= i < |q| && q[i] == t;
        assert turned[i - 1] == t;
      }
    }
  }

  // The same tasks are at place p.
  ghost predicate SameAt(place: map<Tid, Place>, place': map<Tid, Place>, p: Place) {
    forall t :: (t in place && place[t] == p) <==> (t in place' && place'[t] == p)
  }

  lemma QueueSame(place: map<Tid, Place>, place': map<Tid, Place>, q: seq<Tid>, p: Place)
    requires Queue(place, q, p) && SameAt(place, place', p)
    ensures Queue(place', q, p)
  {
    forall t
      ensures t in q <==> t in place' && place'[t] == p
    {
      assert t in q <==> t in place && place[t] == p;
    }
  }

  // ---- The steps keep the invariant ----

  // Parking the running task at p; if p is the sleep list, the task has been put on it.
  lemma ParkedShape(s: Sched, p: Place)
    requires Shape(s) && s.curr != IDLE && s.curr !in s.walking && p != Ready && p != Asleep
    ensures Shape(Parked(s, p))
  {
    HeadPlaced(s);
    hide Queue;
    QueueLeft(s.place, s.ready, Ready, p);
    assert s.curr !in s.sleep by { NotBoth(s.place, s.ready, s.sleep, Ready, Asleep, s.curr); }
    QueueKept(s.place, s.sleep, Asleep, s.curr, p);
    WalkersStay(s);
  }

  lemma HeadPlaced(s: Sched)
    requires Shape(s)
    ensures s.ready == [] <==> s.curr == IDLE
    ensures s.curr != IDLE ==> s.curr == s.ready[0] && s.curr in s.place && s.place[s.curr] == Ready
  {
    assert s.ready != [] ==> s.ready[0] in s.ready;
  }

  lemma NotBoth(place: map<Tid, Place>, q: seq<Tid>, r: seq<Tid>, p: Place, p': Place, t: Tid)
    requires Queue(place, q, p) && Queue(place, r, p') && p != p' && t in q
    ensures t !in r
  {
  }

  lemma WalkersStay(s: Sched)
    requires s.ready != [] && s.ready[0] !in s.walking && forall t :: t in s.walking ==> t in s.ready
    ensures forall t :: t in s.walking ==> t in s.ready[1..]
  {
    forall t | t in s.walking
      ensures t in s.ready[1..]
    {
      var i :| 0 <= i < |s.ready| && s.ready[i] == t;
      assert s.ready[1..][i - 1] == t;
    }
  }

  lemma SleptShape(s: Sched, ms: nat)
    requires Shape(s) && s.curr != IDLE && s.curr !in s.walking
    ensures Shape(Slept(s, ms))
  {
    HeadPlaced(s);
    hide Queue;
    if SleepLength(ms) == 0 {
      ParkedShape(s, Lost);
    } else {
      QueueLeft(s.place, s.ready, Ready, Asleep);
      NotBoth(s.place, s.ready, s.sleep, Ready, Asleep, s.curr);
      QueueJoined(s.place, s.sleep, Asleep, s.curr);
      WalkersStay(s);
    }
  }

  // A task that was on neither list becomes ready.
  lemma ReadiedLists(s: Sched, t: Tid)
    requires Lists(s) && t != IDLE && SliceOk(s, t) && t !in s.ready && t !in s.sleep
    ensures Lists(Readied(s, t))
  {
    hide Queue;
    QueueJoined(s.place, s.ready, Ready, t);
    QueueKept(s.place, s.sleep, Asleep, t, Ready);
  }

  lemma ReadiedShape(s: Sched, t: Tid)
    requires Shape(s) && t != IDLE && SliceOk(s, t) && t !in s.ready && t !in s.sleep
    ensures Shape(Dispatched(Readied(s, t)))
    ensures s.curr != IDLE ==> Dispatched(Readied(s, t)).curr == s.curr
  {
    ReadiedLists(s, t);
    HeadIsTask(s);
  }

  lemma HeadIsTask(s: Sched)
    requires Lists(s)
    ensures s.ready == [] <==> NextRun(s) == IDLE
  {
    assert s.ready != [] ==> s.ready[0] in s.ready;
  }

  lemma StartedShape(s: Sched, t: Tid)
    requires Shape(s) && s.curr != IDLE && t != IDLE && t !in s.place
    ensures Shape(Started(s, t))
  {
    var s1 := s.(slice := s.slice[t := TIME_SLICE], sleepTicks := s.sleepTicks[t := 0]);
    assert t !in s.ready && t !in s.sleep;
    assert Lists(s1);
    ReadiedLists(s1, t);
    HeadIsTask(s);
  }

  // The head goes to the back.
  lemma TurnedLists(s: Sched)
    requires Lists(s) && s.ready != []
    ensures Lists(Readied(Blocked(s, s.ready[0]), s.ready[0]))
    ensures Readied(Blocked(s, s.ready[0]), s.ready[0]).ready == s.ready[1..] + [s.ready[0]]
  {
    HeadIsTask(s);
    QueueTurned(s.place, s.ready, Ready);
    assert s.place[s.ready[0] := Ready] == s.place by { assert s.ready[0] in s.ready; }
    forall t | t in s.ready
      ensures t in s.ready[1..] + [s.ready[0]]
    {
      var i :| 0 <= i < |s.ready| && s.ready[i] == t;
      assert i > 0 ==> s.ready[1..][i - 1] == t;
    }
  }

  lemma YieldedShape(s: Sched)
    requires Shape(s)
    ensures Shape(Yielded(s))
  {
    if |s.ready| > 1 {
      TurnedLists(s);
    }
  }

  lemma ChargedShape(s: Sched)
    requires Shape(s) && s.curr !in s.walking
    ensures Shape(Charged(s)) && Charged(s).walking == s.walking
    ensures Charged(s).curr != s.curr ==> s.curr in Charged(s).ready
  {
    var n := Field(s.slice, s.curr) - 1;
    HeadIsTask(s);
    var s1 := s.(slice := s.slice[s.curr := if n == 0 then TIME_SLICE else n]);
    assert SliceOk(s, s.curr) by { assert s.curr == IDLE || s.curr in s.ready; }
    assert Lists(s1) by { hide Queue; }
    if n == 0 && s.curr != IDLE {
      TurnedLists(s1);
    }
  }

  // ---- The walk ----

  // The tasks of up, on some other list before, join the queue q.
  lemma QueueExtended(place: map<Tid, Place>, q: seq<Tid>, p: Place, up: seq<Tid>)
    requires Queue(place, q, p) && Distinct(up) && forall t :: t in up ==> t !in q
    ensures Queue(Replaced(place, up, p), q + up, p)
  {
    var next := Replaced(place, up, p);
    forall i, j | 0 <= i < j < |q + up|
      ensures (q + up)[i] != (q + up)[j]
    {
      assert j >= |q| ==> (q + up)[j] in up;
      assert i < |q| ==> (q + up)[i] in q;
    }
    forall t
      ensures t in q + up <==> t in next && next[t] == p
    {
      assert t in next <==> t in place || t in up;
    }
  }

  // The tasks of up leave the queue q, of which rest remains.
  lemma QueueShrunk(place: map<Tid, Place>, q: seq<Tid>, p: Place, up: seq<Tid>, rest: seq<Tid>, p': Place)
    requires Queue(place, q, p) && p' != p && Distinct(rest) && forall t :: t in rest <==> t in q && t !in up
    ensures Queue(Replaced(place, up, p'), rest, p)
  {
    var next := Replaced(place, up, p');
    forall t
      ensures t in rest <==> t in next && next[t] == p
    {
      assert t in next <==> t in place || t in up;
    }
  }

  lemma WokenDistinct(q: seq<Tid>, ticks: map<Tid, int>)
    requires Distinct(q)
    ensures Distinct(Woken(q, ticks)) && Distinct(StillAsleep(q, ticks))
  {
    if q != [] {
      WokenDistinct(q[..|q| - 1], ticks);
      assert q[|q| - 1] !in q[..|q| - 1];
    }
  }

  lemma WokenElsewhere(s: Sched)
    requires Lists(s)
    ensures Distinct(s.sleep) && IDLE !in s.sleep
    ensures forall t :: t in s.sleep ==> t !in s.ready && t in s.place
  {
  }

  lemma WalkedFields(s: Sched, up: seq<Tid>)
    requires forall t :: t in s.place ==> SliceOk(s, t)
    requires forall t :: t in s.sleep ==> Field(s.sleepTicks, t) >= 1
    requires up == Woken(s.sleep, s.sleepTicks) && forall t :: t in s.sleep ==> t in s.place
    ensures forall t :: t in Replaced(s.place, up, Ready) ==> SliceOk(s, t)
    ensures forall t :: t in StillAsleep(s.sleep, s.sleepTicks) ==> Field(Decremented(s.sleepTicks, s.sleep), t) >= 1
    ensures IDLE in Replaced(s.place, up, Ready) <==> IDLE in s.place
  {
    hide Woken, StillAsleep;
  }

  lemma WalkedLists(s: Sched)
    requires Lists(s)
    ensures Lists(Walked(s))
  {
    WokenElsewhere(s);
    hide Queue, Woken, StillAsleep, Distinct, Replaced, Decremented, Field;
    var up := Woken(s.sleep, s.sleepTicks);
    WokenDistinct(s.sleep, s.sleepTicks);
    QueueExtended(s.place, s.ready, Ready, up);
    QueueShrunk(s.place, s.sleep, Asleep, up, Walked(s).sleep, Ready);
    WalkedFields(s, up);
  }

  lemma WalkedShape(s: Sched)
    requires Shape(s)
    ensures Shape(Dispatched(Walked(s)))
    ensures s.curr != IDLE ==> Dispatched(Walked(s)).curr == s.curr
  {
    WalkedLists(s);
    HeadIsTask(s);
  }

  lemma TickedShape(s: Sched)
    requires Shape(s) && s.curr !in s.walking
    ensures Shape(Ticked(s))
  {
    ChargedShape(s);
    hide Queue, Charged, Walked;
    if Charged(s).curr == s.curr {
      WalkedShape(Charged(s));
    }
  }

  lemma ResumedShape(s: Sched)
    requires Shape(s) && s.curr in s.walking
    ensures Shape(Resumed(s)) && Resumed(s).curr == s.curr
  {
    var s1 := s.(walking := s.walking - {s.curr});
    assert s.curr in s.ready;
    HeadIsTask(s);
    WalkedShape(s1);
  }

  // sys_sleep takes the task off every list, for good, exactly when the number of ticks comes out as 0: for
  // 0 ms and where the rounding wraps around. The library calls it with ms > 0 only.
  lemma SleepLosesExactly(s: Sched, ms: nat)
    requires Shape(s) && s.curr != IDLE && s.curr !in s.walking && ms < WORD_SIZE
    ensures s.curr !in Slept(s, ms).sleep <==> ms == 0 || ms >= WORD_SIZE - 9
    ensures s.curr !in Slept(s, ms).ready
    ensures 1 <= ms < WORD_SIZE - 9 ==> (SleepLength(ms) - 1) * 10 < ms <= SleepLength(ms) * 10
  {
    NotBoth(s.place, s.ready, s.sleep, Ready, Asleep, s.curr);
    SleptShape(s, ms);
    assert Slept(s, ms).place[s.curr] != Ready;
  }
}
