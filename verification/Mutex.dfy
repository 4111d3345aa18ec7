// source/kernel/ipc/mutex.c: a mutex that its owner may acquire again, handed over directly to the task that
// has waited longest.
module Mutexes {
  import opened Tasks
  import opened TaskManagers

  datatype Holder = Nobody | HeldBy(task: Tid)
  datatype Lock = Lock(owner: Holder, count: int, waiters: seq<Tid>)

  // mutex_acquire up to the dispatch of another task; m is the mutex.
  function Acquired(s: Sched, l: Lock, m: nat): (Sched, Lock) {
    if l.count == 0 then (s, l.(owner := HeldBy(s.curr), count := 1))
    else if l.owner == HeldBy(s.curr) then (s, l.(count := l.count + 1))
    else (Parked(s, OnMutex(m)), l.(waiters := l.waiters + [s.curr]))
  }

  // mutex_release
  function Released(s: Sched, l: Lock): (Sched, Lock) {
    if l.owner != HeldBy(s.curr) then (s, l)
    else if l.count != 1 then (s, l.(count := l.count - 1))
    else if l.waiters == [] then (s, Lock(Nobody, 0, []))
    else (Dispatched(Readied(s, l.waiters[0])), Lock(HeldBy(l.waiters[0]), 1, l.waiters[1..]))
  }

  // The count is zero exactly when nobody owns the mutex; tasks wait only while somebody else owns it.
  ghost predicate LockOk(place: map<Tid, Place>, l: Lock, m: nat) {
    && l.count >= 0
    && (l.count == 0 <==> l.owner == Nobody)
    && (l.waiters != [] ==> l.owner != Nobody)
    && (l.owner.HeldBy? ==> l.owner.task !in l.waiters)
    && Queue(place, l.waiters, OnMutex(m))
  }

  ghost predicate OnlyMoves(place: map<Tid, Place>, place': map<Tid, Place>, a: Place, b: Place) {
    forall p :: p != a && p != b ==> SameAt(place, place', p)
  }

  lemma AcquiredKeeps(s: Sched, l: Lock, m: nat)
    requires Shape(s) && s.curr != IDLE && s.curr !in s.walking && LockOk(s.place, l, m)
    ensures var (s', l') := Acquired(s, l, m);
            Shape(s') && LockOk(s'.place, l', m) && OnlyMoves(s.place, s'.place, Ready, OnMutex(m))
    ensures s.curr !in l.waiters
  {
    HeadPlaced(s);
    assert s.curr !in l.waiters;
    if l.count != 0 && l.owner != HeldBy(s.curr) {
      ParkedShape(s, OnMutex(m));
      QueueJoined(s.place, l.waiters, OnMutex(m), s.curr);
    }
  }

  lemma ReleasedKeeps(s: Sched, l: Lock, m: nat)
    requires Shape(s) && s.curr != IDLE && s.curr !in s.walking && LockOk(s.place, l, m)
    ensures var (s', l') := Released(s, l);
            Shape(s') && LockOk(s'.place, l', m) && OnlyMoves(s.place, s'.place, Ready, OnMutex(m)) && s'.curr == s.curr
  {
    if l.owner == HeldBy(s.curr) && l.count == 1 && l.waiters != [] {
      var t := l.waiters[0];
      WaiterReady(s, l.waiters, OnMutex(m));
      QueueLeft(s.place, l.waiters, OnMutex(m), Ready);
    }
  }

  // The first of a queue of waiting tasks becomes ready.
  lemma WaiterReady(s: Sched, q: seq<Tid>, p: Place)
    requires Shape(s) && Queue(s.place, q, p) && q != [] && p != Ready && p != Asleep
    ensures Shape(Dispatched(Readied(s, q[0])))
    ensures s.curr != IDLE ==> Dispatched(Readied(s, q[0])).curr == s.curr
    ensures q[0] != IDLE && q[0] !in s.ready && q[0] !in q[1..]
    ensures OnlyMoves(s.place, s.place[q[0] := Ready], Ready, p)
  {
    var t := q[0];
    assert t in q;
    ReadiedShape(s, t);
    assert forall j :: 0 < j < |q| ==> q[0] != q[j];
  }

  class Mutex {
    const id: nat
    var owner: Holder
    var lockedCount: int
    var waitList: seq<Tid>

    ghost function State(): Lock
      reads this
    {
      Lock(owner, lockedCount, waitList)
    }

    // mutex_init
    constructor (id: nat)
      ensures this.id == id && State() == Lock(Nobody, 0, [])
    {
      this.id := id;
      owner, lockedCount, waitList := Nobody, 0, [];
    }

    // Up to the point where another task runs; a task that waits comes back as the owner.
    method Acquire(tm: TaskManager)
      requires Shape(tm.State()) && tm.curr != IDLE && tm.curr !in tm.walking
      requires LockOk(tm.State().place, State(), id)
      modifies this, tm
      ensures (tm.State(), State()) == Acquired(old(tm.State()), old(State()), id)
      ensures Shape(tm.State()) && LockOk(tm.State().place, State(), id)
    {
      AcquiredKeeps(tm.State(), State(), id);
      hide Shape, LockOk, Parked, OnlyMoves;
      if lockedCount == 0 {
        lockedCount := 1;
        owner := HeldBy(tm.curr);
      } else if owner == HeldBy(tm.curr) {
        lockedCount := lockedCount + 1;
      } else {
        var curr := tm.curr;
        tm.Park(OnMutex(id));
        waitList := waitList + [curr];
      }
    }

    method Release(tm: TaskManager)
      requires Shape(tm.State()) && tm.curr != IDLE && tm.curr !in tm.walking
      requires LockOk(tm.State().place, State(), id)
      modifies this, tm
      ensures (tm.State(), State()) == Released(old(tm.State()), old(State()))
      ensures Shape(tm.State()) && LockOk(tm.State().place, State(), id)
    {
      ReleasedKeeps(tm.State(), State(), id);
      hide Shape, Readied, Dispatched, OnlyMoves, Queue;
      if owner == HeldBy(tm.curr) {
        lockedCount := lockedCount - 1;
        if lockedCount == 0 {
          owner := Nobody;
          if |waitList| > 0 {
            var task := waitList[0];
            waitList := waitList[1..];
            tm.SetReady(task);
            owner := HeldBy(task);
            lockedCount := 1;
            tm.Dispatch();
          }
        }
      }
    }
  }
}
