// addr_alloc_page and addr_free_page of source/kernel/core/memory.c under preemption. The search and the
// change of a bit are split into single reads and writes, and between any two of them any task may run. The
// allocator's mutex (number 0) makes each call take effect as one step.
module AtomicAlloc {
  import opened Tasks
  import opened Mutexes
  import opened Semaphores
  import opened Scheduling
  import opened Handoff

  // Where a task is in the two functions. Looking(k) has found bits 0 to k - 1 set. Loaded holds the bits as
  // read for the change of the byte of bit k to b.
  datatype Phase =
    | Outside
    | Looking(k: nat)
    | Found(k: nat)
    | Clearing(k: nat)
    | Loaded(k: nat, seen: seq<bool>, b: bool)
    | Took(k: nat)
    | Cleared
    | Failed

  datatype Pool = Pool(
    sys: System,
    bits: seq<bool>,
    phase: map<Tid, Phase>,
    held: map<nat, Tid>       // the frames in use, by index, with the task that each was handed to
  )

  datatype PoolOp =
    | Other(op: Op)           // any step of the system, but for calls on the allocator's mutex
    | EnterAlloc              // mutex_acquire at the start of addr_alloc_page
    | EnterFree(k: nat)       // mutex_acquire at the start of addr_free_page
    | Look                    // bitmap_get_bit in the loop of bitmap_alloc_nbits
    | Load                    // read the byte
    | Store                   // write the byte
    | Leave                   // mutex_release

  function PhaseOf(a: Pool, t: Tid): Phase {
    if t in a.phase then a.phase[t] else Outside
  }

  predicate CanRun(a: Pool) {
    a.sys.tm.curr != IDLE && a.sys.tm.curr !in a.sys.tm.walking && |a.sys.locks| > 0
  }

  predicate PoolEnabled(a: Pool, op: PoolOp) {
    var phase := PhaseOf(a, a.sys.tm.curr);
    match op
    case Other(o) => Enabled(a.sys, o) && o != Acquire(0) && o != Release(0)
    case EnterAlloc => CanRun(a) && phase == Outside
    case EnterFree(k) => CanRun(a) && phase == Outside && k < |a.bits|
    case Look => CanRun(a) && phase.Looking?
    case Load => CanRun(a) && (phase.Found? || phase.Clearing?)
    case Store => CanRun(a) && phase.Loaded?
    case Leave => CanRun(a) && (phase.Took? || phase.Cleared? || phase.Failed?)
  }

  // The byte of bit k written back as it was read, but for bit k
  function ByteStored(bits: seq<bool>, seen: seq<bool>, k: nat, b: bool): (r: seq<bool>) {
    seq(|bits|, i requires 0 <= i < |bits| =>
      if i == k then b else if i / 8 == k / 8 && i < |seen| then seen[i] else bits[i])
  }

  function PoolNext(a: Pool, op: PoolOp): Pool
    requires PoolEnabled(a, op)
  {
    var t := a.sys.tm.curr;
    match op
    case Other(o) => a.(sys := Next(a.sys, o))
    case EnterAlloc => a.(sys := Next(a.sys, Acquire(0)), phase := a.phase[t := Looking(0)])
    case EnterFree(k) => a.(sys := Next(a.sys, Acquire(0)), phase := a.phase[t := Clearing(k)])
    case Look =>
      var k := a.phase[t].k;
      a.(phase := a.phase[t := if k >= |a.bits| then Failed else if a.bits[k] then Looking(k + 1) else Found(k)])
    case Load =>
      a.(phase := a.phase[t := Loaded(a.phase[t].k, a.bits, a.phase[t].Found?)])
    case Store =>
      var Loaded(k, seen, b) := a.phase[t];
      a.(bits := ByteStored(a.bits, seen, k, b),
         phase := a.phase[t := if b then Took(k) else Cleared],
         held := if b then a.held[k := t] else a.held - {k})
    case Leave => a.(sys := Next(a.sys, Release(0)), phase := a.phase[t := Outside])
  }

  // ---- What the mutex protects ----

  // The next bit to look at is k: all before it are set.
  predicate SetBelow(bits: seq<bool>, k: nat) {
    k <= |bits| && forall i :: 0 <= i < k ==> bits[i]
  }

  // What a task inside relies on
  ghost predicate Relies(bits: seq<bool>, p: Phase) {
    match p
    case Looking(k) => SetBelow(bits, k)
    case Found(k) => k < |bits| && SetBelow(bits, k) && !bits[k]
    case Clearing(k) => k < |bits|
    case Loaded(k, seen, b) => k < |bits| && seen == bits && (b ==> SetBelow(bits, k) && !bits[k])
    case Failed => true
    case _ => true
  }

  predicate AtStart(p: Phase) {
    p == Looking(0) || p.Clearing?
  }

  // A task is inside exactly if it owns the mutex, once, or waits for it and has done nothing yet.
  ghost predicate Guarded(a: Pool, t: Tid) {
    |a.sys.locks| > 0 ==>
      && (PhaseOf(a, t) != Outside <==> Owns(a.sys, 0, t) || t in a.sys.locks[0].waiters)
      && (Owns(a.sys, 0, t) ==> a.sys.locks[0].count == 1)
      && (t in a.sys.locks[0].waiters ==> AtStart(PhaseOf(a, t)))
      && Relies(a.bits, PhaseOf(a, t))
  }

  // The bits say exactly which frames are in use.
  predicate Marks(bits: seq<bool>, held: map<nat, Tid>) {
    && (forall i :: 0 <= i < |bits| ==> (bits[i] <==> i in held))
    && forall i :: i in held ==> i < |bits|
  }

  ghost predicate PoolInv(a: Pool) {
    && Inv(a.sys) && |a.sys.locks| > 0
    && Marks(a.bits, a.held)
    && forall t: Tid :: Guarded(a, t)
  }

  lemma CurrentOwns(a: Pool)
    requires PoolInv(a) && PhaseOf(a, a.sys.tm.curr) != Outside
    ensures Owns(a.sys, 0, a.sys.tm.curr) && a.sys.locks[0].count == 1 && Relies(a.bits, PhaseOf(a, a.sys.tm.curr))
  {
    assert Guarded(a, a.sys.tm.curr);
    LockFacts(a.sys, 0);
  }

  lemma OtherKeeps(a: Pool, o: Op)
    requires PoolInv(a) && PoolEnabled(a, Other(o))
    ensures PoolInv(PoolNext(a, Other(o)))
  {
    NextKeeps(a.sys, o);
    assert Next(a.sys, o).locks != [] && Next(a.sys, o).locks[0] == a.sys.locks[0] by { hide Inv; }
    var a' := PoolNext(a, Other(o));
    hide Inv, Next, Enabled, Marks, Relies;
    forall t: Tid
      ensures Guarded(a', t)
    {
      assert Guarded(a, t);
    }
  }

  lemma EnterKeeps(a: Pool, op: PoolOp)
    requires PoolInv(a) && PoolEnabled(a, op) && (op.EnterAlloc? || op.EnterFree?)
    ensures PoolInv(PoolNext(a, op))
  {
    NextKeeps(a.sys, Acquire(0));
    assert Guarded(a, a.sys.tm.curr);
    LockFacts(a.sys, 0);
    EnterLock(a.sys);
    var a' := PoolNext(a, op);
    hide Inv, Next, Enabled, Marks, Relies;
    forall t: Tid
      ensures Guarded(a', t)
    {
      assert Guarded(a, t);
      StartRelies(a.bits, PhaseOf(a', t));
      hide PoolInv, PoolNext, PoolEnabled;
      EnterGuards(a, a', t);
    }
  }

  lemma EnterGuards(a: Pool, a': Pool, t: Tid)
    requires Guarded(a, t) && |a.sys.locks| > 0 && |a'.sys.locks| > 0 && a'.bits == a.bits
    requires t != a.sys.tm.curr ==> PhaseOf(a', t) == PhaseOf(a, t)
    requires t == a.sys.tm.curr ==>
               PhaseOf(a, t) == Outside && AtStart(PhaseOf(a', t)) && Relies(a.bits, PhaseOf(a', t))
    requires var (l, l') := (a.sys.locks[0], a'.sys.locks[0]);
             if l.owner == Nobody then
               l'.owner == HeldBy(a.sys.tm.curr) && l'.count == 1 && l'.waiters == [] == l.waiters
             else
               l'.owner == l.owner && l'.count == l.count && l'.waiters == l.waiters + [a.sys.tm.curr]
    ensures Guarded(a', t)
  {
    hide PhaseOf, Relies;
  }

  lemma StartRelies(bits: seq<bool>, p: Phase)
    ensures p == Looking(0) || (p.Clearing? && p.k < |bits|) ==> Relies(bits, p)
  {
  }

  lemma EnterLock(s: System)
    requires Enabled(s, Acquire(0))
    requires s.locks[0].owner != HeldBy(s.tm.curr) && (s.locks[0].count == 0 <==> s.locks[0].owner == Nobody)
    requires s.locks[0].owner == Nobody ==> s.locks[0].waiters == []
    ensures var (l, l') := (s.locks[0], Next(s, Acquire(0)).locks[0]);
            && |Next(s, Acquire(0)).locks| > 0
            && if l.owner == Nobody then l'.owner == HeldBy(s.tm.curr) && l'.count == 1 && l'.waiters == []
               else l'.owner == l.owner && l'.count == l.count && l'.waiters == l.waiters + [s.tm.curr]
  {
  }

  lemma LeaveKeeps(a: Pool)
    requires PoolInv(a) && PoolEnabled(a, Leave)
    ensures PoolInv(PoolNext(a, Leave))
  {
    CurrentOwns(a);
    NextKeeps(a.sys, Release(0));
    LockFacts(a.sys, 0);
    LeaveLock(a.sys);
    var a' := PoolNext(a, Leave);
    hide Inv, Next, Enabled, Marks, Relies;
    forall t: Tid
      ensures Guarded(a', t)
    {
      assert Guarded(a, t);
      hide PoolInv, PoolNext, PoolEnabled;
      LeaveGuards(a, a', t);
    }
  }

  lemma LeaveGuards(a: Pool, a': Pool, t: Tid)
    requires Guarded(a, t) && |a.sys.locks| > 0 && |a'.sys.locks| > 0 && a'.bits == a.bits
    requires PhaseOf(a', t) == if t == a.sys.tm.curr then Outside else PhaseOf(a, t)
    requires var (l, l') := (a.sys.locks[0], a'.sys.locks[0]);
             && l.owner == HeldBy(a.sys.tm.curr) && a.sys.tm.curr !in l.waiters && Distinct(l.waiters)
             && if l.waiters == [] then l'.owner == Nobody && l'.waiters == []
                else l'.owner == HeldBy(l.waiters[0]) && l'.count == 1 && l'.waiters == l.waiters[1..]
    ensures Guarded(a', t)
  {
    hide PhaseOf;
    var q := a.sys.locks[0].waiters;
    assert q != [] ==> q == [q[0]] + q[1..] && q[0] !in q[1..];
  }

  lemma LeaveLock(s: System)
    requires Enabled(s, Release(0)) && s.locks[0].owner == HeldBy(s.tm.curr) && s.locks[0].count == 1
    ensures var (l, l') := (s.locks[0], Next(s, Release(0)).locks[0]);
            && |Next(s, Release(0)).locks| > 0
            && if l.waiters == [] then l'.owner == Nobody && l'.waiters == []
               else l'.owner == HeldBy(l.waiters[0]) && l'.count == 1 && l'.waiters == l.waiters[1..]
  {
  }

  lemma OwnStepKeeps(a: Pool, op: PoolOp)
    requires PoolInv(a) && PoolEnabled(a, op) && (op.Look? || op.Load? || op.Store?)
    ensures PoolInv(PoolNext(a, op))
  {
    CurrentOwns(a);
    hide Inv;
    var a' := PoolNext(a, op);
    forall t: Tid
      ensures Guarded(a', t)
    {
      assert Guarded(a, t);
    }
  }

  // Every step keeps the invariant.
  lemma PoolNextKeeps(a: Pool, op: PoolOp)
    requires PoolInv(a) && PoolEnabled(a, op)
    ensures PoolInv(PoolNext(a, op))
  {
    hide PoolInv, PoolNext, PoolEnabled;
    match op
    case Other(o) => OtherKeeps(a, o);
    case EnterAlloc => EnterKeeps(a, op);
    case EnterFree(k) => EnterKeeps(a, op);
    case Leave => LeaveKeeps(a);
    case _ => OwnStepKeeps(a, op);
  }

  // ---- Each call is one step of an allocator without preemption ----

  // Allocation in one step: t gets the least index that is free, or nothing because none is.
  ghost predicate AllocAtOnce(held: map<nat, Tid>, size: nat, t: Tid, held': map<nat, Tid>, p: Phase) {
    match p
    case Took(k) => k < size && k !in held && (forall i :: 0 <= i < k ==> i in held) && held' == held[k := t]
    case Failed => (forall i :: 0 <= i < size ==> i in held) && held' == held
    case _ => false
  }

  // The step of a call at which it takes effect
  predicate Effective(a: Pool, op: PoolOp) {
    op.Store? || (op.Look? && PhaseOf(a, a.sys.tm.curr).Looking? && PhaseOf(a, a.sys.tm.curr).k >= |a.bits|)
  }

  // One step of each call has the whole effect, as if the call were that one step; no other step changes what
  // is in use, and the result of a call stays with its task until it leaves.
  lemma TakesEffectAtOnce(a: Pool, op: PoolOp)
    requires PoolInv(a) && PoolEnabled(a, op)
    ensures var a' := PoolNext(a, op);
            var t := a.sys.tm.curr;
            if !Effective(a, op) then a'.held == a.held && a'.bits == a.bits
            else if PhaseOf(a', t) == Cleared then a'.held == a.held - {PhaseOf(a, t).k}
            else AllocAtOnce(a.held, |a.bits|, t, a'.held, PhaseOf(a', t))
    ensures forall u :: u != a.sys.tm.curr ==> PhaseOf(PoolNext(a, op), u) == PhaseOf(a, u)
  {
    if op.Store? || op.Look? {
      CurrentOwns(a);
      hide Inv;
    } else {
      hide Inv, Next, Enabled;
    }
  }

  // ---- Runs ----

  ghost predicate PoolStep(a: Pool, op: PoolOp, a': Pool) {
    PoolEnabled(a, op) && a' == PoolNext(a, op)
  }

  ghost predicate PoolRun(ps: seq<Pool>, ops: seq<PoolOp>) {
    |ps| == |ops| + 1 && forall i :: 0 <= i < |ops| ==> PoolStep(ps[i], ops[i], ps[i + 1])
  }

  // Step i hands out frame k, or frees it.
  predicate HandsOut(ps: seq<Pool>, ops: seq<PoolOp>, i: nat, k: nat)
    requires i < |ops| < |ps|
  {
    ops[i].Store? && PhaseOf(ps[i + 1], ps[i].sys.tm.curr) == Took(k)
  }

  predicate Frees(ps: seq<Pool>, ops: seq<PoolOp>, i: nat, k: nat)
    requires i < |ops| < |ps|
  {
    ops[i].Store? && PhaseOf(ps[i + 1], ps[i].sys.tm.curr) == Cleared
    && PhaseOf(ps[i], ps[i].sys.tm.curr).Loaded? && PhaseOf(ps[i], ps[i].sys.tm.curr).k == k
  }

  lemma {:induction false} PoolInvAt(ps: seq<Pool>, ops: seq<PoolOp>, i: nat)
    requires PoolRun(ps, ops) && PoolInv(ps[0]) && i <= |ops|
    ensures PoolInv(ps[i])
  {
    hide PoolInv, PoolNext, PoolEnabled;
    if i > 0 {
      PoolInvAt(ps, ops, i - 1);
      assert PoolStep(ps[i - 1], ops[i - 1], ps[i - 1 + 1]);
      PoolNextKeeps(ps[i - 1], ops[i - 1]);
    }
  }

  lemma {:induction false} StaysHeld(ps: seq<Pool>, ops: seq<PoolOp>, i: nat, j: nat, k: nat)
    requires PoolRun(ps, ops) && PoolInv(ps[0]) && i <= j <= |ops|
    requires k in ps[i].held && forall m :: i <= m < j ==> !Frees(ps, ops, m, k)
    ensures k in ps[j].held
  {
    if i < j {
      StaysHeld(ps, ops, i, j - 1, k);
      assert PoolStep(ps[j - 1], ops[j - 1], ps[j - 1 + 1]);
      PoolInvAt(ps, ops, j - 1);
      assert !Frees(ps, ops, j - 1, k);
      StillHeld(ps[j - 1], ops[j - 1], k);
    }
  }

  lemma StillHeld(a: Pool, op: PoolOp, k: nat)
    requires PoolInv(a) && PoolEnabled(a, op) && k in a.held
    ensures k in PoolNext(a, op).held
            || (op.Store? && PhaseOf(PoolNext(a, op), a.sys.tm.curr) == Cleared
                && PhaseOf(a, a.sys.tm.curr).Loaded? && PhaseOf(a, a.sys.tm.curr).k == k)
  {
    TakesEffectAtOnce(a, op);
    hide PoolInv, Next, Enabled;
  }

  // Whatever the interleaving, a frame handed out twice was freed in between: no two tasks ever hold it at
  // once.
  lemma NeverHandedOutTwice(ps: seq<Pool>, ops: seq<PoolOp>, i: nat, j: nat, k: nat)
    requires PoolRun(ps, ops) && PoolInv(ps[0]) && i < j < |ops|
    requires HandsOut(ps, ops, i, k) && HandsOut(ps, ops, j, k)
    ensures exists m :: i < m < j && Frees(ps, ops, m, k)
  {
    PoolInvAt(ps, ops, i);
    PoolInvAt(ps, ops, j);
    assert PoolStep(ps[i], ops[i], ps[i + 1]) && PoolStep(ps[j], ops[j], ps[j + 1]);
    hide PoolInv, PoolNext, PoolEnabled, Frees;
    TakesEffectAtOnce(ps[i], ops[i]);
    TakesEffectAtOnce(ps[j], ops[j]);
    if forall m :: i + 1 <= m < j ==> !Frees(ps, ops, m, k) {
      StaysHeld(ps, ops, i + 1, j, k);
    }
  }

  // ---- Calls over runs ----

  // Before a call takes effect it is in stage 1, after that in stage 2.
  function Stage(p: Phase): nat {
    match p
    case Outside => 0
    case Took(_) => 2
    case Cleared => 2
    case Failed => 2
    case _ => 1
  }

  predicate By(a: Pool, t: Tid) {
    a.sys.tm.curr == t
  }

  lemma StageStep(a: Pool, op: PoolOp, t: Tid)
    requires PoolEnabled(a, op)
    ensures var (p, p') := (PhaseOf(a, t), PhaseOf(PoolNext(a, op), t));
            if By(a, t) && Effective(a, op) then Stage(p) == 1 && Stage(p') == 2
            else if By(a, t) && (op.EnterAlloc? || op.EnterFree?) then Stage(p') == 1
            else if By(a, t) && op.Leave? then Stage(p) == 2
            else Stage(p') == Stage(p) && (Stage(p) == 2 ==> p' == p)
  {
    hide Next, Enabled;
  }

  predicate EffectiveBy(ps: seq<Pool>, ops: seq<PoolOp>, k: nat, t: Tid)
    requires k < |ops| < |ps|
  {
    By(ps[k], t) && Effective(ps[k], ops[k])
  }

  // What a task inside is about to do
  datatype Aim = Nothing | ToAlloc | ToFree(f: nat)

  function AimOf(p: Phase): Aim {
    match p
    case Looking(_) => ToAlloc
    case Found(_) => ToAlloc
    case Clearing(f) => ToFree(f)
    case Loaded(f, _, b) => if b then ToAlloc else ToFree(f)
    case _ => Nothing
  }

  function AimOfCall(op: PoolOp): Aim {
    match op
    case EnterAlloc => ToAlloc
    case EnterFree(f) => ToFree(f)
    case _ => Nothing
  }

  // A task holds on to what it is about to do.
  lemma AimKept(a: Pool, op: PoolOp, t: Tid)
    requires PoolEnabled(a, op)
    ensures var (p, p') := (PhaseOf(a, t), PhaseOf(PoolNext(a, op), t));
            && (By(a, t) && (op.EnterAlloc? || op.EnterFree?) ==> AimOf(p') == AimOfCall(op))
            && (Stage(p) == 1 && Stage(p') == 1 ==> AimOf(p') == AimOf(p))
  {
    hide Next, Enabled;
  }

  // Between steps i and m exactly one step is effective for t, namely k. It was for what t entered for, and left
  // t with its result.
  ghost predicate OnlyEffect(ps: seq<Pool>, ops: seq<PoolOp>, i: nat, m: nat, t: Tid, k: nat)
    requires i < |ops| && m <= |ops| < |ps|
  {
    && i < k < m && EffectiveBy(ps, ops, k, t)
    && AimOf(PhaseOf(ps[k], t)) == AimOfCall(ops[i])
    && (forall j :: i < j < m && EffectiveBy(ps, ops, j, t) ==> j == k)
    && PhaseOf(ps[m], t) == PhaseOf(ps[k + 1], t)
  }

  // The call that t entered with step i, before step m: it is in stage 1 and no step has been effective, or in
  // stage 2 and exactly one has.
  ghost predicate CallState(ps: seq<Pool>, ops: seq<PoolOp>, i: nat, m: nat, t: Tid)
    requires i < |ops| && m <= |ops| < |ps|
  {
    || (Stage(PhaseOf(ps[m], t)) == 1 && AimOf(PhaseOf(ps[m], t)) == AimOfCall(ops[i])
        && forall j :: i < j < m ==> !EffectiveBy(ps, ops, j, t))
    || (Stage(PhaseOf(ps[m], t)) == 2 && exists k :: OnlyEffect(ps, ops, i, m, t, k))
  }

  lemma NoSecondEnter(a: Pool, op: PoolOp, t: Tid)
    requires PoolEnabled(a, op) && By(a, t) && Stage(PhaseOf(a, t)) != 0
    ensures !op.EnterAlloc? && !op.EnterFree?
  {
  }

  // One step later, if it is not the one with which t leaves
  lemma CallNext(ps: seq<Pool>, ops: seq<PoolOp>, i: nat, m: nat, t: Tid)
    requires i < m < |ops| < |ps| && PoolStep(ps[m], ops[m], ps[m + 1])
    requires CallState(ps, ops, i, m, t) && !(By(ps[m], t) && ops[m].Leave?)
    ensures CallState(ps, ops, i, m + 1, t)
  {
    StageStep(ps[m], ops[m], t);
    AimKept(ps[m], ops[m], t);
    if By(ps[m], t) {
      NoSecondEnter(ps[m], ops[m], t);
    }
    hide PoolStep, Effective, PhaseOf, Stage, AimOf, AimOfCall;
    if Stage(PhaseOf(ps[m], t)) == 2 {
      var k :| OnlyEffect(ps, ops, i, m, t, k);
      assert !EffectiveBy(ps, ops, m, t);
      assert OnlyEffect(ps, ops, i, m + 1, t, k);
    } else if EffectiveBy(ps, ops, m, t) {
      assert OnlyEffect(ps, ops, i, m + 1, t, m);
    }
  }

  lemma {:induction false} CallAt(ps: seq<Pool>, ops: seq<PoolOp>, i: nat, m: nat, t: Tid)
    requires PoolRun(ps, ops) && i < m <= |ops| && By(ps[i], t) && (ops[i].EnterAlloc? || ops[i].EnterFree?)
    requires forall j :: i < j < m && By(ps[j], t) ==> !ops[j].Leave?
    ensures CallState(ps, ops, i, m, t)
    decreases m
  {
    hide PoolNext, Effective, PoolEnabled;
    assert PoolStep(ps[m - 1], ops[m - 1], ps[m - 1 + 1]);
    if m > i + 1 {
      hide PoolStep, CallState;
      CallAt(ps, ops, i, m - 1, t);
      CallNext(ps, ops, i, m - 1, t);
    } else {
      StageStep(ps[i], ops[i], t);
      AimKept(ps[i], ops[i], t);
      EnterIsNoEffect(ps[i], ops[i]);
    }
  }

  lemma EnterIsNoEffect(a: Pool, op: PoolOp)
    requires op.EnterAlloc? || op.EnterFree?
    ensures !Effective(a, op)
  {
  }

  // Between a task's entry into one of the two functions and its leaving, exactly one step is effective, and
  // its result is what the task leaves with.
  lemma OneEffectPerCall(ps: seq<Pool>, ops: seq<PoolOp>, i: nat, m: nat, t: Tid)
    requires PoolRun(ps, ops) && i < m < |ops| && By(ps[i], t) && (ops[i].EnterAlloc? || ops[i].EnterFree?)
    requires forall j :: i < j < m && By(ps[j], t) ==> !ops[j].Leave?
    requires By(ps[m], t) && ops[m].Leave?
    ensures exists k :: OnlyEffect(ps, ops, i, m, t, k)
  {
    CallAt(ps, ops, i, m, t);
    assert PoolStep(ps[m], ops[m], ps[m + 1]);
    StageStep(ps[m], ops[m], t);
    hide PoolNext, Effective, PoolEnabled, PhaseOf, Stage, AimOf, AimOfCall;
  }

  // One step, k, has the whole effect of a call, as of an allocator without preemption: of a call to free frame f,
  // that f is free; of a call to allocate, that t gets the least free frame, or nothing because none is free.
  ghost predicate CallDone(a: Pool, op: PoolOp, t: Tid, a': Pool) {
    match op
    case EnterFree(f) => a'.held == a.held - {f} && PhaseOf(a', t) == Cleared
    case EnterAlloc =>
      if PhaseOf(a', t).Took? then
        var f := PhaseOf(a', t).k;
        f < |a.bits| && f !in a.held && (forall g :: 0 <= g < f ==> g in a.held) && a'.held == a.held[f := t]
      else
        PhaseOf(a', t).Failed? && (forall g :: 0 <= g < |a.bits| ==> g in a.held) && a'.held == a.held
    case _ => false
  }

  lemma EffectDone(a: Pool, op: PoolOp, t: Tid, call: PoolOp)
    requires PoolInv(a) && PoolEnabled(a, op) && By(a, t) && Effective(a, op)
    requires AimOf(PhaseOf(a, t)) == AimOfCall(call) && AimOfCall(call) != Nothing
    ensures CallDone(a, call, t, PoolNext(a, op))
  {
    TakesEffectAtOnce(a, op);
    hide PoolInv, Next, Enabled;
  }

  // Each call does what it was called for, in exactly one step between entering and leaving, whatever the
  // interleaving.
  lemma CallsDoTheirWork(ps: seq<Pool>, ops: seq<PoolOp>, i: nat, m: nat, t: Tid)
    requires PoolRun(ps, ops) && PoolInv(ps[0])
    requires i < m < |ops| && By(ps[i], t) && (ops[i].EnterAlloc? || ops[i].EnterFree?)
    requires forall j :: i < j < m && By(ps[j], t) ==> !ops[j].Leave?
    requires By(ps[m], t) && ops[m].Leave?
    ensures exists k: nat :: OnlyEffect(ps, ops, i, m, t, k) && CallDone(ps[k], ops[i], t, ps[k + 1])
  {
    OneEffectPerCall(ps, ops, i, m, t);
    var k: nat :| OnlyEffect(ps, ops, i, m, t, k);
    PoolInvAt(ps, ops, k);
    assert PoolStep(ps[k], ops[k], ps[k + 1]);
    hide PoolInv, PoolNext, PoolEnabled, Effective, PhaseOf, AimOf, CallDone;
    EffectDone(ps[k], ops[k], t, ops[i]);
  }

  // A task that runs can always go on: into a call of either kind, or to the next step of the call that it is in.
  lemma CallsGoOn(a: Pool, f: nat)
    requires PoolInv(a) && a.sys.tm.ready != [] && a.sys.tm.curr !in a.sys.tm.walking
    ensures var p := PhaseOf(a, a.sys.tm.curr);
            if p == Outside then PoolEnabled(a, EnterAlloc) && (f < |a.bits| ==> PoolEnabled(a, EnterFree(f)))
            else PoolEnabled(a, if p.Looking? then Look else if p.Found? || p.Clearing? then Load
                                else if p.Loaded? then Store else Leave)
  {
    HeadPlaced(a.sys.tm);
  }

  // The mutex is free again whenever no task is inside.
  lemma FreeWhenUnused(a: Pool)
    requires PoolInv(a) && forall t :: PhaseOf(a, t) == Outside
    ensures a.sys.locks[0] == Lock(Nobody, 0, [])
  {
    LockFacts(a.sys, 0);
    forall t: Tid
      ensures !Owns(a.sys, 0, t) && t !in a.sys.locks[0].waiters
    {
      assert Guarded(a, t);
    }
    hide PoolInv, Guarded;
    var l := a.sys.locks[0];
    assert l.owner.HeldBy? ==> Owns(a.sys, 0, l.owner.task);
  }

  // A pool that no task is in the middle of using, as at the start
  lemma PoolStart(sys: System, bits: seq<bool>, held: map<nat, Tid>)
    requires Inv(sys) && |sys.locks| > 0 && Marks(bits, held) && sys.locks[0] == Lock(Nobody, 0, [])
    ensures PoolInv(Pool(sys, bits, map[], held))
  {
    hide Inv, Marks;
  }

  lemma EmptyPoolStarts(first: Tid, locks: nat, counts: seq<nat>, size: nat)
    requires first != IDLE && locks > 0
    ensures PoolInv(Pool(Initial(first, locks, counts), seq(size, i => false), map[], map[]))
  {
    InitialInv(first, locks, counts);
    PoolStart(Initial(first, locks, counts), seq(size, i => false), map[]);
  }
}
