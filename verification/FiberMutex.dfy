/**
 The fiber mutex: a byte with a locked and a parked bit, and a parking-lot queue of fibers.

 Any number of fibers lock, try to lock and unlock, one atomic access at a time. The queue has
 its own lock, held across the last check and the insertion of a parking fiber, and across the
 removal of a fiber and the store that releases the mutex.
 */
module FiberMutex {
  import opened Wrappers

  /** Where a fiber is in `lock`, `unlock` or `park`. */
  datatype Pc =
    | Idle
    | Reload
    | Loaded(l: bool, p: bool)
    | ToPark
    | Validated
    | Queued
    | Dequeued
    | Holding
    | UnlockSlow
    | Storing(head: Option<nat>, more: bool)
    | Unparking(fiber: nat)

  datatype State = State(locked: bool, parked: bool, queue: seq<nat>, queueLock: Option<nat>, pc: seq<Pc>)

  datatype Step =
    | LockFast(f: nat)
    | LockFail(f: nat)
    | TryLock(f: nat)
    | Load(f: nat)
    | Acquire(f: nat)
    | Spin(f: nat)
    | SetParked(f: nat)
    | ExchangeFail(f: nat)
    | FoundParked(f: nat)
    | ParkValidate(f: nat)
    | ParkEnqueue(f: nat)
    | UnlockFast(f: nat)
    | UnlockMiss(f: nat)
    | UnparkTake(f: nat)
    | UnparkStore(f: nat)
    | Unpause(f: nat)

  predicate Init(s: State) {
    !s.locked && !s.parked && s.queue == [] && s.queueLock == None
    && forall f :: 0 <= f < |s.pc| ==> s.pc[f] == Idle
  }

  function At(s: State, f: nat, pc: Pc): State
    requires f < |s.pc|
  {
    s.(pc := s.pc[f := pc])
  }

  /** What fiber `step.f` may do next; a weak compare-exchange may also fail for no reason. */
  predicate Next(s: State, s': State, step: Step) {
    step.f < |s.pc| &&
    var f, pc := step.f, s.pc[step.f];
    match step
    case LockFast(_) => pc == Idle && !s.locked && !s.parked && s' == At(s, f, Holding).(locked := true)
    case LockFail(_) => pc == Idle && s' == At(s, f, Reload)
    case TryLock(_) => pc == Idle && !s.locked && s' == At(s, f, Holding).(locked := true)
    case Load(_) => pc == Reload && s' == At(s, f, Loaded(s.locked, s.parked))
    case Acquire(_) =>
      pc.Loaded? && !pc.l && !s.locked && s.parked == pc.p && s' == At(s, f, Holding).(locked := true)
    case Spin(_) => pc.Loaded? && pc.l && s' == At(s, f, Reload)
    case SetParked(_) =>
      pc == Loaded(true, false) && s.locked && !s.parked && s' == At(s, f, ToPark).(parked := true)
    case ExchangeFail(_) => pc.Loaded? && !(pc.l && pc.p) && s' == At(s, f, Loaded(s.locked, s.parked))
    case FoundParked(_) => pc == Loaded(true, true) && s' == At(s, f, ToPark)
    case ParkValidate(_) =>
      pc == ToPark && s.queueLock == None
      && s' == if s.locked && s.parked then At(s, f, Validated).(queueLock := Some(f)) else At(s, f, Reload)
    case ParkEnqueue(_) =>
      pc == Validated && s' == At(s, f, Queued).(queue := s.queue + [f], queueLock := None)
    case UnlockFast(_) => pc == Holding && s.locked && !s.parked && s' == At(s, f, Idle).(locked := false)
    case UnlockMiss(_) => pc == Holding && !(s.locked && !s.parked) && s' == At(s, f, UnlockSlow)
    case UnparkTake(_) => pc == UnlockSlow && s.queueLock == None && s' == Take(s, f)
    case UnparkStore(_) =>
      pc.Storing?
      && s' == At(s, f, if pc.head == None then Idle else Unparking(pc.head.value))
               .(locked := false, parked := pc.more, queueLock := None)
    case Unpause(_) =>
      pc.Unparking? && pc.fiber < |s.pc| && pc.fiber != f && s' == At(At(s, pc.fiber, Reload), f, Idle)
  }

  /** `unpark_one`, up to the callback: take the first entry off the queue. */
  function Take(s: State, f: nat): State
    requires f < |s.pc|
  {
    var t := s.(queueLock := Some(f));
    if s.queue == [] || s.queue[0] >= |s.pc| then At(t, f, Storing(None, false))
    else
      var g, rest := s.queue[0], s.queue[1..];
      At(At(t.(queue := rest), g, Dequeued), f, Storing(Some(g), rest != []))
  }

  // ---- the invariant

  predicate Holds(pc: Pc) { pc == Holding || pc == UnlockSlow || pc.Storing? }

  /** Awake, or about to be woken, and on the way to acquiring the mutex. */
  predicate Contends(pc: Pc) { pc == Reload || pc.Loaded? || pc == ToPark || pc == Dequeued }

  predicate InQueueSection(pc: Pc) { pc == Validated || pc.Storing? }

  /** The fiber that `pc` is about to unpause. */
  predicate Wakes(pc: Pc, g: nat) { pc == Unparking(g) || (pc.Storing? && pc.head == Some(g)) }

  /** The locked bit is set exactly when some fiber holds the mutex, and never two do. */
  predicate Exclusive(s: State) {
    && (forall f, g :: 0 <= f < |s.pc| && 0 <= g < |s.pc| && Holds(s.pc[f]) && Holds(s.pc[g]) ==> f == g)
    && (s.locked <==> exists f :: 0 <= f < |s.pc| && Holds(s.pc[f]))
  }

  /** The queue holds each queued fiber once. */
  predicate QueueOk(s: State) {
    && (forall i :: 0 <= i < |s.queue| ==> s.queue[i] < |s.pc| && s.pc[s.queue[i]] == Queued)
    && (forall i, j :: 0 <= i < j < |s.queue| ==> s.queue[i] != s.queue[j])
    && (forall f :: 0 <= f < |s.pc| && s.pc[f] == Queued ==> f in s.queue)
  }

  predicate ParkedOk(s: State) { s.queue != [] ==> s.parked }

  predicate SectionOk(s: State) {
    && (s.queueLock != None ==> s.queueLock.value < |s.pc|)
    && (forall f :: 0 <= f < |s.pc| ==> (InQueueSection(s.pc[f]) <==> s.queueLock == Some(f)))
    && (forall f :: 0 <= f < |s.pc| && s.pc[f] == Validated ==> s.locked && s.parked)
    && (forall f :: 0 <= f < |s.pc| && s.pc[f].Storing? ==>
          (s.pc[f].more <==> s.queue != []) && (s.pc[f].more ==> s.pc[f].head != None))
  }

  /** Taken off the queue, and not yet woken. */
  predicate Gone(s: State, g: nat) { g < |s.pc| && s.pc[g] == Dequeued }

  /** Every fiber taken off the queue is about to be woken by exactly one other. */
  ghost predicate WakeOk(s: State) {
    && (forall u: nat, g: nat {:trigger Wakes(s.pc[u], g)} :: u < |s.pc| && Wakes(s.pc[u], g) ==> Gone(s, g))
    && (forall u: nat, v: nat, g: nat :: u < |s.pc| && v < |s.pc| && Wakes(s.pc[u], g) && Wakes(s.pc[v], g) ==> u == v)
    && (forall g :: 0 <= g < |s.pc| && s.pc[g] == Dequeued ==> exists u :: 0 <= u < |s.pc| && Wakes(s.pc[u], g))
  }

  /** A free mutex with fibers in its queue has a contender that is not asleep. */
  predicate NoLostWakeup(s: State) {
    !s.locked && s.queue != [] ==> exists f :: 0 <= f < |s.pc| && Contends(s.pc[f])
  }

  ghost predicate Inv(s: State) {
    Exclusive(s) && QueueOk(s) && ParkedOk(s) && SectionOk(s) && WakeOk(s) && NoLostWakeup(s)
  }

  // ---- every step keeps it

  lemma InitInv(s: State)
    requires Init(s)
    ensures Inv(s)
  {
  }

  /** States of a fiber that touch neither the queue nor a wake-up. */
  predicate Plain(pc: Pc) {
    pc == Idle || pc == Reload || pc.Loaded? || pc == ToPark || pc == Holding || pc == UnlockSlow
  }

  /** A fiber moves between plain states; the locked bit follows the holder. */
  lemma PlainInv(s: State, s': State, f: nat, pc: Pc)
    requires Inv(s) && f < |s.pc| && Plain(s.pc[f]) && Plain(pc)
    requires s' == At(s, f, pc).(locked := s'.locked, parked := s'.parked)
    requires s.parked ==> s'.parked
    requires Holds(pc) == Holds(s.pc[f]) && s'.locked == s.locked
    requires Contends(s.pc[f]) ==> Contends(pc)
    ensures Inv(s')
  {
    assert forall g :: 0 <= g < |s.pc| && g != f ==> s'.pc[g] == s.pc[g];
    assert s'.pc[f] == pc;
    ExclusiveSame(s, s', f);
    WakeSame(s, s', f);
    SectionSame(s, s');
    QueueSame(s, s');
    hide Exclusive, WakeOk, SectionOk, QueueOk;
    if !s.locked && s.queue != [] {
      var g :| 0 <= g < |s.pc| && Contends(s.pc[g]);
      assert Contends(s'.pc[g]);
    }
  }

  lemma ExclusiveSame(s: State, s': State, f: nat)
    requires Exclusive(s) && f < |s.pc| == |s'.pc| && s'.locked == s.locked
    requires forall g :: 0 <= g < |s.pc| ==> Holds(s'.pc[g]) == Holds(s.pc[g])
    ensures Exclusive(s')
  {
    if s.locked {
      var g :| 0 <= g < |s.pc| && Holds(s.pc[g]);
      assert Holds(s'.pc[g]);
    }
  }

  lemma SectionSame(s: State, s': State)
    requires SectionOk(s) && |s.pc| == |s'.pc| && s'.queueLock == s.queueLock && s'.queue == s.queue
    requires s'.locked == s.locked && (s.parked ==> s'.parked)
    requires forall g :: 0 <= g < |s.pc| ==> s'.pc[g] == s.pc[g] || (!InQueueSection(s.pc[g]) && !InQueueSection(s'.pc[g]))
    ensures SectionOk(s')
  {
  }

  lemma QueueSame(s: State, s': State)
    requires QueueOk(s) && |s.pc| == |s'.pc| && s'.queue == s.queue
    requires forall g :: 0 <= g < |s.pc| ==> (s'.pc[g] == Queued <==> s.pc[g] == Queued)
    ensures QueueOk(s')
  {
  }

  lemma WakeSame(s: State, s': State, f: nat)
    requires WakeOk(s) && |s.pc| == |s'.pc|
    requires forall u: nat, g: nat {:trigger Wakes(s'.pc[u], g)} {:trigger Wakes(s.pc[u], g)} :: u < |s.pc| ==> Wakes(s'.pc[u], g) == Wakes(s.pc[u], g)
    requires forall g :: 0 <= g < |s.pc| ==> (s'.pc[g] == Dequeued <==> s.pc[g] == Dequeued)
    ensures WakeOk(s')
  {
    forall g | 0 <= g < |s'.pc| && s'.pc[g] == Dequeued
      ensures exists u :: 0 <= u < |s'.pc| && Wakes(s'.pc[u], g)
    {
      var u :| 0 <= u < |s.pc| && Wakes(s.pc[u], g);
      assert Wakes(s'.pc[u], g);
    }
  }

  /** The mutex is taken: it was free, so nobody held it. */
  lemma AcquireInv(s: State, s': State, f: nat)
    requires Inv(s) && f < |s.pc| && Plain(s.pc[f]) && !s.locked
    requires s' == At(s, f, Holding).(locked := true)
    ensures Inv(s')
  {
    assert forall g :: 0 <= g < |s.pc| && g != f ==> s'.pc[g] == s.pc[g];
    assert s'.pc[f] == Holding && Holds(s'.pc[f]);
    WakeSame(s, s', f);
    hide WakeOk;
  }

  lemma ValidateInv(s: State, s': State, f: nat)
    requires Inv(s) && f < |s.pc| && s.pc[f] == ToPark && s.locked && s.parked && s.queueLock == None
    requires s' == At(s, f, Validated).(queueLock := Some(f))
    ensures Inv(s')
  {
    assert forall g :: 0 <= g < |s.pc| && g != f ==> s'.pc[g] == s.pc[g];
    assert s'.pc[f] == Validated;
    ExclusiveSame(s, s', f);
    WakeSame(s, s', f);
    hide WakeOk, Exclusive;
  }

  lemma EnqueueInv(s: State, s': State, f: nat)
    requires Inv(s) && f < |s.pc| && s.pc[f] == Validated
    requires s' == At(s, f, Queued).(queue := s.queue + [f], queueLock := None)
    ensures Inv(s')
  {
    assert forall g :: 0 <= g < |s.pc| && g != f ==> s'.pc[g] == s.pc[g];
    assert s'.pc[f] == Queued;
    ExclusiveSame(s, s', f);
    WakeSame(s, s', f);
    hide WakeOk, Exclusive;
    assert s.queueLock == Some(f) && s.locked && s.parked;
    assert f !in s.queue;
  }

  lemma UnlockFastInv(s: State, s': State, f: nat)
    requires Inv(s) && f < |s.pc| && s.pc[f] == Holding && s.locked && !s.parked
    requires s' == At(s, f, Idle).(locked := false)
    ensures Inv(s')
  {
    assert forall g :: 0 <= g < |s.pc| && g != f ==> s'.pc[g] == s.pc[g];
    assert s'.pc[f] == Idle && Holds(s.pc[f]);
    WakeSame(s, s', f);
    hide WakeOk;
    assert s.queue == [];
  }

  lemma TakeInv(s: State, s': State, f: nat)
    requires Inv(s) && f < |s.pc| && s.pc[f] == UnlockSlow && s.queueLock == None
    requires s' == Take(s, f)
    ensures Inv(s')
  {
    assert Holds(s.pc[f]);
    if s.queue == [] {
      assert forall g :: 0 <= g < |s.pc| && g != f ==> s'.pc[g] == s.pc[g];
      assert s'.pc[f] == Storing(None, false);
      ExclusiveSame(s, s', f);
      WakeSame(s, s', f);
      hide WakeOk, Exclusive;
    } else {
      TakeSomeInv(s, s', f);
    }
  }

  lemma TakeSomeInv(s: State, s': State, f: nat)
    requires Inv(s) && f < |s.pc| && s.pc[f] == UnlockSlow && s.queueLock == None && s.queue != []
    requires s' == Take(s, f)
    ensures Inv(s')
  {
    var g := s.queue[0];
    assert s.pc[g] == Queued;
    assert forall h :: 0 <= h < |s.pc| && h != f && h != g ==> s'.pc[h] == s.pc[h];
    assert s'.pc[g] == Dequeued && s'.pc[f] == Storing(Some(g), s.queue[1..] != []);
    assert Holds(s.pc[f]);
    ExclusiveSame(s, s', f);
    assert Wakes(s'.pc[f], g);
    WakeAdded(s, s', f, g);
    QueueTaken(s, s', g);
    hide WakeOk, Exclusive, QueueOk;
  }

  lemma QueueTaken(s: State, s': State, g: nat)
    requires QueueOk(s) && s.queue != [] && s.queue[0] == g && |s.pc| == |s'.pc| && s'.queue == s.queue[1..]
    requires forall h :: 0 <= h < |s.pc| && h != g ==> (s'.pc[h] == Queued <==> s.pc[h] == Queued)
    requires s'.pc[g] != Queued
    ensures QueueOk(s')
  {
    assert forall i :: 0 <= i < |s'.queue| ==> s'.queue[i] == s.queue[i + 1];
    forall h | 0 <= h < |s'.pc| && s'.pc[h] == Queued
      ensures h in s'.queue
    {
      assert h in s.queue && h != g;
      var i :| 0 <= i < |s.queue| && s.queue[i] == h;
      assert s'.queue[i - 1] == h;
    }
  }

  lemma WakeAdded(s: State, s': State, f: nat, g: nat)
    requires WakeOk(s) && |s.pc| == |s'.pc| && f < |s.pc| && g < |s.pc| && f != g
    requires forall h :: 0 <= h < |s.pc| && h != f && h != g ==> s'.pc[h] == s.pc[h]
    requires s.pc[f] == UnlockSlow && s.pc[g] == Queued && s'.pc[g] == Dequeued
    requires s'.pc[f].Storing? && s'.pc[f].head == Some(g)
    ensures WakeOk(s')
  {
    forall h | 0 <= h < |s'.pc| && s'.pc[h] == Dequeued
      ensures exists u :: 0 <= u < |s'.pc| && Wakes(s'.pc[u], h)
    {
      if h == g {
        assert Wakes(s'.pc[f], g);
      } else {
        var u :| 0 <= u < |s.pc| && Wakes(s.pc[u], h);
        assert Wakes(s'.pc[u], h);
      }
    }
    assert forall u: nat, h: nat {:trigger Wakes(s'.pc[u], h)} :: u < |s.pc| && Wakes(s'.pc[u], h) ==> (u == f && h == g) || Wakes(s.pc[u], h);
  }

  lemma StoreInv(s: State, s': State, f: nat)
    requires Inv(s) && f < |s.pc| && s.pc[f].Storing?
    requires s' == At(s, f, if s.pc[f].head == None then Idle else Unparking(s.pc[f].head.value))
                   .(locked := false, parked := s.pc[f].more, queueLock := None)
    ensures Inv(s')
  {
    var pc := s.pc[f];
    assert forall g :: 0 <= g < |s.pc| && g != f ==> s'.pc[g] == s.pc[g];
    assert Holds(s.pc[f]) && !Holds(s'.pc[f]);
    assert forall g: nat :: Wakes(s'.pc[f], g) == Wakes(s.pc[f], g);
    WakeSame(s, s', f);
    assert s.queueLock == Some(f);
    if s'.queue != [] {
      var g := pc.head.value;
      assert Wakes(s.pc[f], g);
      assert s'.pc[g] == Dequeued && Contends(s'.pc[g]);
    }
    hide WakeOk;
    assert forall g :: 0 <= g < |s.pc| ==> !Holds(s'.pc[g]);
  }

  lemma UnpauseInv(s: State, s': State, f: nat, g: nat)
    requires Inv(s) && f < |s.pc| && s.pc[f] == Unparking(g) && g < |s.pc| && g != f
    requires s' == At(At(s, g, Reload), f, Idle)
    ensures Inv(s')
  {
    assert Wakes(s.pc[f], g);
    assert s.pc[g] == Dequeued;
    assert forall h :: 0 <= h < |s.pc| && h != f && h != g ==> s'.pc[h] == s.pc[h];
    assert s'.pc[g] == Reload && s'.pc[f] == Idle;
    ExclusiveSame(s, s', f);
    WakeRemoved(s, s', f, g);
    hide WakeOk, Exclusive;
    assert Contends(s'.pc[g]);
  }

  lemma WakeRemoved(s: State, s': State, f: nat, g: nat)
    requires WakeOk(s) && |s.pc| == |s'.pc| && f < |s.pc| && g < |s.pc| && f != g
    requires forall h :: 0 <= h < |s.pc| && h != f && h != g ==> s'.pc[h] == s.pc[h]
    requires s.pc[f] == Unparking(g) && s.pc[g] == Dequeued && s'.pc[g] == Reload && s'.pc[f] == Idle
    ensures WakeOk(s')
  {
    assert Wakes(s.pc[f], g);
    forall h | 0 <= h < |s'.pc| && s'.pc[h] == Dequeued
      ensures exists u :: 0 <= u < |s'.pc| && Wakes(s'.pc[u], h)
    {
      var u :| 0 <= u < |s.pc| && Wakes(s.pc[u], h);
      assert u != f && u != g;
      assert Wakes(s'.pc[u], h);
    }
    assert forall u: nat, h: nat {:trigger Wakes(s'.pc[u], h)} :: u < |s.pc| && Wakes(s'.pc[u], h) ==> u != f && u != g && Wakes(s.pc[u], h) && h != g && h != f;
  }

  /** Every step of every fiber keeps the invariant. */
  lemma NextInv(s: State, s': State, step: Step)
    requires Inv(s) && Next(s, s', step)
    ensures Inv(s')
  {
    hide Inv;
    var f := step.f;
    match step
    case LockFast(_) => AcquireInv(s, s', f);
    case LockFail(_) => PlainInv(s, s', f, Reload);
    case TryLock(_) => AcquireInv(s, s', f);
    case Load(_) => PlainInv(s, s', f, Loaded(s.locked, s.parked));
    case Acquire(_) => AcquireInv(s, s', f);
    case Spin(_) => PlainInv(s, s', f, Reload);
    case SetParked(_) => PlainInv(s, s', f, ToPark);
    case ExchangeFail(_) => PlainInv(s, s', f, Loaded(s.locked, s.parked));
    case FoundParked(_) => PlainInv(s, s', f, ToPark);
    case ParkValidate(_) =>
      if s.locked && s.parked {
        ValidateInv(s, s', f);
      } else {
        PlainInv(s, s', f, Reload);
      }
    case ParkEnqueue(_) => EnqueueInv(s, s', f);
    case UnlockFast(_) => UnlockFastInv(s, s', f);
    case UnlockMiss(_) => PlainInv(s, s', f, UnlockSlow);
    case UnparkTake(_) => TakeInv(s, s', f);
    case UnparkStore(_) => StoreInv(s, s', f);
    case Unpause(_) => UnpauseInv(s, s', f, s.pc[f].fiber);
  }

  // ---- whole runs

  ghost predicate Steps(s: State, s': State) {
    exists step: Step :: Next(s, s', step)
  }

  lemma StepsInv(s: State, s': State)
    requires Inv(s) && Steps(s, s')
    ensures Inv(s')
  {
    hide Inv, Next;
    var step :| Next(s, s', step);
    NextInv(s, s', step);
  }

  ghost predicate IsRun(run: seq<State>) {
    && |run| > 0 && Init(run[0])
    && forall i :: 0 < i < |run| ==> Steps(run[i - 1], run[i])
  }

  lemma {:induction false} RunInv(run: seq<State>, i: nat)
    requires IsRun(run) && i < |run|
    ensures Inv(run[i])
  {
    hide Inv, Steps;
    if i == 0 {
      InitInv(run[0]);
    } else {
      RunInv(run, i - 1);
      StepsInv(run[i - 1], run[i]);
    }
  }

  /** In every state of every run: mutual exclusion, the parked bit, and no lost wake-up. */
  lemma MutexSafe(run: seq<State>, i: nat)
    requires IsRun(run) && i < |run|
    ensures var s := run[i];
      && (forall f, g :: 0 <= f < |s.pc| && 0 <= g < |s.pc| && s.pc[f] == Holding && s.pc[g] == Holding ==> f == g)
      && (forall f :: 0 <= f < |s.pc| && s.pc[f] == Holding ==> s.locked)
      && (s.queue != [] ==> s.parked)
      && (!s.locked && s.queue != [] ==> exists f :: 0 <= f < |s.pc| && Contends(s.pc[f]))
  {
    RunInv(run, i);
    var s := run[i];
    hide QueueOk, SectionOk, WakeOk;
    assert forall f :: 0 <= f < |s.pc| && s.pc[f] == Holding ==> Holds(s.pc[f]);
  }

  ghost predicate Path(trace: seq<State>) {
    |trace| > 0 && forall i :: 0 < i < |trace| ==> Steps(trace[i - 1], trace[i])
  }

  lemma Extend(trace: seq<State>, step: Step, s: State)
    requires Path(trace) && Next(trace[|trace| - 1], s, step)
    ensures Path(trace + [s])
  {
    hide Next;
    var longer := trace + [s];
    forall i | 0 < i < |longer|
      ensures Steps(longer[i - 1], longer[i])
    {
      if i == |trace| {
        assert Next(longer[i - 1], longer[i], step);
      } else {
        assert longer[i - 1] == trace[i - 1] && longer[i] == trace[i];
      }
    }
  }

  /** A fiber about to reload a free mutex takes it in two steps. */
  lemma Reacquire(trace: seq<State>, f: nat) returns (longer: seq<State>)
    requires Path(trace)
    requires var s := trace[|trace| - 1]; f < |s.pc| && s.pc[f] == Reload && !s.locked
    ensures Path(longer) && longer[0] == trace[0] && |longer| == |trace| + 2
    ensures var t := longer[|longer| - 1]; f < |t.pc| && t.locked && t.pc[f] == Holding
  {
    hide Steps;
    var s := trace[|trace| - 1];
    var s1 := At(s, f, Loaded(s.locked, s.parked));
    Extend(trace, Load(f), s1);
    var s2 := At(s1, f, Holding).(locked := true);
    Extend(trace + [s1], Acquire(f), s2);
    longer := trace + [s1] + [s2];
  }

  /**
   From any state of a run in which the mutex is free and fibers are queued, a fiber that is not
   asleep can take the mutex within four steps.
   */
  lemma FreeMutexIsTaken(run: seq<State>, i: nat) returns (trace: seq<State>, f: nat)
    requires IsRun(run) && i < |run| && !run[i].locked && run[i].queue != []
    ensures Path(trace) && trace[0] == run[i] && |trace| <= 5
    ensures var t := trace[|trace| - 1]; f < |t.pc| && t.locked && t.pc[f] == Holding
  {
    var s := run[i];
    RunInv(run, i);
    hide Steps, Exclusive, QueueOk, SectionOk, WakeOk, ParkedOk, Next, IsRun;
    f :| f < |s.pc| && Contends(s.pc[f]);
    match s.pc[f]
    case Reload => trace := Reacquire([s], f);
    case Loaded(l, p) => trace := FromLoaded(s, f);
    case ToPark =>
      SectionLocked(s);
      trace := FromPark(s, f);
    case Dequeued =>
      var u := Waker(s, f);
      trace := FromDequeued(s, f, u);
  }

  lemma FromLoaded(s: State, f: nat) returns (trace: seq<State>)
    requires f < |s.pc| && s.pc[f].Loaded? && !s.locked
    ensures Path(trace) && trace[0] == s && |trace| <= 5
    ensures var t := trace[|trace| - 1]; f < |t.pc| && t.locked && t.pc[f] == Holding
  {
    hide Steps;
    trace := [s];
    if s.pc[f].l {
      Extend(trace, Spin(f), At(s, f, Reload));
      trace := Reacquire(trace + [At(s, f, Reload)], f);
    } else {
      var s1 := At(s, f, Loaded(s.locked, s.parked));
      Extend(trace, ExchangeFail(f), s1);
      var s2 := At(s1, f, Holding).(locked := true);
      Extend(trace + [s1], Acquire(f), s2);
      trace := trace + [s1] + [s2];
    }
  }

  lemma FromPark(s: State, f: nat) returns (trace: seq<State>)
    requires f < |s.pc| && s.pc[f] == ToPark && !s.locked && s.queueLock == None
    ensures Path(trace) && trace[0] == s && |trace| <= 5
    ensures var t := trace[|trace| - 1]; f < |t.pc| && t.locked && t.pc[f] == Holding
  {
    hide Steps;
    Extend([s], ParkValidate(f), At(s, f, Reload));
    trace := Reacquire([s] + [At(s, f, Reload)], f);
  }

  lemma FromDequeued(s: State, f: nat, u: nat) returns (trace: seq<State>)
    requires f < |s.pc| && u < |s.pc| && u != f && s.pc[u] == Unparking(f) && !s.locked
    ensures Path(trace) && trace[0] == s && |trace| <= 5
    ensures var t := trace[|trace| - 1]; f < |t.pc| && t.locked && t.pc[f] == Holding
  {
    hide Steps;
    var s1 := At(At(s, f, Reload), u, Idle);
    Extend([s], Unpause(u), s1);
    trace := Reacquire([s] + [s1], f);
  }

  /** The queue's lock is only held while the mutex is. */
  lemma SectionLocked(s: State)
    requires Inv(s)
    ensures s.queueLock != None ==> s.locked
  {
    hide QueueOk, WakeOk, NoLostWakeup;
    if s.queueLock != None {
      var f := s.queueLock.value;
      assert InQueueSection(s.pc[f]);
      assert Holds(s.pc[f]) || s.pc[f] == Validated;
    }
  }

  lemma Waker(s: State, g: nat) returns (u: nat)
    requires Inv(s) && !s.locked && g < |s.pc| && s.pc[g] == Dequeued
    ensures u < |s.pc| && u != g && s.pc[u] == Unparking(g)
  {
    hide QueueOk, SectionOk, NoLostWakeup;
    u :| 0 <= u < |s.pc| && Wakes(s.pc[u], g);
    assert !Holds(s.pc[u]);
  }
}
