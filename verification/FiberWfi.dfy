/**
 Waiting for interrupts: `wait_alarm` on one hart against `fire_alarm` from any number of
 threads, over a mutex and a condition variable whose queue has its own lock.

 The mutex is taken and released in single steps, as its own proof of mutual exclusion allows.
 */
module FiberWfi {
  import opened Wrappers

  /** Where the hart is in `wait_alarm`. */
  datatype Waiter =
    | Running
    | Locking
    | Checking
    | Parking
    | Releasing
    | Asleep
    | Relocking
    | Leaving

  /** Where a thread is in `fire_alarm`. */
  datatype Firer =
    | Idle
    | Wanting(mask: nat)
    | Setting(mask: nat)
    | Notifying
    | Unparking
    | Waking
    | Unlocking

  datatype Owner = Hart | Thread(id: nat)

  datatype State = State(
    mutex: Option<Owner>,
    alarm: nat,
    hasQueue: bool,
    queued: bool,
    hart: Waiter,
    threads: seq<Firer>)

  datatype Step =
    | ClearAlarm
    | WaitLock
    | WaitLocked
    | WaitCheck
    | WaitPark
    | WaitRelease
    | WaitRelocked
    | WaitReturn
    | Fire(t: nat, mask: nat)
    | FireLocked(t: nat)
    | FireSet(t: nat, alarm: nat)
    | FireNotify(t: nat)
    | FireUnpark(t: nat)
    | FireWake(t: nat)
    | FireUnlock(t: nat)

  function SetThread(s: State, t: nat, f: Firer): State
    requires t < |s.threads|
  {
    s.(threads := s.threads[t := f])
  }

  /** One atomic access. A fetch-or with a mask leaves a value that is zero only if both were. */
  predicate Next(s: State, s': State, step: Step) {
    match step
    case ClearAlarm => s.hart == Running && s' == s.(alarm := 0)
    case WaitLock => s.hart == Running && s' == s.(hart := Locking)
    case WaitLocked => s.hart == Locking && s.mutex == None && s' == s.(hart := Checking, mutex := Some(Hart))
    case WaitCheck => s.hart == Checking && s' == s.(hart := if s.alarm != 0 then Leaving else Parking)
    case WaitPark => s.hart == Parking && s' == s.(hart := Releasing, hasQueue := true, queued := true)
    case WaitRelease => s.hart == Releasing && s' == s.(hart := Asleep, mutex := None)
    case WaitRelocked => s.hart == Relocking && s.mutex == None && s' == s.(hart := Leaving, mutex := Some(Hart))
    case WaitReturn => s.hart == Leaving && s' == s.(hart := Running, mutex := None)
    case Fire(t, mask) => t < |s.threads| && s.threads[t] == Idle && s' == SetThread(s, t, Wanting(mask))
    case FireLocked(t) =>
      t < |s.threads| && s.threads[t].Wanting? && s.mutex == None
      && s' == SetThread(s, t, Setting(s.threads[t].mask)).(mutex := Some(Thread(t)))
    case FireSet(t, alarm) =>
      t < |s.threads| && s.threads[t].Setting? && (alarm == 0 <==> s.alarm == 0 && s.threads[t].mask == 0)
      && s' == SetThread(s, t, Notifying).(alarm := alarm)
    case FireNotify(t) =>
      t < |s.threads| && s.threads[t] == Notifying
      && s' == SetThread(s, t, if s.hasQueue then Unparking else Unlocking)
    case FireUnpark(t) =>
      t < |s.threads| && s.threads[t] == Unparking
      && s' == SetThread(s, t, if s.queued then Waking else Unlocking).(queued := false, hasQueue := false)
    case FireWake(t) =>
      t < |s.threads| && s.threads[t] == Waking && s.hart == Asleep
      && s' == SetThread(s, t, Unlocking).(hart := Relocking)
    case FireUnlock(t) =>
      t < |s.threads| && s.threads[t] == Unlocking && s' == SetThread(s, t, Idle).(mutex := None)
  }

  predicate Init(s: State) {
    s.mutex == None && s.alarm == 0 && !s.hasQueue && !s.queued && s.hart == Running
    && forall t :: 0 <= t < |s.threads| ==> s.threads[t] == Idle
  }

  // ---- the invariant

  predicate HartOwns(h: Waiter) { h == Checking || h == Parking || h == Releasing || h == Leaving }
  predicate ThreadOwns(f: Firer) { !f.Idle? && !f.Wanting? }

  /** Exactly the owner of the mutex is in a section that needs it. */
  predicate OwnerOk(s: State) {
    && (HartOwns(s.hart) <==> s.mutex == Some(Hart))
    && (forall t: nat :: t < |s.threads| ==> (ThreadOwns(s.threads[t]) <==> s.mutex == Some(Thread(t))))
    && (s.mutex.Some? && s.mutex.value.Thread? ==> s.mutex.value.id < |s.threads|)
  }

  /** A thread that has set the alarm and has yet to look for a sleeper. */
  predicate WillNotify(s: State) {
    exists t: nat :: t < |s.threads| && (s.threads[t] == Notifying || s.threads[t] == Unparking)
  }

  predicate QueueOk(s: State) {
    && (s.queued ==> s.hasQueue && (s.hart == Releasing || s.hart == Asleep))
    && (s.hart == Releasing ==> s.queued)
    && (s.hart == Asleep && !s.queued ==> exists t: nat :: t < |s.threads| && s.threads[t] == Waking)
    && (forall t: nat :: t < |s.threads| && s.threads[t] == Waking ==> s.hart == Asleep && !s.queued)
    && (s.hart == Parking || s.hart == Releasing ==> s.alarm == 0)
    && (s.queued && s.alarm != 0 ==> WillNotify(s))
  }

  predicate Inv(s: State) { OwnerOk(s) && QueueOk(s) }

  lemma InitInv(s: State)
    requires Init(s)
    ensures Inv(s)
  {
  }

  lemma OwnerNext(s: State, s': State, step: Step)
    requires Inv(s) && Next(s, s', step)
    ensures OwnerOk(s')
  {
    hide WillNotify;
  }

  /** Only one thread can be in a section that needs the mutex. */
  lemma Alone(s: State, t: nat, u: nat)
    requires OwnerOk(s) && t < |s.threads| && u < |s.threads| && ThreadOwns(s.threads[t])
    ensures u != t ==> !ThreadOwns(s.threads[u])
    ensures !HartOwns(s.hart)
  {
  }

  lemma HartNext(s: State, s': State, step: Step)
    requires Inv(s) && Next(s, s', step) && s'.threads == s.threads
    ensures QueueOk(s')
  {
    if WillNotify(s) {
      assert WillNotify(s');
    }
    hide WillNotify;
    assert forall t: nat :: t < |s.threads| && s.threads[t] == Waking ==> ThreadOwns(s.threads[t]);
  }

  lemma ThreadNext(s: State, s': State, step: Step, t: nat)
    requires Inv(s) && Next(s, s', step) && t < |s.threads| && s'.threads == s.threads[t := s'.threads[t]] && |s'.threads| == |s.threads|
    requires step.Fire? || step.FireLocked? || step.FireSet? || step.FireNotify? || step.FireUnpark? || step.FireWake? || step.FireUnlock?
    requires step.t == t
    ensures QueueOk(s')
  {
    if ThreadOwns(s.threads[t]) {
      forall u: nat | u < |s.threads|
        ensures u != t ==> !ThreadOwns(s.threads[u])
      {
        Alone(s, t, u);
      }
    }
    assert forall u: nat :: u < |s.threads| && u != t ==> s'.threads[u] == s.threads[u];
  }

  lemma NextInv(s: State, s': State, step: Step)
    requires Inv(s) && Next(s, s', step)
    ensures Inv(s')
  {
    OwnerNext(s, s', step);
    if step.Fire? || step.FireLocked? || step.FireSet? || step.FireNotify? || step.FireUnpark? || step.FireWake? || step.FireUnlock? {
      ThreadNext(s, s', step, step.t);
    } else {
      HartNext(s, s', step);
    }
  }

  ghost predicate Steps(s: State, s': State) {
    exists step: Step :: Next(s, s', step)
  }

  ghost predicate IsRun(run: seq<State>) {
    |run| > 0 && Init(run[0]) && forall i :: 0 < i < |run| ==> Steps(run[i - 1], run[i])
  }

  lemma {:induction false} RunInv(run: seq<State>, i: nat)
    requires IsRun(run) && i < |run|
    ensures Inv(run[i])
  {
    hide Next, Inv;
    if i == 0 {
      InitInv(run[0]);
    } else {
      RunInv(run, i - 1);
      assert Steps(run[i - 1], run[i]);
      var step :| Next(run[i - 1], run[i], step);
      NextInv(run[i - 1], run[i], step);
    }
  }

  /** A hart is never left in the queue of a raised alarm with nobody about to wake it. */
  lemma NeverLeftAsleep(run: seq<State>, i: nat)
    requires IsRun(run) && i < |run|
    ensures run[i].queued && run[i].alarm != 0 ==> run[i].mutex != None
    ensures run[i].hart == Asleep && run[i].mutex == None ==> run[i].queued && run[i].alarm == 0
  {
    RunInv(run, i);
    var s := run[i];
    if WillNotify(s) {
      var t: nat :| t < |s.threads| && (s.threads[t] == Notifying || s.threads[t] == Unparking);
      assert ThreadOwns(s.threads[t]);
    }
    if s.hart == Asleep && !s.queued {
      var t: nat :| t < |s.threads| && s.threads[t] == Waking;
      assert ThreadOwns(s.threads[t]);
    }
  }
}
