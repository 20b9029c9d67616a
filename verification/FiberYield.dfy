/**
 The yield loop: follow the skip pointers, counting down the fibers that still have turns to
 sleep, until one that has none; and what a fiber can rely on when it sleeps.
 */
module FiberYield {
  import R = FiberRing

  function Sum(s: seq<nat>): (n: nat) {
    if s == [] then 0 else s[0] + Sum(s[1..])
  }

  lemma {:induction false} SumLess(s: seq<nat>, i: nat, v: nat)
    requires i < |s| && v < s[i]
    ensures Sum(s[i := v]) < Sum(s)
    decreases |s|
  {
    if i == 0 {
      assert s[i := v][1..] == s[1..];
    } else {
      assert s[i := v][1..] == s[1..][i - 1 := v];
      SumLess(s[1..], i - 1, v);
    }
  }

  predicate Pointers(nextAvail: seq<nat>, n: nat) {
    |nextAvail| == n && forall i :: 0 <= i < n ==> nextAvail[i] < n
  }

  /** Where the loop ends, and the sleep counts it leaves. */
  function Resume(cycles: seq<nat>, nextAvail: seq<nat>, cur: nat): (r: (seq<nat>, nat))
    requires Pointers(nextAvail, |cycles|) && cur < |cycles|
    ensures |r.0| == |cycles| && r.1 < |cycles| && r.0[r.1] == 0
    decreases Sum(cycles)
  {
    var i := nextAvail[cur];
    if cycles[i] == 0 then (cycles, i)
    else
      SumLess(cycles, i, cycles[i] - 1);
      Resume(cycles[i := cycles[i] - 1], nextAvail, i)
  }

  class Scheduler {
    var cycles: seq<nat>
    var nextAvail: seq<nat>
    var cur: nat

    predicate Valid()
      reads this
    {
      cur < |cycles| && Pointers(nextAvail, |cycles|)
    }

    constructor (n: nat)
      requires n > 0
      ensures Valid() && cur == 0 && cycles == seq(n, i => 0)
      ensures nextAvail == seq(n, i requires 0 <= i < n => R.Following(n, i))
    {
      cycles := seq(n, i => 0);
      nextAvail := seq(n, i requires 0 <= i < n => R.Following(n, i));
      cur := 0;
    }

    /** Give up the processor for `turns + 1` visits; returns when another fiber resumes. */
    method FiberSleep(turns: nat)
      requires Valid()
      modifies this`cycles, this`cur
      ensures Valid()
      ensures (cycles, cur) == Resume(old(cycles)[old(cur) := turns], nextAvail, old(cur))
    {
      cycles := cycles[cur := turns];
      ghost var goal := Resume(cycles, nextAvail, cur);
      cur := nextAvail[cur];
      while cycles[cur] != 0
        invariant Valid()
        invariant goal == if cycles[cur] == 0 then (cycles, cur)
                          else Resume(cycles[cur := cycles[cur] - 1], nextAvail, cur)
        decreases Sum(cycles)
      {
        SumLess(cycles, cur, cycles[cur] - 1);
        cycles := cycles[cur := cycles[cur] - 1];
        cur := nextAvail[cur];
      }
    }
  }

  // ---- visits, one hop at a time

  /** `visits` counts how often the loop has come to each fiber, `due` is the visit at which it
      asked to be resumed, and `running` tells whether the fiber at `pos` has control. */
  datatype State = State(cycles: seq<nat>, visits: seq<nat>, due: seq<nat>, pos: nat, running: bool)

  datatype Step = Sleep(turns: nat) | Hop

  /** The loop comes to the next fiber: resumed if it has no turns left, counted down otherwise. */
  function Hopped(nextAvail: seq<nat>, s: State): State
    requires s.pos < |s.cycles| == |s.visits| && Pointers(nextAvail, |s.cycles|)
  {
    var i := nextAvail[s.pos];
    s.(pos := i, visits := s.visits[i := s.visits[i] + 1], running := s.cycles[i] == 0,
       cycles := if s.cycles[i] == 0 then s.cycles else s.cycles[i := s.cycles[i] - 1])
  }

  predicate Next(nextAvail: seq<nat>, s: State, s': State, step: Step) {
    var n := |s.cycles|;
    && |s.visits| == n && |s.due| == n && s.pos < n && Pointers(nextAvail, n)
    && match step
       case Sleep(turns) =>
         s.running && turns > 0
         && s' == s.(cycles := s.cycles[s.pos := turns - 1], due := s.due[s.pos := s.visits[s.pos] + turns], running := false)
       case Hop => !s.running && s' == Hopped(nextAvail, s)
  }

  /** Hops from `s` to the first fiber that is to run, at `t`. */
  ghost predicate Hops(nextAvail: seq<nat>, s: State, t: State, count: nat)
    decreases count
  {
    !s.running && count > 0 && exists u: State ::
      Next(nextAvail, s, u, Hop) && if u.running then u == t && count == 1 else Hops(nextAvail, u, t, count - 1)
  }

  /** The yield loop is a run of hops: where it ends, and the counts it leaves, are those of the
      first hop that brings a fiber to run. */
  lemma {:induction false} ResumeHops(nextAvail: seq<nat>, s: State) returns (t: State, count: nat)
    requires !s.running && s.pos < |s.cycles| == |s.visits| == |s.due| && Pointers(nextAvail, |s.cycles|)
    ensures Hops(nextAvail, s, t, count) && t.running && (t.cycles, t.pos) == Resume(s.cycles, nextAvail, s.pos)
    decreases Sum(s.cycles)
  {
    var u := Hopped(nextAvail, s);
    assert Next(nextAvail, s, u, Hop);
    if u.running {
      t, count := u, 1;
    } else {
      SumLess(s.cycles, u.pos, s.cycles[u.pos] - 1);
      hide Next;
      var rest;
      t, rest := ResumeHops(nextAvail, u);
      count := rest + 1;
    }
  }

  lemma {:induction false} HopsCounted(nextAvail: seq<nat>, s: State, t: State, count: nat)
    requires Hops(nextAvail, s, t, count) && Counted(s)
    ensures Counted(t)
    decreases count
  {
    hide Next, Counted;
    var u: State :| Next(nextAvail, s, u, Hop) && if u.running then u == t && count == 1 else Hops(nextAvail, u, t, count - 1);
    CountedNext(nextAvail, s, u, Hop);
    if !u.running {
      HopsCounted(nextAvail, u, t, count - 1);
    }
  }

  /** What `FiberSleep` computes from a state of such a run: the running fiber asks for its turns,
      and the fiber that comes to run has had exactly the visits that it asked for. */
  lemma SleepResumes(nextAvail: seq<nat>, s: State, turns: nat) returns (asleep: State, t: State, count: nat)
    requires Counted(s) && s.running && Pointers(nextAvail, |s.cycles|)
    ensures Next(nextAvail, s, asleep, Sleep(turns + 1)) && Hops(nextAvail, asleep, t, count)
    ensures (t.cycles, t.pos) == Resume(s.cycles[s.pos := turns], nextAvail, s.pos)
    ensures Counted(t) && t.running && t.visits[t.pos] == t.due[t.pos]
  {
    asleep := s.(cycles := s.cycles[s.pos := turns], due := s.due[s.pos := s.visits[s.pos] + (turns + 1)], running := false);
    CountedNext(nextAvail, s, asleep, Sleep(turns + 1));
    t, count := ResumeHops(nextAvail, asleep);
    HopsCounted(nextAvail, asleep, t, count);
  }

  ghost predicate Steps(nextAvail: seq<nat>, s: State, s': State) {
    exists step: Step :: Next(nextAvail, s, s', step)
  }

  /** The first fiber is running, the others are ready for their first visit. */
  predicate Init(s: State) {
    var n := |s.cycles|;
    && |s.visits| == n && |s.due| == n && s.pos == 0 && n > 0 && s.running
    && forall i :: 0 <= i < n ==> s.cycles[i] == 0 && s.visits[i] == 0 && s.due[i] == if i == 0 then 0 else 1
  }

  /** The skip pointers may differ from step to step, as fibers are paused and woken. */
  ghost predicate IsRun(pointers: seq<seq<nat>>, run: seq<State>) {
    && |run| > 0 && Init(run[0]) && |pointers| == |run|
    && forall i :: 0 < i < |run| ==> Steps(pointers[i], run[i - 1], run[i])
  }

  /** Turns left, counted in visits, except for the running fiber, which is resumed when due. */
  predicate Counted(s: State) {
    var n := |s.cycles|;
    && |s.visits| == n && |s.due| == n && s.pos < n
    && (forall i :: 0 <= i < n && !(s.running && i == s.pos) ==> s.visits[i] + s.cycles[i] + 1 == s.due[i])
    && (s.running ==> s.visits[s.pos] == s.due[s.pos])
  }

  lemma CountedNext(nextAvail: seq<nat>, s: State, s': State, step: Step)
    requires Counted(s) && Next(nextAvail, s, s', step)
    ensures Counted(s')
  {
  }

  /** A fiber that calls `sleep(n)` runs again at exactly its n-th visit, and not before. */
  lemma {:induction false} SleepExact(pointers: seq<seq<nat>>, run: seq<State>, i: nat)
    requires IsRun(pointers, run) && i < |run|
    ensures var s := run[i];
      && Counted(s)
      && (s.running ==> s.visits[s.pos] == s.due[s.pos])
      && (forall f :: 0 <= f < |s.cycles| && !(s.running && f == s.pos) ==> s.visits[f] < s.due[f])
  {
    hide Next;
    if i > 0 {
      SleepExact(pointers, run, i - 1);
      assert Steps(pointers[i], run[i - 1], run[i]);
      var step :| Next(pointers[i], run[i - 1], run[i], step);
      CountedNext(pointers[i], run[i - 1], run[i], step);
    }
  }

  // ---- lockstep

  predicate NonePaused(nextAvail: seq<nat>) {
    forall i :: 0 <= i < |nextAvail| ==> nextAvail[i] == R.Following(|nextAvail|, i)
  }

  /** After `round` full turns, the fibers up to the current one have had one visit more. */
  predicate InRound(s: State, round: nat) {
    |s.visits| == |s.cycles| && s.pos < |s.cycles|
    && forall i :: 0 <= i < |s.visits| ==> s.visits[i] == if 1 <= i <= s.pos then round + 1 else round
  }

  lemma RoundNext(nextAvail: seq<nat>, s: State, s': State, step: Step, round: nat) returns (round': nat)
    requires Next(nextAvail, s, s', step) && NonePaused(nextAvail) && InRound(s, round)
    ensures InRound(s', round')
  {
    round' := if step == Hop && s'.pos == 0 then round + 1 else round;
  }

  /** While no fiber is paused, no fiber gets more than one visit ahead of another. */
  lemma {:induction false} Lockstep(pointers: seq<seq<nat>>, run: seq<State>, i: nat) returns (round: nat)
    requires IsRun(pointers, run) && i < |run| && forall k :: 0 <= k < |run| ==> NonePaused(pointers[k])
    ensures InRound(run[i], round)
    ensures forall f, g :: 0 <= f < |run[i].visits| && 0 <= g < |run[i].visits| ==> run[i].visits[f] <= run[i].visits[g] + 1
  {
    hide Next;
    if i == 0 {
      round := 0;
    } else {
      var before := Lockstep(pointers, run, i - 1);
      assert Steps(pointers[i], run[i - 1], run[i]);
      var step :| Next(pointers[i], run[i - 1], run[i], step);
      round := RoundNext(pointers[i], run[i - 1], run[i], step, before);
    }
  }
}
