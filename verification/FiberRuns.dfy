/**
 Runs of the fiber scheduler, one memory access at a time.

 The running fiber announces a pause and follows its skip pointer without taking the group lock.
 Waking a fiber happens on any thread, under the lock: the flag is cleared, then each fiber met on
 the way back gets its pointer stored and its flag tested. Announcements and yields may come
 between any two of these accesses; completing a pause needs the lock, so it waits for the walk.
 */
module FiberRuns {
  import opened FiberRing

  /** A wake-up of fiber `s` that has come back to fiber `p`, with the pointer of `p` stored or not. */
  datatype Walk = Idle | Walking(s: nat, p: nat, stored: bool)

  /** The ring, the running fiber, whether it has completed a pause but not yet yielded, and the
      wake-up that holds the lock. */
  datatype Sched = Sched(ring: Ring, cur: nat, leaving: bool, walk: Walk)

  datatype Step = Announce | Park | Awake | WakeStart(s: nat) | WakeStore | WakeTest | Yield

  /** Only a fiber that has announced a pause, and has not been woken since, is ever woken. */
  predicate Next(s: Sched, s': Sched, step: Step) {
    var r, cur, walk := s.ring, s.cur, s.walk;
    Shaped(r) && cur < |r.paused| &&
    match step
    case Announce => r.transit == -1 && !s.leaving && s' == s.(ring := PreparePause(r, cur))
    case Park =>
      walk == Idle && r.transit == cur && r.paused[cur] && r.nextAvail[cur] != cur
      && s' == s.(ring := FinishPause(r), leaving := true)
    case Awake => walk == Idle && r.transit == cur && !r.paused[cur] && s' == s.(ring := FinishPause(r))
    case WakeStart(f) =>
      walk == Idle && f < |r.paused| && r.paused[f]
      && s' == s.(ring := r.(paused := r.paused[f := false]), walk := Walking(f, Prev(|r.paused|, f), false))
    case WakeStore =>
      walk.Walking? && !walk.stored && walk.p < |r.paused|
      && s' == s.(ring := r.(nextAvail := r.nextAvail[walk.p := walk.s]), walk := walk.(stored := true))
    case WakeTest =>
      walk.Walking? && walk.stored && walk.p < |r.paused|
      && s' == s.(walk := if r.paused[walk.p] then Walking(walk.s, Prev(|r.paused|, walk.p), false) else Idle)
    case Yield => r.transit == -1 && s' == s.(cur := r.nextAvail[cur], leaving := false)
  }

  // ---- what holds in the middle of a walk

  /** Runnable, with fiber `t` counted in and fiber `x` left out. */
  predicate OpenBut(paused: seq<bool>, t: int, x: int, k: nat) {
    k != x && Open(paused, t, k)
  }

  predicate NearestBut(paused: seq<bool>, t: int, x: int, i: nat, j: nat) {
    OpenBut(paused, t, x, j) &&
    forall k: nat :: k < |paused| && Dist(|paused|, i, k) < Dist(|paused|, i, j) ==> !OpenBut(paused, t, x, k)
  }

  /** The nearest runnable fiber, the one in transit and the one being woken counted either way. */
  predicate Leads(r: Ring, s: nat, i: nat, j: nat) {
    || NearestBut(r.paused, -1, -1, i, j) || NearestBut(r.paused, r.transit, -1, i, j)
    || NearestBut(r.paused, -1, s, i, j) || NearestBut(r.paused, r.transit, s, i, j)
  }

  /** Fibers the walk has passed: all paused, and pointing at the fiber being woken. */
  predicate Passed(r: Ring, s: nat, w: int)
    requires Shaped(r)
  {
    forall k: nat :: k < |r.paused| && Dist(|r.paused|, k, s) < w ==> r.paused[k] && r.nextAvail[k] == s
  }

  /** Fibers the walk has not stored to. */
  predicate Ahead(r: Ring, s: nat, w: int)
    requires Shaped(r)
  {
    forall i: nat :: i < |r.paused| && Dist(|r.paused|, i, s) >= w ==> Leads(r, s, i, r.nextAvail[i])
  }

  /** Somebody can always run: while an announcement may still come, even two. */
  ghost predicate Runnable(r: Ring) {
    if r.transit == -1 then exists u: nat, v: nat :: u != v && Open(r.paused, -1, u) && Open(r.paused, -1, v)
    else exists u: nat :: Open(r.paused, -1, u)
  }

  ghost predicate WalkOk(r: Ring, s: nat, p: nat, stored: bool)
    requires Shaped(r)
  {
    && s < |r.paused| && p < |r.paused| && (!r.paused[s] || r.transit == s) && Runnable(r)
    && Passed(r, s, Dist(|r.paused|, p, s))
    && (stored ==> r.nextAvail[p] == s)
    && Ahead(r, s, Dist(|r.paused|, p, s) + if stored then 1 else 0)
  }

  ghost predicate Inv(s: Sched) {
    && Shaped(s.ring) && s.cur < |s.ring.paused|
    && (s.ring.transit == -1 || (s.ring.transit == s.cur && !s.leaving))
    && (s.ring.transit == -1 && !s.leaving ==> !s.ring.paused[s.cur])
    && match s.walk
       case Idle => Valid(s.ring)
       case Walking(f, p, stored) => WalkOk(s.ring, f, p, stored)
  }

  /** A pointer that leads somewhere leads to a fiber that runs, or to the one in transit. */
  lemma LeadsOpen(r: Ring, s: nat, i: nat, j: nat)
    requires Leads(r, s, i, j)
    ensures Open(r.paused, r.transit, j)
  {
  }

  lemma PointersOpen(s: Sched, i: nat)
    requires Inv(s) && i < |s.ring.paused|
    ensures Open(s.ring.paused, s.ring.transit, s.ring.nextAvail[i])
  {
    var r := s.ring;
    match s.walk
    case Idle =>
      assert Nearest(r.paused, -1, i, r.nextAvail[i]) || Nearest(r.paused, r.transit, i, r.nextAvail[i]);
    case Walking(f, p, stored) =>
      SamePlace(|r.paused|, p, f);
      if Dist(|r.paused|, i, f) >= Dist(|r.paused|, p, f) + if stored then 1 else 0 {
        LeadsOpen(r, f, i, r.nextAvail[i]);
      }
  }

  // ---- every step keeps it

  /** Announcing turns a runnable fiber into the one in transit, which is still counted in. */
  lemma AnnounceLeads(r: Ring, t: nat, s: nat, i: nat, j: nat)
    requires Shaped(r) && r.transit == -1 && t < |r.paused| && !r.paused[t] && Leads(r, s, i, j)
    ensures Leads(PreparePause(r, t), s, i, j)
  {
    var r' := PreparePause(r, t);
    assert forall k: nat, x: int :: OpenBut(r'.paused, t, x, k) == OpenBut(r.paused, -1, x, k);
  }

  lemma AnnounceOk(r: Ring, t: nat, s: nat, p: nat, stored: bool)
    requires Shaped(r) && r.transit == -1 && t < |r.paused| && !r.paused[t] && WalkOk(r, s, p, stored)
    ensures WalkOk(PreparePause(r, t), s, p, stored)
  {
    var r', w := PreparePause(r, t), Dist(|r.paused|, p, s) + if stored then 1 else 0;
    forall i: nat | i < |r.paused| && Dist(|r.paused|, i, s) >= w
      ensures Leads(r', s, i, r'.nextAvail[i])
    {
      AnnounceLeads(r, t, s, i, r.nextAvail[i]);
    }
    var u: nat, v: nat :| u != v && Open(r.paused, -1, u) && Open(r.paused, -1, v);
    assert Open(r'.paused, -1, if u == t then v else u);
  }

  lemma StartLeads(r: Ring, s: nat, i: nat, j: nat)
    requires Shaped(r) && s < |r.paused| && r.paused[s]
    requires Nearest(r.paused, -1, i, j) || Nearest(r.paused, r.transit, i, j)
    ensures Leads(r.(paused := r.paused[s := false]), s, i, j)
  {
    var q := r.paused[s := false];
    assert forall k: nat :: OpenBut(q, -1, s, k) == Open(r.paused, -1, k);
    if r.transit == s {
      assert forall k: nat :: OpenBut(q, r.transit, -1, k) == Open(r.paused, r.transit, k);
    } else {
      assert forall k: nat :: OpenBut(q, r.transit, s, k) == Open(r.paused, r.transit, k);
    }
  }

  lemma StartOk(s: Sched, f: nat)
    requires Inv(s) && s.walk == Idle && f < |s.ring.paused| && s.ring.paused[f]
    ensures var r := s.ring.(paused := s.ring.paused[f := false]);
      Shaped(r) && WalkOk(r, f, Prev(|r.paused|, f), false)
  {
    var r, n := s.ring, |s.ring.paused|;
    var r' := r.(paused := r.paused[f := false]);
    FirstStep(n, f);
    forall i: nat | i < n
      ensures Leads(r', f, i, r'.nextAvail[i])
    {
      StartLeads(r, f, i, r.nextAvail[i]);
    }
    forall k: nat | k < n
      ensures Dist(n, k, f) >= 1
    {
    }
    assert Open(r'.paused, -1, f);
    if r.transit == -1 {
      var u := if s.leaving then r.nextAvail[s.cur] else s.cur;
      PointersOpen(s, s.cur);
      assert u != f && Open(r'.paused, -1, u);
    }
  }

  lemma StoreOk(r: Ring, s: nat, p: nat)
    requires Shaped(r) && WalkOk(r, s, p, false)
    ensures WalkOk(r.(nextAvail := r.nextAvail[p := s]), s, p, true)
  {
    SamePlace(|r.paused|, p, s);
    DistSelf(|r.paused|, p, s);
  }

  /** A paused fiber is never the last one the walk could stop at. */
  lemma TestGoesOn(r: Ring, s: nat, p: nat)
    requires Shaped(r) && WalkOk(r, s, p, true) && r.paused[p]
    ensures WalkOk(r, s, Prev(|r.paused|, p), false)
  {
    var n := |r.paused|;
    var u: nat :| Open(r.paused, -1, u);
    DistSelf(n, p, s);
    DistSelf(n, u, s);
    SamePlace(n, p, s);
    assert Dist(n, u, s) > Dist(n, p, s);
    DistPrev(n, p, s);
  }

  /** Past the stop, the woken fiber is too far to matter. */
  lemma StopLeads(r: Ring, s: nat, q: nat, i: nat, j: nat)
    requires Shaped(r) && s < |r.paused| && q < |r.paused| && i < |r.paused| && !r.paused[q]
    requires Leads(r, s, i, j) && Dist(|r.paused|, i, s) > Dist(|r.paused|, q, s)
    ensures Nearest(r.paused, -1, i, j) || Nearest(r.paused, r.transit, i, j)
  {
    var n := |r.paused|;
    DistBetween(n, i, q, s);
    DistSelf(n, q, s);
    DistSelf(n, i, s);
    assert q != s;
    assert OpenBut(r.paused, -1, s, q) && OpenBut(r.paused, r.transit, s, q);
    if NearestBut(r.paused, -1, s, i, j) {
      Uncut(r.paused, -1, s, i, j, q);
    } else if NearestBut(r.paused, r.transit, s, i, j) {
      Uncut(r.paused, r.transit, s, i, j, q);
    } else if NearestBut(r.paused, -1, -1, i, j) {
      Uncut(r.paused, -1, -1, i, j, q);
    } else {
      Uncut(r.paused, r.transit, -1, i, j, q);
    }
  }

  lemma Uncut(paused: seq<bool>, t: int, x: int, i: nat, j: nat, q: nat)
    requires i < |paused| && q < |paused| && NearestBut(paused, t, x, i, j) && OpenBut(paused, t, x, q)
    requires 0 <= x < |paused| ==> Dist(|paused|, i, x) > Dist(|paused|, i, q)
    ensures Nearest(paused, t, i, j)
  {
    forall k: nat | k < |paused| && Dist(|paused|, i, k) < Dist(|paused|, i, j)
      ensures !Open(paused, t, k)
    {
      assert !OpenBut(paused, t, x, k);
    }
  }

  /** When the walk stops, every pointer is as it should be again. */
  lemma TestStops(r: Ring, s: nat, p: nat)
    requires Shaped(r) && WalkOk(r, s, p, true) && !r.paused[p]
    ensures Valid(r)
  {
    var n := |r.paused|;
    forall i: nat | i < n
      ensures r.nextAvail[i] < n && (Nearest(r.paused, -1, i, r.nextAvail[i]) || Nearest(r.paused, r.transit, i, r.nextAvail[i]))
    {
      SamePlace(n, p, s);
      if Dist(n, i, s) > Dist(n, p, s) {
        StopLeads(r, s, p, i, r.nextAvail[i]);
      } else {
        PassedNearest(r, s, p, i);
      }
    }
  }

  lemma PassedNearest(r: Ring, s: nat, p: nat, i: nat)
    requires Shaped(r) && WalkOk(r, s, p, true) && i < |r.paused| && Dist(|r.paused|, i, s) <= Dist(|r.paused|, p, s)
    ensures r.nextAvail[i] == s
    ensures Nearest(r.paused, if r.paused[s] then s else -1, i, s)
  {
    var n := |r.paused|;
    SamePlace(n, p, s);
    forall k: nat | k < n && Dist(n, i, k) < Dist(n, i, s)
      ensures r.paused[k] && k != s
    {
      DistBetween(n, i, k, s);
      DistSelf(n, i, k);
    }
  }

  lemma NextInv(s: Sched, s': Sched, step: Step)
    requires Inv(s) && Next(s, s', step)
    ensures Inv(s')
  {
    var r, cur, walk := s.ring, s.cur, s.walk;
    hide WalkOk, Valid, FinishPause;
    match step
    case Announce =>
      if walk == Idle {
        PrepareValid(r, cur);
      } else {
        AnnounceOk(r, cur, walk.s, walk.p, walk.stored);
      }
    case Park => FinishKeeps(r);
    case Awake => FinishKeeps(r);
    case WakeStart(f) => StartOk(s, f);
    case WakeStore => StoreOk(r, walk.s, walk.p);
    case WakeTest =>
      if r.paused[walk.p] {
        TestGoesOn(r, walk.s, walk.p);
      } else {
        TestStops(r, walk.s, walk.p);
      }
    case Yield => PointersOpen(s, cur);
  }

  lemma FinishKeeps(r: Ring)
    requires Valid(r) && r.transit >= 0 && (r.paused[r.transit] ==> r.nextAvail[r.transit] != r.transit)
    ensures Valid(FinishPause(r)) && FinishPause(r).paused == r.paused && FinishPause(r).transit == -1
  {
    FinishValid(r);
  }

  // ---- whole runs

  ghost predicate Steps(s: Sched, s': Sched) {
    exists step: Step :: Next(s, s', step)
  }

  predicate Init(s: Sched) {
    AllRunning(s.ring) && s.cur < |s.ring.paused| && !s.leaving && s.walk == Idle
  }

  ghost predicate IsRun(run: seq<Sched>) {
    |run| > 0 && Init(run[0]) && forall i :: 0 < i < |run| ==> Steps(run[i - 1], run[i])
  }

  lemma {:induction false} RunInv(run: seq<Sched>, i: nat)
    requires IsRun(run) && i < |run|
    ensures Inv(run[i])
  {
    hide Next, Valid, WalkOk;
    if i == 0 {
      AllRunningValid(run[0].ring);
    } else {
      RunInv(run, i - 1);
      assert Steps(run[i - 1], run[i]);
      var step :| Next(run[i - 1], run[i], step);
      NextInv(run[i - 1], run[i], step);
    }
  }

  /**
   In any run, at every access: each skip pointer leads to a fiber that is not paused, or to the
   one in transit; the running fiber is not paused unless it is itself on the way into a pause;
   so a yield never lands on a parked fiber. Whenever no wake-up is under way, each pointer leads
   to the nearest such fiber.
   */
  lemma NeverOnParked(run: seq<Sched>, i: nat)
    requires IsRun(run) && i < |run|
    ensures var s := run[i]; var r := s.ring;
      && Shaped(r) && s.cur < |r.paused|
      && (forall k: nat :: k < |r.paused| ==> Open(r.paused, r.transit, r.nextAvail[k]))
      && (r.paused[s.cur] ==> r.transit == s.cur || s.leaving)
      && (r.transit == -1 ==> !r.paused[r.nextAvail[s.cur]])
      && (s.walk == Idle ==> Valid(r))
  {
    RunInv(run, i);
    var s := run[i];
    hide Valid, WalkOk;
    forall k: nat | k < |s.ring.paused|
      ensures Open(s.ring.paused, s.ring.transit, s.ring.nextAvail[k])
    {
      PointersOpen(s, k);
    }
  }

  /** A wake-up always has a fiber to stop at, no more than one turn away. */
  lemma WalkEnds(run: seq<Sched>, i: nat)
    requires IsRun(run) && i < |run| && run[i].walk.Walking?
    ensures var s := run[i]; var n := |s.ring.paused|;
      && s.walk.s < n && s.walk.p < n
      && exists u: nat :: u < n && !s.ring.paused[u] && Dist(n, s.walk.p, s.walk.s) <= Dist(n, u, s.walk.s) <= n
  {
    RunInv(run, i);
    var r, f, p := run[i].ring, run[i].walk.s, run[i].walk.p;
    var u: nat :| Open(r.paused, -1, u);
    DistSelf(|r.paused|, u, f);
  }
}
