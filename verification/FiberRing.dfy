/**
 The ring of fibers that one thread schedules, with its skip pointers.

 Fibers are numbered in the order they were added, which is the order of the ring. Each keeps
 a pointer to the nearest following fiber that is not paused. Pausing is announced before the
 group lock is taken, so one fiber, the running one, may be in transit: already marked as
 paused while the pointers still lead to it.
 */
module FiberRing {
  /** Steps from `i` forward to `j` around a ring of `n`; a full turn leads back to `i`. */
  function Dist(n: nat, i: nat, j: nat): (d: int) {
    if j > i then j - i else j - i + n
  }

  function Prev(n: nat, i: nat): (p: nat)
    requires i < n
    ensures p < n
  {
    if i == 0 then n - 1 else i - 1
  }

  /** The fibers that count as runnable, with fiber `t` counted in as well. */
  predicate Open(paused: seq<bool>, t: int, k: nat)
  {
    k < |paused| && (!paused[k] || k == t)
  }

  /** `j` is the nearest runnable fiber after `i`. */
  predicate Nearest(paused: seq<bool>, t: int, i: nat, j: nat)
  {
    Open(paused, t, j) &&
    forall k: nat :: k < |paused| && Dist(|paused|, i, k) < Dist(|paused|, i, j) ==> !Open(paused, t, k)
  }

  datatype Ring = Ring(paused: seq<bool>, nextAvail: seq<nat>, transit: int)

  predicate Shaped(r: Ring) {
    |r.nextAvail| == |r.paused| && -1 <= r.transit < |r.paused|
  }

  /** Every skip pointer leads to the nearest runnable fiber, the one in transit counted either way. */
  predicate Valid(r: Ring) {
    && Shaped(r)
    && (forall i: nat :: i < |r.paused| ==>
          r.nextAvail[i] < |r.paused| && (Nearest(r.paused, -1, i, r.nextAvail[i]) || Nearest(r.paused, r.transit, i, r.nextAvail[i])))
  }

  // ---- the backward walk

  /** Point `p` and the paused fibers before it at `v`, up to and including the first that is not
      paused, `left` fibers at most. */
  function Spread(paused: seq<bool>, nextAvail: seq<nat>, p: nat, v: nat, left: nat): (r: seq<nat>)
    requires |nextAvail| == |paused| && p < |paused|
    ensures |r| == |nextAvail|
    decreases left
  {
    if left == 0 then nextAvail
    else if !paused[p] then nextAvail[p := v]
    else Spread(paused, nextAvail[p := v], Prev(|paused|, p), v, left - 1)
  }

  lemma DistPrev(n: nat, p: nat, s: nat)
    requires p < n && s < n && Dist(n, p, s) < n
    ensures Dist(n, Prev(n, p), s) == Dist(n, p, s) + 1
  {
  }

  lemma DistSelf(n: nat, p: nat, s: nat)
    requires p < n && s < n
    ensures 1 <= Dist(n, p, s) <= n
    ensures Dist(n, p, s) == n <==> p == s
  {
  }

  /** Going from `i` by way of `k` to `s`. */
  lemma DistBetween(n: nat, i: nat, k: nat, s: nat)
    requires i < n && k < n && s < n
    ensures Dist(n, i, k) < Dist(n, i, s) ==> Dist(n, k, s) == Dist(n, i, s) - Dist(n, i, k)
    ensures Dist(n, k, s) < Dist(n, i, s) ==> Dist(n, i, k) == Dist(n, i, s) - Dist(n, k, s)
  {
  }

  /** What the walk back from `p` changes: the fibers from `p` down to the stop `q`. */
  predicate Walked(paused: seq<bool>, before: seq<nat>, after: seq<nat>, s: nat, v: nat, from: int, to: int)
    requires |before| == |after| == |paused|
  {
    forall k: nat :: k < |paused| ==>
      if from <= Dist(|paused|, k, s) <= to
      then after[k] == v && (Dist(|paused|, k, s) < to ==> paused[k])
      else after[k] == before[k]
  }

  lemma {:induction false} SpreadWalks(paused: seq<bool>, nextAvail: seq<nat>, p: nat, s: nat, v: nat, left: nat) returns (q: nat)
    requires |nextAvail| == |paused| && p < |paused| && s < |paused|
    requires left == |paused| - Dist(|paused|, p, s) + 1
    ensures q < |paused| && Dist(|paused|, p, s) <= Dist(|paused|, q, s)
    ensures !paused[q] || q == s
    ensures Walked(paused, nextAvail, Spread(paused, nextAvail, p, v, left), s, v, Dist(|paused|, p, s), Dist(|paused|, q, s))
    decreases left
  {
    var n := |paused|;
    DistSelf(n, p, s);
    if !paused[p] || p == s {
      q := p;
      assert p == s && paused[p] ==> Spread(paused, nextAvail[p := v], Prev(n, p), v, 0) == nextAvail[p := v];
      SamePlace(n, p, s);
    } else {
      DistPrev(n, p, s);
      q := SpreadWalks(paused, nextAvail[p := v], Prev(n, p), s, v, left - 1);
      SamePlace(n, p, s);
    }
  }

  lemma SamePlace(n: nat, p: nat, s: nat)
    requires p < n && s < n
    ensures forall k: nat :: k < n && Dist(n, k, s) == Dist(n, p, s) ==> k == p
  {
  }

  // ---- operations

  /** The running fiber announces, without the group lock, that it is about to pause. */
  function PreparePause(r: Ring, t: nat): Ring
    requires t < |r.paused|
  {
    r.(paused := r.paused[t := true], transit := t)
  }

  /** The fiber in transit completes its pause, finding another to run; or finds itself woken. */
  function FinishPause(r: Ring): Ring
    requires Shaped(r) && r.transit >= 0
  {
    var t := r.transit;
    if !r.paused[t] then r.(transit := -1)
    else
      r.(nextAvail := Spread(r.paused, r.nextAvail, Prev(|r.paused|, t), r.nextAvail[t], |r.paused|), transit := -1)
  }

  function Unpause(r: Ring, s: nat): Ring
    requires |r.nextAvail| == |r.paused| && s < |r.paused|
  {
    var paused := r.paused[s := false];
    r.(paused := paused, nextAvail := Spread(paused, r.nextAvail, Prev(|paused|, s), s, |paused|))
  }

  lemma PrepareValid(r: Ring, t: nat)
    requires Valid(r) && r.transit == -1 && t < |r.paused| && !r.paused[t]
    ensures Valid(PreparePause(r, t))
  {
    var r' := PreparePause(r, t);
    assert forall k: nat :: Open(r'.paused, t, k) == Open(r.paused, -1, k);
    forall i: nat | i < |r.paused|
      ensures Nearest(r'.paused, t, i, r.nextAvail[i])
    {
      assert Nearest(r.paused, -1, i, r.nextAvail[i]);
    }
  }

  lemma AwokenValid(r: Ring)
    requires Valid(r) && r.transit >= 0 && !r.paused[r.transit]
    ensures Valid(FinishPause(r))
  {
    assert forall k: nat :: Open(r.paused, r.transit, k) == Open(r.paused, -1, k);
    forall i: nat | i < |r.paused|
      ensures Nearest(r.paused, -1, i, r.nextAvail[i])
    {
      assert Nearest(r.paused, -1, i, r.nextAvail[i]) || Nearest(r.paused, r.transit, i, r.nextAvail[i]);
    }
  }

  /** Fibers the walk back from `s` reached now point at the newly runnable `s`. */
  lemma ReachedByUnpause(r: Ring, s: nat, i: nat, q: nat)
    requires Valid(r) && s < |r.paused| && i < |r.paused| && q < |r.paused|
    requires var r' := Unpause(r, s);
      Walked(r'.paused, r.nextAvail, r'.nextAvail, s, s, 1, Dist(|r.paused|, q, s)) && Dist(|r.paused|, i, s) <= Dist(|r.paused|, q, s)
    ensures var r' := Unpause(r, s); Nearest(r'.paused, -1, i, r'.nextAvail[i])
  {
    var r', n := Unpause(r, s), |r.paused|;
    DistSelf(n, i, s);
    assert r'.nextAvail[i] == s;
    forall k: nat | k < n && Dist(n, i, k) < Dist(n, i, s)
      ensures !Open(r'.paused, -1, k)
    {
      DistBetween(n, i, k, s);
      DistSelf(n, i, k);
      DistSelf(n, k, s);
    }
  }

  /** The others still find theirs no later than the stop `q`. */
  lemma BeyondStop(paused: seq<bool>, t: int, i: nat, j: nat, s: nat, q: nat)
    requires i < |paused| && j < |paused| && s < |paused| && q < |paused| && !paused[q]
    requires Nearest(paused, t, i, j) && Dist(|paused|, q, s) < Dist(|paused|, i, s)
    ensures Dist(|paused|, i, j) <= Dist(|paused|, i, q) < Dist(|paused|, i, s)
  {
    DistBetween(|paused|, i, q, s);
    DistSelf(|paused|, q, s);
    assert Open(paused, t, q);
  }

  lemma UnpauseValid(r: Ring, s: nat)
    requires Valid(r) && s < |r.paused|
    ensures Valid(Unpause(r, s))
  {
    var n, r' := |r.paused|, Unpause(r, s);
    FirstStep(n, s);
    var q := SpreadWalks(r'.paused, r.nextAvail, Prev(n, s), s, s, n);
    hide Spread;
    forall i: nat | i < n
      ensures r'.nextAvail[i] < n
      ensures Nearest(r'.paused, -1, i, r'.nextAvail[i]) || Nearest(r'.paused, r.transit, i, r'.nextAvail[i])
    {
      if Dist(n, i, s) <= Dist(n, q, s) {
        ReachedByUnpause(r, s, i, q);
      } else {
        DistSelf(n, i, s);
        DistSelf(n, q, s);
        var j := r.nextAvail[i];
        assert r'.nextAvail[i] == j && q != s && !r.paused[q];
        if Nearest(r.paused, -1, i, j) {
          BeyondStop(r.paused, -1, i, j, s, q);
          assert Nearest(r'.paused, -1, i, j);
        } else {
          BeyondStop(r.paused, r.transit, i, j, s, q);
          assert Nearest(r'.paused, r.transit, i, j);
        }
      }
    }
  }

  lemma FirstStep(n: nat, s: nat)
    requires s < n
    ensures Dist(n, Prev(n, s), s) == 1
  {
  }

  /** What the fiber in transit points at is what it would point at once paused. */
  lemma OwnNext(r: Ring)
    requires Valid(r) && r.transit >= 0 && r.paused[r.transit] && r.nextAvail[r.transit] != r.transit
    ensures Nearest(r.paused, -1, r.transit, r.nextAvail[r.transit])
  {
    var t, n := r.transit, |r.paused|;
    var m := r.nextAvail[t];
    DistSelf(n, t, m);
    if Nearest(r.paused, t, t, m) {
      assert Open(r.paused, -1, m);
      forall k: nat | k < n && Dist(n, t, k) < Dist(n, t, m)
        ensures !Open(r.paused, -1, k)
      {
        assert !Open(r.paused, t, k);
      }
    }
  }

  /** Fibers the walk back from the pausing `t` reached now skip it. */
  lemma ReachedByPause(r: Ring, i: nat, q: nat)
    requires Valid(r) && r.transit >= 0 && r.paused[r.transit] && r.nextAvail[r.transit] != r.transit
    requires i < |r.paused| && q < |r.paused| && i != r.transit && Dist(|r.paused|, i, r.transit) <= Dist(|r.paused|, q, r.transit)
    requires forall k: nat :: k < |r.paused| && Dist(|r.paused|, k, r.transit) < Dist(|r.paused|, q, r.transit) ==> r.paused[k]
    ensures Nearest(r.paused, -1, i, r.nextAvail[r.transit])
  {
    var n, t := |r.paused|, r.transit;
    var m := r.nextAvail[t];
    OwnNext(r);
    forall k: nat | k < n && Dist(n, i, k) < Dist(n, i, m)
      ensures !Open(r.paused, -1, k)
    {
      if k != t {
        BeforeOrAfter(n, i, k, t, m);
        DistSelf(n, i, t);
        if Dist(n, i, k) < Dist(n, i, t) {
          DistBetween(n, i, k, t);
          DistSelf(n, i, k);
        }
      }
    }
  }

  /** A fiber nearer to `i` than `m` lies before `t`, or between `t` and `m`, or `m` is before `t` too. */
  lemma BeforeOrAfter(n: nat, i: nat, k: nat, t: nat, m: nat)
    requires i < n && k < n && t < n && m < n && k != t && i != t
    requires Dist(n, i, k) < Dist(n, i, m)
    ensures Dist(n, i, k) < Dist(n, i, t) || Dist(n, t, k) < Dist(n, t, m)
  {
  }

  lemma FinishValid(r: Ring)
    requires Valid(r) && r.transit >= 0 && (r.paused[r.transit] ==> r.nextAvail[r.transit] != r.transit)
    ensures Valid(FinishPause(r))
  {
    var n, t, r' := |r.paused|, r.transit, FinishPause(r);
    if !r.paused[t] {
      AwokenValid(r);
    } else {
      var m := r.nextAvail[t];
      OwnNext(r);
      FirstStep(n, t);
      var q := SpreadWalks(r.paused, r.nextAvail, Prev(n, t), t, m, n);
      hide Spread;
      StopRunnable(r, q);
      forall i: nat | i < n
        ensures r'.nextAvail[i] < n && Nearest(r.paused, -1, i, r'.nextAvail[i])
      {
        DistSelf(n, i, t);
        DistSelf(n, q, t);
        if Dist(n, i, t) <= Dist(n, q, t) {
          ReachedByPause(r, i, q);
        } else {
          NotReached(r, i, q);
        }
      }
    }
  }

  /** The walk stops at a runnable fiber before it comes round to `t`. */
  lemma StopRunnable(r: Ring, q: nat)
    requires Valid(r) && r.transit >= 0 && r.paused[r.transit] && r.nextAvail[r.transit] != r.transit
    requires q < |r.paused| && (!r.paused[q] || q == r.transit)
    requires forall k: nat :: k < |r.paused| && 1 <= Dist(|r.paused|, k, r.transit) < Dist(|r.paused|, q, r.transit) ==> r.paused[k]
    ensures q != r.transit && !r.paused[q]
  {
    var n, t := |r.paused|, r.transit;
    OwnNext(r);
    var m := r.nextAvail[t];
    DistSelf(n, m, t);
    DistSelf(n, q, t);
  }

  lemma NotReached(r: Ring, i: nat, q: nat)
    requires Valid(r) && r.transit >= 0 && r.paused[r.transit] && r.nextAvail[r.transit] != r.transit
    requires i < |r.paused| && q < |r.paused| && !r.paused[q] && Dist(|r.paused|, q, r.transit) < Dist(|r.paused|, i, r.transit)
    ensures Nearest(r.paused, -1, i, r.nextAvail[i])
  {
    var n, t, j := |r.paused|, r.transit, r.nextAvail[i];
    if Nearest(r.paused, t, i, j) {
      BeyondStop(r.paused, t, i, j, t, q);
      assert Open(r.paused, -1, j);
      forall k: nat | k < n && Dist(n, i, k) < Dist(n, i, j)
        ensures !Open(r.paused, -1, k)
      {
        assert !Open(r.paused, t, k);
      }
    }
  }

  // ---- the ring before anything is paused

  function Following(n: nat, i: nat): nat { if i + 1 == n then 0 else i + 1 }

  /** No fiber is paused and every one points at its successor. */
  predicate AllRunning(r: Ring) {
    r.transit == -1 && |r.nextAvail| == |r.paused|
    && forall i: nat :: i < |r.paused| ==> !r.paused[i] && r.nextAvail[i] == Following(|r.paused|, i)
  }

  lemma AllRunningValid(r: Ring)
    requires AllRunning(r)
    ensures Valid(r)
  {
    var n := |r.paused|;
    forall i: nat | i < n
      ensures Nearest(r.paused, -1, i, r.nextAvail[i])
    {
      assert Dist(n, i, Following(n, i)) == 1;
      forall k: nat | k < n
        ensures Dist(n, i, k) >= 1
      {
      }
    }
  }

  /** With nobody paused, every fiber points at its successor. */
  lemma Adjacent(r: Ring, i: nat)
    requires Valid(r) && r.transit == -1 && i < |r.paused| && forall k :: 0 <= k < |r.paused| ==> !r.paused[k]
    ensures r.nextAvail[i] == Following(|r.paused|, i)
  {
    var n, j := |r.paused|, r.nextAvail[i];
    assert Nearest(r.paused, -1, i, j);
    assert Open(r.paused, -1, Following(n, i));
  }
}
