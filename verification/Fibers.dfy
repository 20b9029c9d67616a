/** The fiber group as one thread keeps it: linked fibers with skip pointers, updated in place. */
module Fibers {
  import R = FiberRing

  class FiberGroup {
    var prev: seq<nat>
    var next: seq<nat>
    var paused: seq<bool>
    var nextAvail: seq<nat>
    /** The fiber between `prepare_pause` and `pause`, or -1. */
    ghost var transit: int

    ghost function Ring(): R.Ring
      reads this
    {
      R.Ring(paused, nextAvail, transit)
    }

    /** The links form the ring in the order of insertion, and the skip pointers are valid. */
    ghost predicate Linked()
      reads this
    {
      && |prev| == |next| == |paused| == |nextAvail|
      && (forall i: nat :: i < |next| ==> next[i] == R.Following(|next|, i) && prev[i] == R.Prev(|next|, i))
      && R.Valid(Ring())
    }

    constructor ()
      ensures Linked() && paused == [] && transit == -1
    {
      prev, next, paused, nextAvail, transit := [], [], [], [], -1;
    }

    /** Add a fiber at the end of the ring, before the group runs. */
    method Spawn() returns (fiber: nat)
      requires Linked() && transit == -1
      requires forall i :: 0 <= i < |paused| ==> !paused[i]
      modifies this
      ensures Linked() && transit == -1 && fiber == |old(paused)| && paused == old(paused) + [false]
    {
      fiber := |paused|;
      if fiber == 0 {
        prev, next, nextAvail := [0], [0], [0];
      } else {
        var last := fiber - 1;
        var first, avail := next[last], nextAvail[last];
        assert avail == first by { R.Adjacent(Ring(), last); }
        forall i: nat | i < fiber
          ensures nextAvail[i] == R.Following(fiber, i)
        {
          R.Adjacent(Ring(), i);
        }
        prev := prev[first := fiber] + [last];
        next := next[last := fiber] + [first];
        nextAvail := nextAvail[last := fiber] + [avail];
      }
      paused := paused + [false];
      R.AllRunningValid(Ring());
    }

    method PreparePause(fiber: nat)
      requires Linked() && transit == -1 && fiber < |paused| && !paused[fiber]
      modifies this`paused, this`transit
      ensures Linked() && Ring() == R.PreparePause(old(Ring()), fiber)
    {
      R.PrepareValid(Ring(), fiber);
      paused := paused[fiber := true];
      transit := fiber;
    }

    /** One pass of `pause` under the group lock; without a fiber to run it must wait and retry. */
    method Pause(fiber: nat) returns (awaken: bool, wait: bool)
      requires Linked() && transit == fiber
      modifies this`nextAvail, this`transit
      ensures Linked() && awaken == !paused[fiber] && wait == (!awaken && old(nextAvail)[fiber] == fiber)
      ensures Ring() == if wait then old(Ring()) else R.FinishPause(old(Ring()))
    {
      awaken, wait := !paused[fiber], false;
      if !awaken && nextAvail[fiber] == fiber {
        wait := true;
        return;
      }
      R.FinishValid(Ring());
      if !awaken {
        var v := nextAvail[fiber];
        R.FirstStep(|paused|, fiber);
        Walk(fiber, v);
      }
      transit := -1;
    }

    /** The backward loop of `pause` and of `unpause`. */
    method Walk(fiber: nat, v: nat)
      requires |prev| == |paused| == |nextAvail| && fiber < |paused| && v < |paused|
      requires forall i: nat :: i < |prev| ==> prev[i] == R.Prev(|prev|, i)
      requires exists q: nat :: q < |paused| && !paused[q]
      modifies this`nextAvail
      ensures nextAvail == R.Spread(paused, old(nextAvail), R.Prev(|paused|, fiber), v, |paused|)
    {
      var p: nat := prev[fiber];
      var n := |paused|;
      ghost var goal := R.Spread(paused, nextAvail, p, v, n);
      ghost var q: nat :| q < n && !paused[q];
      R.FirstStep(n, fiber);
      ghost var left := n;
      while true
        invariant p < n && 1 <= left && |nextAvail| == n && left == n - R.Dist(n, p, fiber) + 1
        invariant goal == R.Spread(paused, nextAvail, p, v, left)
        invariant R.Dist(n, p, fiber) <= R.Dist(n, q, fiber)
        decreases left
      {
        nextAvail := nextAvail[p := v];
        if !paused[p] {
          break;
        }
        R.DistSelf(n, p, fiber);
        R.DistSelf(n, q, fiber);
        R.SamePlace(n, p, fiber);
        R.DistPrev(n, p, fiber);
        p := prev[p];
        left := left - 1;
      }
    }

    method Unpause(fiber: nat)
      requires Linked() && fiber < |paused|
      modifies this`paused, this`nextAvail
      ensures Linked() && Ring() == R.Unpause(old(Ring()), fiber)
    {
      R.UnpauseValid(Ring(), fiber);
      paused := paused[fiber := false];
      assert !paused[fiber];
      Walk(fiber, fiber);
    }
  }
}
