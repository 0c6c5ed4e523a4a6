/**
 * get_next_equivalence / getNextEquivalence as the loops the code runs.  The partitions are
 * lists of group lists; the carried singleton groups are shared between the previous and the
 * next partition, which the method tracks explicitly: `cur` is the previous partition as the
 * appends leave it and `origin[j]` the previous group that next[j] is (or -1).  The methods
 * are proved to compute what Refinement.Refine describes.
 */
module Partition {
  import opened Wrappers
  import opened Refinement

  /**
   * The scan `for next_group in next_equivalence`: the index of the first group whose head x
   * is equivalent to, by the test on the previous partition cur, or -1.
   */
  method FindHead<S>(cur: seq<seq<S>>, next: seq<seq<S>>, x: S, eqv: (seq<seq<S>>, S, S) -> bool) returns (j: int)
    requires forall k :: 0 <= k < |next| ==> |next[k]| > 0
    ensures j == FindGroup(cur, next, x, eqv, 0)
  {
    j := 0;
    while j < |next|
      invariant 0 <= j <= |next|
      invariant FindGroup(cur, next, x, eqv, 0) == FindGroup(cur, next, x, eqv, j)
    {
      if eqv(cur, x, next[j][0]) {
        return;
      }
      j := j + 1;
    }
    j := -1;
  }

  /**
   * One pass of `for state in group`: when the next partition is still empty the group's
   * first member starts it; otherwise members[k] joins the first next group whose head it is
   * equivalent to, and with it the previous group that next group is, or starts a new group.
   */
  method PlaceMember<S>(ghost prev: seq<seq<S>>, members: seq<S>, k: nat, acc: Acc<S>, eqv: (seq<seq<S>>, S, S) -> bool)
    returns (r: Acc<S>)
    requires Wf(prev, acc) && k < |members|
    ensures r == if acc.next == [] then Acc(acc.cur, [[members[0]]], [-1]) else Place(prev, acc, members[k], eqv)
    ensures Wf(prev, r) && SplitGroup(prev, members, k, acc, eqv) == SplitGroup(prev, members, k + 1, r, eqv)
  {
    var cur, next, origin := acc.cur, acc.next, acc.origin;
    if next == [] {
      return Acc(cur, [[members[0]]], [-1]);
    }
    var x := members[k];
    var j := FindHead(cur, next, x, eqv);
    if j >= 0 {
      var g := next[j] + [x];
      if origin[j] >= 0 {
        cur := cur[origin[j] := g];
      }
      r := Acc(cur, next[j := g], origin);
    } else {
      r := Acc(cur, next + [[x]], origin + [-1]);
    }
  }

  /** The inner loop `for state in group` over a group of two or more members (or none). */
  method SplitInto<S>(ghost prev: seq<seq<S>>, members: seq<S>, acc0: Acc<S>, eqv: (seq<seq<S>>, S, S) -> bool)
    returns (acc: Acc<S>)
    requires Wf(prev, acc0)
    ensures acc == SplitGroup(prev, members, 0, acc0, eqv)
  {
    acc := acc0;
    var k := 0;
    while k < |members|
      invariant 0 <= k <= |members|
      invariant Wf(prev, acc)
      invariant SplitGroup(prev, members, k, acc, eqv) == SplitGroup(prev, members, 0, acc0, eqv)
    {
      acc := PlaceMember(prev, members, k, acc, eqv);
      k := k + 1;
    }
  }

  /** The body of `for group in prev`: carries a singleton group, splits a larger one. */
  method GroupInto<S>(prev: seq<seq<S>>, i: nat, acc0: Acc<S>, eqv: (seq<seq<S>>, S, S) -> bool)
    returns (acc: Acc<S>)
    requires i < |prev| && Wf(prev, acc0)
    requires forall k :: i <= k < |prev| ==> Uncarried(acc0, k) && acc0.cur[k] == prev[k]
    ensures acc == GroupStep(prev, i, acc0, eqv)
    ensures Wf(prev, acc) && forall k :: i + 1 <= k < |prev| ==> Uncarried(acc, k) && acc.cur[k] == prev[k]
    ensures RefineFrom(prev, i, acc0, eqv) == RefineFrom(prev, i + 1, acc, eqv)
  {
    if |acc0.cur[i]| == 1 {
      acc := Acc(acc0.cur, acc0.next + [acc0.cur[i]], acc0.origin + [i]);
    } else {
      acc := SplitInto(prev, acc0.cur[i], acc0, eqv);
    }
  }

  /**
   * get_next_equivalence: a singleton group is carried into the next partition as the same
   * list; a larger group is split.  Returns the next partition and the previous one as the
   * appends to its carried groups leave it.
   */
  method GetNextEquivalence<S>(prev: seq<seq<S>>, eqv: (seq<seq<S>>, S, S) -> bool)
    returns (next: seq<seq<S>>, prevAfter: seq<seq<S>>)
    ensures next == Refine(prev, eqv).next && prevAfter == Refine(prev, eqv).cur
  {
    var acc := Acc(prev, [], []);
    var i := 0;
    while i < |prev|
      invariant 0 <= i <= |prev|
      invariant Wf(prev, acc)
      invariant forall k :: i <= k < |prev| ==> Uncarried(acc, k) && acc.cur[k] == prev[k]
      invariant RefineFrom(prev, i, acc, eqv) == Refine(prev, eqv)
    {
      acc := GroupInto(prev, i, acc, eqv);
      i := i + 1;
    }
    next, prevAfter := acc.next, acc.cur;
  }

  /**
   * What minimize returns: the partitions p0, step(p0), ... up to the first one after which
   * the step keeps the number of groups, so consecutive entries differ in group count; None
   * when fuel steps do not reach such a partition.
   */
  ghost predicate Recorded<S>(p0: seq<seq<S>>, step: seq<seq<S>> -> seq<seq<S>>, fuel: nat, r: Option<seq<seq<seq<S>>>>) {
    && (r.Some? ==> 0 < |r.value| <= fuel + 1)
    && (r.Some? ==> forall k :: 0 <= k < |r.value| ==> r.value[k] == Iterate(p0, step, k))
    && (r.Some? ==> Stops(p0, step, |r.value| - 1))
    && (r.Some? ==> forall k :: 0 <= k < |r.value| - 1 ==> !Stops(p0, step, k))
    && (r.None? ==> forall k :: 0 <= k <= fuel ==> !Stops(p0, step, k))
  }

  /**
   * minimize's loop: records the starting partition, then keeps stepping while the step
   * changes the number of groups, recording each new partition.  The loop has no other
   * exit, and it need not end (see MooreFinding), so the model runs at most fuel steps and
   * answers None when they are used up.  Each recorded partition is given as it was when it
   * was built (a later append to a shared singleton group can still show in the list).
   * step is get_next_equivalence as a function: Step(eqv), which GetNextEquivalence computes.
   */
  method Minimize<S>(p0: seq<seq<S>>, step: seq<seq<S>> -> seq<seq<S>>, fuel: nat)
    returns (r: Option<seq<seq<seq<S>>>>)
    ensures Recorded(p0, step, fuel, r)
  {
    var list := [p0];
    var previous := p0;
    var current := step(previous);
    var steps := 0;
    while |current| != |previous|
      invariant 0 <= steps <= fuel
      invariant list == Iterates(p0, step, steps + 1)
      invariant previous == Iterate(p0, step, steps) && current == Iterate(p0, step, steps + 1)
      invariant forall k :: 0 <= k < steps ==> !Stops(p0, step, k)
      decreases fuel - steps
    {
      if steps == fuel {
        return None;
      }
      list := list + [current];
      previous := current;
      steps := steps + 1;
      current := step(previous);
    }
    return Some(list);
  }

  /** The first n partitions of the minimisation loop, p0 first. */
  function Iterates<S>(p0: seq<seq<S>>, step: seq<seq<S>> -> seq<seq<S>>, n: nat): (r: seq<seq<seq<S>>>)
    ensures |r| == n
    ensures forall k :: 0 <= k < n ==> r[k] == Iterate(p0, step, k)
  {
    if n == 0 then [] else Iterates(p0, step, n - 1) + [Iterate(p0, step, n - 1)]
  }
}
