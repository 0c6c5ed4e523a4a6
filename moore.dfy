/**
 * The refinement step minimize evidently intends (Moore's algorithm): every group of the
 * previous partition is split on its own, each state joining the first new group whose head
 * it is equivalent to, and the equivalence is always judged against the previous partition
 * as it was, not as the step is changing it.  Iterating it from a partition of non-empty
 * groups stops after at most (number of states - number of groups) steps, and where it stops
 * every group holds only states equivalent to its head.
 */
module Moore {
  import opened Refinement

  /** Every member of g is in h. */
  ghost predicate Within<S>(g: seq<S>, h: seq<S>) {
    forall x :: x in g ==> x in h
  }

  predicate NonEmptyGroups<S>(p: seq<seq<S>>) {
    forall k :: 0 <= k < |p| ==> |p[k]| > 0
  }

  lemma {:induction false} FlattenConcat<S>(a: seq<seq<S>>, b: seq<seq<S>>)
    ensures Flatten(a + b) == Flatten(a) + Flatten(b)
    decreases |a|
  {
    if a == [] {
      assert a + b == b;
    } else {
      assert (a + b)[1..] == a[1..] + b;
      FlattenConcat(a[1..], b);
    }
  }

  lemma {:induction false} FlattenMember<S>(p: seq<seq<S>>, k: nat, x: S)
    requires k < |p| && x in p[k]
    ensures x in multiset(Flatten(p))
    decreases k
  {
    if k > 0 {
      FlattenMember(p[1..], k - 1, x);
    }
  }

  /** Non-empty groups are no more numerous than their members. */
  lemma {:induction false} CountBound<S>(p: seq<seq<S>>)
    requires NonEmptyGroups(p)
    ensures |p| <= |Flatten(p)|
    decreases |p|
  {
    if p != [] {
      CountBound(p[1..]);
    }
  }

  lemma NonEmptyConcat<S>(a: seq<seq<S>>, b: seq<seq<S>>)
    requires NonEmptyGroups(a) && NonEmptyGroups(b)
    ensures NonEmptyGroups(a + b)
  {
    forall k | 0 <= k < |a + b| ensures |(a + b)[k]| > 0 {
      if k >= |a| {
        assert (a + b)[k] == b[k - |a|];
      }
    }
  }

  /** Adds x to the first group whose head it is equivalent to (judged against prev), or opens a new group. */
  function AddTo<S>(prev: seq<seq<S>>, groups: seq<seq<S>>, x: S, eqv: (seq<seq<S>>, S, S) -> bool): (r: seq<seq<S>>)
    requires NonEmptyGroups(groups)
    ensures NonEmptyGroups(r)
    ensures |r| == |groups| || (|r| == |groups| + 1 && r[|groups|] == [x])
    ensures forall k :: 0 <= k < |groups| ==> r[k][0] == groups[k][0]
    ensures |r| == |groups| ==> exists k :: 0 <= k < |groups| && eqv(prev, x, groups[k][0])
    ensures multiset(Flatten(r)) == multiset(Flatten(groups)) + multiset{x}
  {
    var j := FindGroup(prev, groups, x, eqv, 0);
    if j < 0 then
      FlattenAppend(groups, [x]);
      groups + [[x]]
    else
      AppendToGroup(groups, j, x);
      groups[j := groups[j] + [x]]
  }

  /** Appending x to one group adds x, and nothing else, to the partition's members. */
  lemma AppendToGroup<S>(groups: seq<seq<S>>, j: nat, x: S)
    requires j < |groups|
    ensures multiset(Flatten(groups[j := groups[j] + [x]])) == multiset(Flatten(groups)) + multiset{x}
  {
    FlattenSplit(groups, j);
    FlattenUpdate(groups, j, groups[j] + [x]);
  }

  /**
   * One group of the previous partition split into classes: the first member heads the first
   * class, and a block that stays whole holds only states equivalent to its first member.
   */
  function SplitBlock<S>(prev: seq<seq<S>>, members: seq<S>, eqv: (seq<seq<S>>, S, S) -> bool): (r: seq<seq<S>>)
    ensures NonEmptyGroups(r)
    ensures multiset(Flatten(r)) == multiset(members)
    ensures |members| > 0 ==> |r| > 0 && r[0][0] == members[0]
    ensures |r| == 1 ==> forall i :: 0 < i < |members| ==> eqv(prev, members[i], members[0])
    decreases |members|
  {
    if members == [] then []
    else
      var init := members[..|members| - 1];
      var x := members[|members| - 1];
      assert members == init + [x];
      var groups := SplitBlock(prev, init, eqv);
      var r := AddTo(prev, groups, x, eqv);
      assert |r| == 1 ==> forall i :: 0 < i < |members| ==> eqv(prev, members[i], members[0]) by {
        if |r| == 1 && |init| > 0 {
          assert |groups| == 1;
          forall i | 0 < i < |members| ensures eqv(prev, members[i], members[0]) {
            if i < |init| {
              assert members[i] == init[i];
            }
          }
        }
      }
      r
  }

  /** The classes of groups i.. of prev, in order. */
  function MooreFrom<S>(prev: seq<seq<S>>, i: nat, eqv: (seq<seq<S>>, S, S) -> bool): (r: seq<seq<S>>)
    requires i <= |prev|
    ensures NonEmptyGroups(r)
    ensures multiset(Flatten(r)) == multiset(Flatten(prev[i..]))
    ensures NonEmptyGroups(prev) ==> |r| >= |prev| - i
    decreases |prev| - i
  {
    if i == |prev| then
      assert prev[i..] == [];
      []
    else
      var head := SplitBlock(prev, prev[i], eqv);
      var rest := MooreFrom(prev, i + 1, eqv);
      ConcatElements(prev, i, head, rest);
      NonEmptyConcat(head, rest);
      head + rest
  }

  lemma ConcatElements<S>(prev: seq<seq<S>>, i: nat, head: seq<seq<S>>, rest: seq<seq<S>>)
    requires i < |prev|
    requires multiset(Flatten(head)) == multiset(prev[i])
    requires multiset(Flatten(rest)) == multiset(Flatten(prev[i + 1..]))
    ensures multiset(Flatten(head + rest)) == multiset(Flatten(prev[i..]))
  {
    FlattenConcat(head, rest);
    var tail := prev[i..];
    assert tail[0] == prev[i] && tail[1..] == prev[i + 1..];
    assert Flatten(tail) == prev[i] + Flatten(prev[i + 1..]);
  }

  /** Each class lies inside one group of prev. */
  lemma {:induction false} MooreFromWithin<S>(prev: seq<seq<S>>, i: nat, eqv: (seq<seq<S>>, S, S) -> bool)
    requires i <= |prev|
    ensures forall j :: 0 <= j < |MooreFrom(prev, i, eqv)| ==>
      exists k :: i <= k < |prev| && Within(MooreFrom(prev, i, eqv)[j], prev[k])
    decreases |prev| - i
  {
    if i < |prev| {
      MooreFromWithin(prev, i + 1, eqv);
      var head := SplitBlock(prev, prev[i], eqv);
      var rest := MooreFrom(prev, i + 1, eqv);
      var r := MooreFrom(prev, i, eqv);
      assert r == head + rest;
      forall j | 0 <= j < |r| ensures exists k :: i <= k < |prev| && Within(r[j], prev[k]) {
        if j < |head| {
          forall x | x in head[j] ensures x in prev[i] {
            FlattenMember(head, j, x);
          }
          assert Within(r[j], prev[i]);
        } else {
          assert r[j] == rest[j - |head|];
          var k :| i + 1 <= k < |prev| && Within(rest[j - |head|], prev[k]);
          assert Within(r[j], prev[k]);
        }
      }
    } else {
      assert MooreFrom(prev, i, eqv) == [];
    }
  }

  /**
   * The corrected refinement step: the new partition holds the same states, in non-empty
   * groups, and has at least as many groups as prev.
   */
  function MooreStep<S>(prev: seq<seq<S>>, eqv: (seq<seq<S>>, S, S) -> bool): (r: seq<seq<S>>)
    ensures NonEmptyGroups(r)
    ensures multiset(Flatten(r)) == multiset(Flatten(prev))
    ensures NonEmptyGroups(prev) ==> |prev| <= |r|
  {
    assert prev[0..] == prev;
    MooreFrom(prev, 0, eqv)
  }

  /** Every class of the corrected step lies inside one group of the previous partition. */
  lemma MooreStepRefines<S>(prev: seq<seq<S>>, eqv: (seq<seq<S>>, S, S) -> bool)
    ensures forall j :: 0 <= j < |MooreStep(prev, eqv)| ==> exists k :: 0 <= k < |prev| && Within(MooreStep(prev, eqv)[j], prev[k])
  {
    MooreFromWithin(prev, 0, eqv);
    assert prev[0..] == prev;
    assert MooreStep(prev, eqv) == MooreFrom(prev, 0, eqv);
  }

  lemma {:induction false} StableBlocks<S>(prev: seq<seq<S>>, i: nat, eqv: (seq<seq<S>>, S, S) -> bool)
    requires i <= |prev| && NonEmptyGroups(prev)
    requires |MooreFrom(prev, i, eqv)| == |prev| - i
    ensures forall k :: i <= k < |prev| ==> |SplitBlock(prev, prev[k], eqv)| == 1
    decreases |prev| - i
  {
    if i < |prev| {
      var head := SplitBlock(prev, prev[i], eqv);
      var rest := MooreFrom(prev, i + 1, eqv);
      assert MooreFrom(prev, i, eqv) == head + rest;
      assert |head| >= 1 && |rest| >= |prev| - i - 1;
      assert |head| == 1 && |rest| == |prev| - (i + 1);
      StableBlocks(prev, i + 1, eqv);
    }
  }

  /**
   * When a step keeps the number of groups, the partition is stable: every member of a
   * group is equivalent to the group's first member.
   */
  lemma Stable<S>(prev: seq<seq<S>>, eqv: (seq<seq<S>>, S, S) -> bool)
    requires NonEmptyGroups(prev) && |MooreStep(prev, eqv)| == |prev|
    ensures forall k, m :: 0 <= k < |prev| && 0 < m < |prev[k]| ==> eqv(prev, prev[k][m], prev[k][0])
  {
    assert prev[0..] == prev;
    StableBlocks(prev, 0, eqv);
  }

  /**
   * The corrected minimisation loop: the partitions from p until a step keeps the number of
   * groups.  It needs no fuel: the number of groups grows with every step it takes and cannot
   * pass the number of states.
   */
  function MooreChain<S>(p: seq<seq<S>>, eqv: (seq<seq<S>>, S, S) -> bool): (r: seq<seq<seq<S>>>)
    requires NonEmptyGroups(p)
    ensures 0 < |r| <= |Flatten(p)| - |p| + 1
    ensures r[0] == p
    ensures forall k :: 0 <= k < |r| - 1 ==> r[k + 1] == MooreStep(r[k], eqv)
    ensures |MooreStep(r[|r| - 1], eqv)| == |r[|r| - 1]|
    decreases |Flatten(p)| - |p|
  {
    var q := MooreStep(p, eqv);
    StepMeasure(p, eqv);
    if |q| == |p| then [p]
    else
      var rest := MooreChain(q, eqv);
      ChainCons(p, rest, eqv);
      [p] + rest
  }

  /** A step keeps the number of states and cannot leave more groups than states. */
  lemma StepMeasure<S>(p: seq<seq<S>>, eqv: (seq<seq<S>>, S, S) -> bool)
    requires NonEmptyGroups(p)
    ensures |Flatten(MooreStep(p, eqv))| == |Flatten(p)|
    ensures |p| <= |MooreStep(p, eqv)| <= |Flatten(p)|
  {
    var q := MooreStep(p, eqv);
    CountBound(q);
    assert |Flatten(q)| == |multiset(Flatten(q))| == |multiset(Flatten(p))| == |Flatten(p)|;
  }

  /** Putting p in front of the chain that starts at its successor gives a chain again. */
  lemma ChainCons<S>(p: seq<seq<S>>, rest: seq<seq<seq<S>>>, eqv: (seq<seq<S>>, S, S) -> bool)
    requires 0 < |rest| && rest[0] == MooreStep(p, eqv)
    requires forall k :: 0 <= k < |rest| - 1 ==> rest[k + 1] == MooreStep(rest[k], eqv)
    ensures forall k :: 0 <= k < |[p] + rest| - 1 ==> ([p] + rest)[k + 1] == MooreStep(([p] + rest)[k], eqv)
    ensures ([p] + rest)[|[p] + rest| - 1] == rest[|rest| - 1]
  {
    var r := [p] + rest;
    forall k | 0 <= k < |r| - 1 ensures r[k + 1] == MooreStep(r[k], eqv) {
      if k > 0 {
        assert r[k] == rest[k - 1] && r[k + 1] == rest[k];
      }
    }
  }

  /** Leaves out empty groups (the starting partition has one when all, or no, states are final). */
  function DropEmpty<S>(p: seq<seq<S>>): (r: seq<seq<S>>)
    ensures NonEmptyGroups(r)
    ensures multiset(Flatten(r)) == multiset(Flatten(p))
  {
    if p == [] then []
    else
      var rest := DropEmpty(p[1..]);
      if p[0] == [] then rest else [p[0]] + rest
  }

  /**
   * Corrected minimize: Moore refinement from the non-final/final split, taking at most as many
   * steps as there are states, and ending on a stable partition of exactly the non-skipped states.
   */
  function MinimizeCorrected<S>(states: seq<S>, final: S -> bool, skip: S -> bool, eqv: (seq<seq<S>>, S, S) -> bool): (r: seq<seq<seq<S>>>)
    ensures 0 < |r| <= |states| + 1
    ensures r[0] == DropEmpty(InitialPartition(states, final, skip))
    ensures forall k :: 0 <= k < |r| - 1 ==> r[k + 1] == MooreStep(r[k], eqv)
    ensures |MooreStep(r[|r| - 1], eqv)| == |r[|r| - 1]|
  {
    var p := DropEmpty(InitialPartition(states, final, skip));
    SplitLength(states, final, skip);
    assert |Flatten(p)| == |Flatten(InitialPartition(states, final, skip))| by {
      assert |Flatten(p)| == |multiset(Flatten(p))|;
    }
    FlattenAppend([Split(states, final, skip, false)], Split(states, final, skip, true));
    assert Flatten([Split(states, final, skip, false)]) == Split(states, final, skip, false);
    MooreChain(p, eqv)
  }

  lemma {:induction false} SplitLength<S>(states: seq<S>, final: S -> bool, skip: S -> bool)
    ensures |Split(states, final, skip, false)| + |Split(states, final, skip, true)| <= |states|
    decreases |states|
  {
    if states != [] {
      SplitLength(states[1..], final, skip);
    }
  }
}
