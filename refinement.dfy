/**
 * One step of the equivalence refinement as both code bases write it
 * (automata/dfa.py:73-93, src/DFA.java:70-103), on values.
 *
 * A partition is a list of groups.  A singleton group of the previous partition is carried
 * into the next one as the SAME list object, so a later state that joins it is appended to
 * the previous partition's group too; the equivalence test, which reads the previous
 * partition, sees that change.  The accumulator therefore tracks both lists: `cur` is the
 * previous partition as it currently is, `next` the partition being built, and `origin[j]`
 * is the index in the previous partition of the object next[j] is (or -1 for a new list).
 *
 * eqv(cur, x, y) is the language's equivalence test, evaluated against the current
 * previous partition.
 */
module Refinement {

  datatype Acc<S> = Acc(cur: seq<seq<S>>, next: seq<seq<S>>, origin: seq<int>)

  function Flatten<S>(p: seq<seq<S>>): seq<S> {
    if p == [] then [] else p[0] + Flatten(p[1..])
  }

  lemma {:induction false} FlattenAppend<S>(p: seq<seq<S>>, g: seq<S>)
    ensures Flatten(p + [g]) == Flatten(p) + g
    decreases |p|
  {
    if p == [] {
      assert [g][1..] == [];
    } else {
      assert (p + [g])[1..] == p[1..] + [g];
      FlattenAppend(p[1..], g);
    }
  }

  lemma {:induction false} FlattenSplit<S>(p: seq<seq<S>>, j: nat)
    requires j < |p|
    ensures Flatten(p) == Flatten(p[..j]) + p[j] + Flatten(p[j + 1..])
    decreases j
  {
    if j > 0 {
      FlattenSplit(p[1..], j - 1);
      assert p[1..][..j - 1] == p[1..j];
      assert p[1..][j - 1 + 1..] == p[j + 1..];
      assert p[..j] == [p[0]] + p[1..j];
      assert Flatten(p[..j]) == p[0] + Flatten(p[1..j]) by {
        assert p[..j][1..] == p[1..j];
      }
    } else {
      assert p[..0] == [];
      assert p[1..] == p[j + 1..];
    }
  }

  /** Replacing one group changes the flattened multiset by exactly that group's change. */
  lemma FlattenUpdate<S>(p: seq<seq<S>>, j: nat, g: seq<S>)
    requires j < |p|
    ensures multiset(Flatten(p[j := g])) == multiset(Flatten(p)) - multiset(p[j]) + multiset(g)
  {
    var q := p[j := g];
    FlattenSplit(p, j);
    FlattenSplit(q, j);
    assert q[..j] == p[..j] && q[j + 1..] == p[j + 1..];
  }

  /** The accumulator's lists have the right lengths, next groups are non-empty, origins in range. */
  ghost predicate Shape<S>(prev: seq<seq<S>>, acc: Acc<S>) {
    && |acc.cur| == |prev|
    && |acc.origin| == |acc.next|
    && forall j :: 0 <= j < |acc.next| ==> |acc.next[j]| > 0 && -1 <= acc.origin[j] < |prev|
  }

  /** A carried group is the same list as its previous-partition original. */
  ghost predicate Aliased<S>(acc: Acc<S>) {
    forall j :: 0 <= j < |acc.next| && j < |acc.origin| && 0 <= acc.origin[j] < |acc.cur| ==>
      acc.next[j] == acc.cur[acc.origin[j]]
  }

  /** No previous group is carried twice. */
  ghost predicate OriginsDistinct<S>(acc: Acc<S>) {
    forall j, k :: 0 <= j < k < |acc.origin| && acc.origin[j] >= 0 ==> acc.origin[j] != acc.origin[k]
  }

  ghost predicate Wf<S>(prev: seq<seq<S>>, acc: Acc<S>) {
    Shape(prev, acc) && Aliased(acc) && OriginsDistinct(acc)
  }

  /** Previous group k is not (yet) carried. */
  ghost predicate Uncarried<S>(acc: Acc<S>, k: int) {
    forall j :: 0 <= j < |acc.origin| ==> acc.origin[j] != k
  }

  /** r keeps acc's groups' origins and adds only new lists. */
  ghost predicate Extends<S>(acc: Acc<S>, r: Acc<S>) {
    && |acc.origin| <= |r.origin|
    && (forall j :: 0 <= j < |acc.origin| ==> r.origin[j] == acc.origin[j])
    && (forall j :: |acc.origin| <= j < |r.origin| ==> r.origin[j] == -1)
  }

  lemma ExtendsTransitive<S>(a: Acc<S>, b: Acc<S>, c: Acc<S>)
    requires Extends(a, b) && Extends(b, c)
    ensures Extends(a, c)
  {
  }

  /** The index of the first group of next, from j on, whose head x is equivalent to, or -1. */
  function FindGroup<S>(cur: seq<seq<S>>, next: seq<seq<S>>, x: S, eqv: (seq<seq<S>>, S, S) -> bool, j: nat): (r: int)
    requires j <= |next|
    requires forall k :: 0 <= k < |next| ==> |next[k]| > 0
    ensures r == -1 || j <= r < |next|
    ensures r >= 0 ==> eqv(cur, x, next[r][0])
    ensures forall k :: j <= k < (if r < 0 then |next| else r) ==> !eqv(cur, x, next[k][0])
    decreases |next| - j
  {
    if j == |next| then -1
    else if eqv(cur, x, next[j][0]) then j
    else FindGroup(cur, next, x, eqv, j + 1)
  }

  /** Places x: appended to the first group it is equivalent to (and so to its alias), or alone. */
  function Place<S>(prev: seq<seq<S>>, acc: Acc<S>, x: S, eqv: (seq<seq<S>>, S, S) -> bool): (r: Acc<S>)
    requires Wf(prev, acc)
    ensures Wf(prev, r)
    ensures |acc.next| <= |r.next| <= |acc.next| + 1
    ensures r.origin == acc.origin || r.origin == acc.origin + [-1]
    ensures forall k :: 0 <= k < |prev| && Uncarried(acc, k) ==> r.cur[k] == acc.cur[k]
  {
    var j := FindGroup(acc.cur, acc.next, x, eqv, 0);
    if j < 0 then
      Acc(acc.cur, acc.next + [[x]], acc.origin + [-1])
    else
      var g := acc.next[j] + [x];
      Acc(if acc.origin[j] >= 0 then acc.cur[acc.origin[j] := g] else acc.cur, acc.next[j := g], acc.origin)
  }

  lemma PlaceElements<S>(prev: seq<seq<S>>, acc: Acc<S>, x: S, eqv: (seq<seq<S>>, S, S) -> bool)
    requires Wf(prev, acc)
    ensures multiset(Flatten(Place(prev, acc, x, eqv).next)) == multiset(Flatten(acc.next)) + multiset{x}
  {
    var j := FindGroup(acc.cur, acc.next, x, eqv, 0);
    if j < 0 {
      FlattenAppend(acc.next, [x]);
    } else {
      FlattenSplit(acc.next, j);
      assert multiset(Flatten(acc.next)) ==
        multiset(Flatten(acc.next[..j])) + multiset(acc.next[j]) + multiset(Flatten(acc.next[j + 1..]));
      FlattenUpdate(acc.next, j, acc.next[j] + [x]);
    }
  }

  /** The members of one larger group, from index k on (the inner `for state in group`). */
  function SplitGroup<S>(prev: seq<seq<S>>, members: seq<S>, k: nat, acc: Acc<S>, eqv: (seq<seq<S>>, S, S) -> bool): (r: Acc<S>)
    requires Wf(prev, acc) && k <= |members|
    ensures Wf(prev, r) && Extends(acc, r)
    ensures forall i :: 0 <= i < |prev| && Uncarried(acc, i) ==> r.cur[i] == acc.cur[i] && Uncarried(r, i)
    decreases |members| - k
  {
    if k == |members| then acc
    else
      var mid := if acc.next == [] then Acc(acc.cur, [[members[0]]], [-1]) else Place(prev, acc, members[k], eqv);
      assert Extends(acc, mid);
      assert forall i :: 0 <= i < |prev| && Uncarried(acc, i) ==> mid.cur[i] == acc.cur[i] && Uncarried(mid, i);
      var r := SplitGroup(prev, members, k + 1, mid, eqv);
      ExtendsTransitive(acc, mid, r);
      r
  }

  lemma {:induction false} SplitGroupElements<S>(prev: seq<seq<S>>, members: seq<S>, k: nat, acc: Acc<S>, eqv: (seq<seq<S>>, S, S) -> bool)
    requires Wf(prev, acc) && k <= |members|
    requires k > 0 ==> acc.next != []
    ensures multiset(Flatten(SplitGroup(prev, members, k, acc, eqv).next)) ==
      multiset(Flatten(acc.next)) + multiset(members[k..])
    decreases |members| - k
  {
    if k < |members| {
      assert members[k..] == [members[k]] + members[k + 1..];
      if acc.next == [] {
        assert k == 0;
        assert Flatten([[members[0]]]) == [members[0]];
        SplitGroupElements(prev, members, k + 1, Acc(acc.cur, [[members[0]]], [-1]), eqv);
      } else {
        assert Place(prev, acc, members[k], eqv).next != [];
        PlaceElements(prev, acc, members[k], eqv);
        SplitGroupElements(prev, members, k + 1, Place(prev, acc, members[k], eqv), eqv);
      }
    }
  }

  /** The step for previous group i: a singleton is carried as is, a larger group is split. */
  function GroupStep<S>(prev: seq<seq<S>>, i: nat, acc: Acc<S>, eqv: (seq<seq<S>>, S, S) -> bool): (r: Acc<S>)
    requires i < |prev| && Wf(prev, acc) && Uncarried(acc, i) && acc.cur[i] == prev[i]
    ensures Wf(prev, r)
    ensures |prev[i]| == 1 ==> r.next == acc.next + [prev[i]] && r.origin == acc.origin + [i] && r.cur == acc.cur
    ensures |prev[i]| != 1 ==> Extends(acc, r)
    ensures forall k :: 0 <= k < |prev| && k != i && Uncarried(acc, k) ==> r.cur[k] == acc.cur[k] && Uncarried(r, k)
  {
    if |prev[i]| == 1 then
      Acc(acc.cur, acc.next + [acc.cur[i]], acc.origin + [i])
    else
      SplitGroup(prev, prev[i], 0, acc, eqv)
  }

  /** The outer loop over the previous partition's groups, from index i on. */
  function RefineFrom<S>(prev: seq<seq<S>>, i: nat, acc: Acc<S>, eqv: (seq<seq<S>>, S, S) -> bool): (r: Acc<S>)
    requires i <= |prev| && Wf(prev, acc)
    requires forall k :: i <= k < |prev| ==> Uncarried(acc, k) && acc.cur[k] == prev[k]
    ensures Wf(prev, r)
    ensures |acc.origin| <= |r.origin| && forall j :: 0 <= j < |acc.origin| ==> r.origin[j] == acc.origin[j]
    ensures forall k :: i <= k < |prev| && |prev[k]| == 1 ==> exists j :: 0 <= j < |r.origin| && r.origin[j] == k
    ensures forall k :: 0 <= k < |prev| && |prev[k]| != 1 && Uncarried(acc, k) ==> r.cur[k] == acc.cur[k]
    decreases |prev| - i
  {
    if i == |prev| then acc
    else
      var mid := GroupStep(prev, i, acc, eqv);
      var r := RefineFrom(prev, i + 1, mid, eqv);
      assert |prev[i]| == 1 ==> r.origin[|acc.origin|] == i;
      r
  }

  lemma {:induction false} RefineFromElements<S>(prev: seq<seq<S>>, i: nat, acc: Acc<S>, eqv: (seq<seq<S>>, S, S) -> bool)
    requires i <= |prev| && Wf(prev, acc)
    requires forall k :: i <= k < |prev| ==> Uncarried(acc, k) && acc.cur[k] == prev[k]
    ensures multiset(Flatten(RefineFrom(prev, i, acc, eqv).next)) ==
      multiset(Flatten(acc.next)) + multiset(Flatten(prev[i..]))
    decreases |prev| - i
  {
    if i == |prev| {
      assert prev[i..] == [];
    } else {
      assert prev[i..] == [prev[i]] + prev[i + 1..];
      assert Flatten(prev[i..]) == prev[i] + Flatten(prev[i + 1..]);
      var mid := GroupStep(prev, i, acc, eqv);
      GroupStepElements(prev, i, acc, eqv);
      RefineFromElements(prev, i + 1, mid, eqv);
    }
  }

  /** The step for group i adds exactly that group's members to the new partition. */
  lemma GroupStepElements<S>(prev: seq<seq<S>>, i: nat, acc: Acc<S>, eqv: (seq<seq<S>>, S, S) -> bool)
    requires i < |prev| && Wf(prev, acc) && Uncarried(acc, i) && acc.cur[i] == prev[i]
    ensures multiset(Flatten(GroupStep(prev, i, acc, eqv).next)) == multiset(Flatten(acc.next)) + multiset(prev[i])
  {
    if |prev[i]| == 1 {
      FlattenAppend(acc.next, prev[i]);
    } else {
      SplitGroupElements(prev, prev[i], 0, acc, eqv);
      assert prev[i][0..] == prev[i];
    }
  }

  /**
   * get_next_equivalence / getNextEquivalence on values: `.next` is the new partition and
   * `.cur` the previous partition as the step leaves it.
   */
  function Refine<S>(prev: seq<seq<S>>, eqv: (seq<seq<S>>, S, S) -> bool): Acc<S> {
    RefineFrom(prev, 0, Acc(prev, [], []), eqv)
  }

  /**
   * What one step guarantees: the new partition holds exactly the previous one's members, in
   * non-empty groups; every singleton group is carried over and is the same list as its
   * original; a group of two or more is never changed itself.
   */
  lemma RefineSpec<S>(prev: seq<seq<S>>, eqv: (seq<seq<S>>, S, S) -> bool)
    ensures Wf(prev, Refine(prev, eqv))
    ensures multiset(Flatten(Refine(prev, eqv).next)) == multiset(Flatten(prev))
    ensures forall j :: 0 <= j < |Refine(prev, eqv).next| ==> |Refine(prev, eqv).next[j]| > 0
    ensures forall i :: 0 <= i < |prev| && |prev[i]| == 1 ==>
      exists j :: 0 <= j < |Refine(prev, eqv).next| && Refine(prev, eqv).origin[j] == i && Refine(prev, eqv).next[j] == Refine(prev, eqv).cur[i]
    ensures forall i :: 0 <= i < |prev| && |prev[i]| != 1 ==> Refine(prev, eqv).cur[i] == prev[i]
  {
    assert prev[0..] == prev;
    RefineFromElements(prev, 0, Acc(prev, [], []), eqv);
  }

  /** Some member of g has key k. */
  predicate InGroup<S(==), K(==)>(g: seq<S>, key: S -> K, k: K) {
    exists m :: m in g && key(m) == k
  }

  /**
   * The equivalence test of both code bases, in one shape: for every symbol, one group of
   * cur holds a member keyed like x's successor and one keyed like y's successor.  Python
   * keys a state by its name and a missing successor by "None"; Java keys a state by
   * identity and a missing successor by a value no member has.
   */
  predicate TableEqv<S(==), A, K(==)>(cur: seq<seq<S>>, key: S -> K, alph: set<A>, succ: (S, A) -> K, x: S, y: S) {
    forall a :: a in alph ==>
      exists g :: g in cur && InGroup(g, key, succ(x, a)) && InGroup(g, key, succ(y, a))
  }

  /**
   * Python's is_equivalent: it answers only when the partition has a group of two or more
   * (otherwise it falls off its loop and returns None, which is false), and then applies the
   * table test with states keyed by name.
   */
  predicate PyEquivalent<S(==), A, K(==)>(cur: seq<seq<S>>, name: S -> K, alph: set<A>, succ: (S, A) -> K, x: S, y: S) {
    (exists g :: g in cur && |g| > 1) && TableEqv(cur, name, alph, succ, x, y)
  }

  /** One refinement step as a map from partition to partition. */
  function Step<S>(eqv: (seq<seq<S>>, S, S) -> bool): seq<seq<S>> -> seq<seq<S>> {
    p => Refine(p, eqv).next
  }

  /** The partition after n steps from p. */
  function Iterate<S>(p: seq<seq<S>>, step: seq<seq<S>> -> seq<seq<S>>, n: nat): seq<seq<S>> {
    if n == 0 then p else step(Iterate(p, step, n - 1))
  }

  /** The minimisation loop's exit test after n steps: the next step keeps the number of groups. */
  predicate Stops<S>(p: seq<seq<S>>, step: seq<seq<S>> -> seq<seq<S>>, n: nat) {
    |Iterate(p, step, n + 1)| == |Iterate(p, step, n)|
  }

  /** The members of states, in order, that are not skipped and whose finality is side. */
  function Split<S>(states: seq<S>, final: S -> bool, skip: S -> bool, side: bool): seq<S> {
    if states == [] then []
    else (if !skip(states[0]) && final(states[0]) == side then [states[0]] else []) + Split(states[1..], final, skip, side)
  }

  lemma {:induction false} SplitMembers<S>(states: seq<S>, final: S -> bool, skip: S -> bool, side: bool, x: S)
    ensures x in Split(states, final, skip, side) <==> x in states && !skip(x) && final(x) == side
    decreases |states|
  {
    if states != [] {
      SplitMembers(states[1..], final, skip, side, x);
      assert x in states <==> x == states[0] || x in states[1..];
    }
  }

  /** minimize starts from two groups, the non-final and the final states outside skip, each in state order. */
  lemma InitialPartitionMembers<S>(states: seq<S>, final: S -> bool, skip: S -> bool, x: S)
    ensures x in InitialPartition(states, final, skip)[0] <==> x in states && !skip(x) && !final(x)
    ensures x in InitialPartition(states, final, skip)[1] <==> x in states && !skip(x) && final(x)
  {
    SplitMembers(states, final, skip, false, x);
    SplitMembers(states, final, skip, true, x);
  }

  /**
   * The starting partition of minimize: the non-final states, then the final ones, both in
   * state order, leaving out the dead state (skip).  Either group may be empty.
   */
  function InitialPartition<S>(states: seq<S>, final: S -> bool, skip: S -> bool): seq<seq<S>> {
    [Split(states, final, skip, false), Split(states, final, skip, true)]
  }
}
