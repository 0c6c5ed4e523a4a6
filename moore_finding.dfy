/**
 * The minimisation loop of automata/dfa.py:95-111 (and src/DFA.java:105-133) stops when a
 * refinement step leaves the number of groups unchanged.  Because a singleton group is carried
 * into the next partition as the same list and later appended to, one step can merge states
 * that an earlier step separated, and the group count can go up and down forever.
 *
 * AsWrittenNeverReturns exhibits a five-state DFA on which the as-written step alternates
 * between two partitions of different sizes, and JavaAsWrittenNeverReturns shows that the Java
 * loop alternates in the same way on it; MooreChain is the intended refinement, which splits
 * each group only by the unchanged previous partition, and terminates.
 */
module MooreFinding {
  import opened Refinement

  /**
   * The counterexample DFA: states 0..4 over symbols 0 and 1, finals 1 and 4; a state stands
   * for its name, and -1 for the "None" a missing successor prints as.
   */
  function Succ(x: int, a: int): int {
    if x == 0 then 4
    else if x == 1 then (if a == 0 then 2 else 3)
    else if x == 2 then 3
    else if x == 3 then (if a == 0 then 4 else 3)
    else if x == 4 then (if a == 0 then 1 else 3)
    else -1
  }

  function Id(s: int): int { s }

  const Alph: set<int> := {0, 1}

  /** Python's equivalence test on the counterexample. */
  predicate Eqv(cur: seq<seq<int>>, x: int, y: int) {
    PyEquivalent(cur, Id, Alph, Succ, x, y)
  }

  /** Some group of cur holds both u and v. */
  predicate SameGroup(cur: seq<seq<int>>, u: int, v: int) {
    cur != [] && ((u in cur[0] && v in cur[0]) || SameGroup(cur[1..], u, v))
  }

  predicate HasMulti(cur: seq<seq<int>>) {
    cur != [] && (|cur[0]| > 1 || HasMulti(cur[1..]))
  }

  lemma {:induction false} SameGroupMeans(cur: seq<seq<int>>, u: int, v: int)
    ensures SameGroup(cur, u, v) <==> exists g :: g in cur && u in g && v in g
    decreases |cur|
  {
    if cur != [] {
      SameGroupMeans(cur[1..], u, v);
      assert forall g :: g in cur <==> g == cur[0] || g in cur[1..];
    }
  }

  lemma {:induction false} HasMultiMeans(cur: seq<seq<int>>)
    ensures HasMulti(cur) <==> exists g :: g in cur && |g| > 1
    decreases |cur|
  {
    if cur != [] {
      HasMultiMeans(cur[1..]);
      assert forall g :: g in cur <==> g == cur[0] || g in cur[1..];
    }
  }

  /** The equivalence test, reduced to two computable group lookups. */
  lemma EqvEval(cur: seq<seq<int>>, x: int, y: int)
    ensures Eqv(cur, x, y) <==>
      HasMulti(cur) && SameGroup(cur, Succ(x, 0), Succ(y, 0)) && SameGroup(cur, Succ(x, 1), Succ(y, 1))
  {
    HasMultiMeans(cur);
    SameGroupMeans(cur, Succ(x, 0), Succ(y, 0));
    SameGroupMeans(cur, Succ(x, 1), Succ(y, 1));
    forall g, k ensures InGroup(g, Id, k) <==> k in g {
      if k in g { assert Id(k) == k; }
    }
    assert forall a :: a in Alph <==> a == 0 || a == 1;
  }

  const P0: seq<seq<int>> := [[0, 2, 3], [1, 4]]
  const P1: seq<seq<int>> := [[0], [2, 1], [3, 4]]

  /** P1 as the second step leaves it: its carried singleton [0] grows to [0, 2] and then [0, 2, 3]. */
  const C1: seq<seq<int>> := [[0, 2], [2, 1], [3, 4]]
  const C2: seq<seq<int>> := [[0, 2, 3], [2, 1], [3, 4]]

  /** The equivalence answers the two steps ask for, each against the partition as it then is. */
  lemma EqvP0_2_0()
    ensures !Eqv(P0, 2, 0)
  {
    EqvEval(P0, 2, 0);
  }

  lemma EqvP0_3_0()
    ensures !Eqv(P0, 3, 0)
  {
    EqvEval(P0, 3, 0);
  }

  lemma EqvP0_3_2()
    ensures !Eqv(P0, 3, 2)
  {
    EqvEval(P0, 3, 2);
  }

  lemma EqvP0_1_0()
    ensures !Eqv(P0, 1, 0)
  {
    EqvEval(P0, 1, 0);
  }

  lemma EqvP0_1_2()
    ensures Eqv(P0, 1, 2)
  {
    EqvEval(P0, 1, 2);
  }

  lemma EqvP0_4_0()
    ensures !Eqv(P0, 4, 0)
  {
    EqvEval(P0, 4, 0);
  }

  lemma EqvP0_4_2()
    ensures !Eqv(P0, 4, 2)
  {
    EqvEval(P0, 4, 2);
  }

  lemma EqvP0_4_3()
    ensures Eqv(P0, 4, 3)
  {
    EqvEval(P0, 4, 3);
  }

  lemma EqvP1_2_0()
    ensures Eqv(P1, 2, 0)
  {
    EqvEval(P1, 2, 0);
  }

  lemma EqvC1_1_0()
    ensures !Eqv(C1, 1, 0)
  {
    EqvEval(C1, 1, 0);
  }

  lemma EqvC1_3_0()
    ensures Eqv(C1, 3, 0)
  {
    EqvEval(C1, 3, 0);
  }

  lemma EqvC2_4_0()
    ensures !Eqv(C2, 4, 0)
  {
    EqvEval(C2, 4, 0);
  }

  lemma EqvC2_4_1()
    ensures Eqv(C2, 4, 1)
  {
    EqvEval(C2, 4, 1);
  }

  /** The first step from P0, for any test answering as Eqv does: 0, 2 and 3 are told apart, and 1 and 4 join 2 and 3. */
  lemma StepFromP0(E: (seq<seq<int>>, int, int) -> bool)
    requires !E(P0, 2, 0) && !E(P0, 3, 0) && !E(P0, 3, 2) && !E(P0, 1, 0) && E(P0, 1, 2) && !E(P0, 4, 0) && !E(P0, 4, 2) && E(P0, 4, 3)
    ensures Refine(P0, E).next == P1
  {
    var a3 := Acc(P0, [[0], [2], [3]], [-1, -1, -1]);
    var a5 := Acc(P0, P1, [-1, -1, -1]);
    SplitP0Group0(E);
    SplitP0Group1(E);
    assert RefineFrom(P0, 2, a5, E) == a5;
    assert RefineFrom(P0, 1, a3, E) == a5;
  }

  /** The second step from P1: 2 and 3 rejoin the carried [0], and 1 and 4 meet again. */
  lemma StepFromP1(E: (seq<seq<int>>, int, int) -> bool)
    requires E(P1, 2, 0) && !E(C1, 1, 0) && E(C1, 3, 0) && !E(C2, 4, 0) && E(C2, 4, 1)
    ensures Refine(P1, E).next == P0
  {
    var a0 := Acc(P1, [], []);
    var a1 := Acc(P1, [[0]], [0]);
    assert GroupStep(P1, 0, a0, E) == a1;
    StepFromP1Rest(E);
  }

  /** The groups [2, 1] and [3, 4] of P1, after [0] has been carried. */
  lemma StepFromP1Rest(E: (seq<seq<int>>, int, int) -> bool)
    requires E(P1, 2, 0) && !E(C1, 1, 0) && E(C1, 3, 0) && !E(C2, 4, 0) && E(C2, 4, 1)
    ensures RefineFrom(P1, 1, Acc(P1, [[0]], [0]), E) == Acc(C2, P0, [0, -1])
  {
    var a1 := Acc(P1, [[0]], [0]);
    var a3 := Acc(C1, [[0, 2], [1]], [0, -1]);
    SplitP1Group1(E);
    assert GroupStep(P1, 1, a1, E) == a3;
    StepFromP1Last(E);
  }

  /** The group [3, 4] of P1, after [2, 1] has been split. */
  lemma StepFromP1Last(E: (seq<seq<int>>, int, int) -> bool)
    requires E(C1, 3, 0) && !E(C2, 4, 0) && E(C2, 4, 1)
    ensures RefineFrom(P1, 2, Acc(C1, [[0, 2], [1]], [0, -1]), E) == Acc(C2, P0, [0, -1])
  {
    var a3 := Acc(C1, [[0, 2], [1]], [0, -1]);
    var a5 := Acc(C2, P0, [0, -1]);
    SplitP1Group2(E);
    AccReady(a3);
    assert GroupStep(P1, 2, a3, E) == a5;
    AccReady(a5);
    assert RefineFrom(P1, 3, a5, E) == a5;
  }

  /** The accumulators met while P1's last group is split are well formed, with group 2 not carried. */
  lemma AccReady(a: Acc<int>)
    requires a == Acc(C1, [[0, 2], [1]], [0, -1]) || a == Acc(C2, P0, [0, -1])
    ensures Wf(P1, a) && Uncarried(a, 2) && a.cur[2] == P1[2]
  {
    assert |a.next| == 2 && a.next[0] == a.cur[0] && |a.next[1]| > 0;
    assert a.origin[0] == 0 && a.origin[1] == -1;
  }

  /** On the counterexample, Python's refinement step maps P0 to P1 and P1 back to P0. */
  lemma Alternates()
    ensures Refine(P0, Eqv).next == P1 && Refine(P1, Eqv).next == P0
  {
    EqvP0_2_0();
    EqvP0_3_0();
    EqvP0_3_2();
    EqvP0_1_0();
    EqvP0_1_2();
    EqvP0_4_0();
    EqvP0_4_2();
    EqvP0_4_3();
    StepFromP0(Eqv);
    EqvP1_2_0();
    EqvC1_1_0();
    EqvC1_3_0();
    EqvC2_4_0();
    EqvC2_4_1();
    StepFromP1(Eqv);
  }

  lemma SplitP0Group0(E: (seq<seq<int>>, int, int) -> bool)
    requires !E(P0, 2, 0) && !E(P0, 3, 0) && !E(P0, 3, 2)
    ensures SplitGroup(P0, P0[0], 0, Acc(P0, [], []), E) == Acc(P0, [[0], [2], [3]], [-1, -1, -1])
  {
    var a1 := Acc(P0, [[0]], [-1]);
    var a2 := Acc(P0, [[0], [2]], [-1, -1]);
    var a3 := Acc(P0, [[0], [2], [3]], [-1, -1, -1]);
    assert FindGroup(P0, [[0]], 2, E, 0) == -1;
    assert Place(P0, a1, 2, E) == a2;
    assert FindGroup(P0, [[0], [2]], 3, E, 0) == -1;
    assert Place(P0, a2, 3, E) == a3;
    assert SplitGroup(P0, P0[0], 2, a2, E) == a3;
  }

  lemma SplitP0Group1(E: (seq<seq<int>>, int, int) -> bool)
    requires !E(P0, 1, 0) && E(P0, 1, 2) && !E(P0, 4, 0) && !E(P0, 4, 2) && E(P0, 4, 3)
    ensures SplitGroup(P0, P0[1], 0, Acc(P0, [[0], [2], [3]], [-1, -1, -1]), E) == Acc(P0, P1, [-1, -1, -1])
  {
    var a3 := Acc(P0, [[0], [2], [3]], [-1, -1, -1]);
    var a4 := Acc(P0, [[0], [2, 1], [3]], [-1, -1, -1]);
    var a5 := Acc(P0, P1, [-1, -1, -1]);
    PlaceP0One(E);
    PlaceP0Four(E);
    assert SplitGroup(P0, P0[1], 1, a4, E) == a5;
  }

  lemma PlaceP0One(E: (seq<seq<int>>, int, int) -> bool)
    requires !E(P0, 1, 0) && E(P0, 1, 2)
    ensures Place(P0, Acc(P0, [[0], [2], [3]], [-1, -1, -1]), 1, E) == Acc(P0, [[0], [2, 1], [3]], [-1, -1, -1])
  {
    assert FindGroup(P0, [[0], [2], [3]], 1, E, 0) == 1;
    assert [2] + [1] == [2, 1];
    assert [[0], [2], [3]][1 := [2, 1]] == [[0], [2, 1], [3]];
  }

  lemma PlaceP0Four(E: (seq<seq<int>>, int, int) -> bool)
    requires !E(P0, 4, 0) && !E(P0, 4, 2) && E(P0, 4, 3)
    ensures Place(P0, Acc(P0, [[0], [2, 1], [3]], [-1, -1, -1]), 4, E) == Acc(P0, P1, [-1, -1, -1])
  {
    assert FindGroup(P0, [[0], [2, 1], [3]], 4, E, 0) == 2;
    assert [3] + [4] == [3, 4];
    assert [[0], [2, 1], [3]][2 := [3, 4]] == P1;
  }

  lemma SplitP1Group1(E: (seq<seq<int>>, int, int) -> bool)
    requires E(P1, 2, 0) && !E(C1, 1, 0)
    ensures SplitGroup(P1, P1[1], 0, Acc(P1, [[0]], [0]), E) == Acc(C1, [[0, 2], [1]], [0, -1])
  {
    var a1 := Acc(P1, [[0]], [0]);
    var a2 := Acc(C1, [[0, 2]], [0]);
    var a3 := Acc(C1, [[0, 2], [1]], [0, -1]);
    assert FindGroup(P1, [[0]], 2, E, 0) == 0;
    assert [0] + [2] == [0, 2];
    assert P1[0 := [0, 2]] == C1;
    assert Place(P1, a1, 2, E) == a2;
    assert FindGroup(C1, [[0, 2]], 1, E, 0) == -1;
    assert Place(P1, a2, 1, E) == a3;
    assert SplitGroup(P1, P1[1], 1, a2, E) == a3;
  }

  lemma SplitP1Group2(E: (seq<seq<int>>, int, int) -> bool)
    requires E(C1, 3, 0) && !E(C2, 4, 0) && E(C2, 4, 1)
    ensures SplitGroup(P1, P1[2], 0, Acc(C1, [[0, 2], [1]], [0, -1]), E) == Acc(C2, P0, [0, -1])
  {
    var a3 := Acc(C1, [[0, 2], [1]], [0, -1]);
    var a4 := Acc(C2, [[0, 2, 3], [1]], [0, -1]);
    var a5 := Acc(C2, P0, [0, -1]);
    PlaceP1Three(E);
    PlaceP1Four(E);
    assert SplitGroup(P1, P1[2], 1, a4, E) == a5;
  }

  lemma PlaceP1Three(E: (seq<seq<int>>, int, int) -> bool)
    requires E(C1, 3, 0)
    ensures Place(P1, Acc(C1, [[0, 2], [1]], [0, -1]), 3, E) == Acc(C2, [[0, 2, 3], [1]], [0, -1])
  {
    assert FindGroup(C1, [[0, 2], [1]], 3, E, 0) == 0;
    assert [0, 2] + [3] == [0, 2, 3];
    assert C1[0 := [0, 2, 3]] == C2;
    assert [[0, 2], [1]][0 := [0, 2, 3]] == [[0, 2, 3], [1]];
  }

  lemma PlaceP1Four(E: (seq<seq<int>>, int, int) -> bool)
    requires !E(C2, 4, 0) && E(C2, 4, 1)
    ensures Place(P1, Acc(C2, [[0, 2, 3], [1]], [0, -1]), 4, E) == Acc(C2, P0, [0, -1])
  {
    assert FindGroup(C2, [[0, 2, 3], [1]], 4, E, 0) == 1;
    assert [1] + [4] == [1, 4];
    assert [[0, 2, 3], [1]][1 := [1, 4]] == P0;
  }

  /** The counterexample's starting partition is the one minimize builds from states 0..4 with finals 1 and 4. */
  lemma StartsAtP0()
    ensures InitialPartition([0, 1, 2, 3, 4], IsFinal, NoSkip) == P0
  {
    SplitStates(IsFinal, NoSkip);
  }

  lemma SplitStates(final: int -> bool, skip: int -> bool)
    requires forall x :: !skip(x)
    requires final(1) && final(4) && !final(0) && !final(2) && !final(3)
    ensures Split([0, 1, 2, 3, 4], final, skip, false) == [0, 2, 3]
    ensures Split([0, 1, 2, 3, 4], final, skip, true) == [1, 4]
  {
    assert [0, 1, 2, 3, 4][1..] == [1, 2, 3, 4];
    assert [1, 2, 3, 4][1..] == [2, 3, 4];
    assert [2, 3, 4][1..] == [3, 4];
    assert [3, 4][1..] == [4];
    assert [4][1..] == [];
  }

  function IsFinal(x: int): bool { x == 1 || x == 4 }

  function NoSkip(x: int): bool { false }

  /** A step that maps p to q and back alternates between them for ever. */
  lemma {:induction false} Cycle<S>(p: seq<seq<S>>, q: seq<seq<S>>, step: seq<seq<S>> -> seq<seq<S>>, n: nat)
    requires step(p) == q && step(q) == p
    ensures Iterate(p, step, 2 * n) == p && Iterate(p, step, 2 * n + 1) == q
  {
    if n > 0 {
      Cycle(p, q, step, n - 1);
      assert Iterate(p, step, 2 * n) == step(Iterate(p, step, 2 * n - 1));
    }
  }

  /** Alternating between partitions of different sizes, the loop's exit test never holds. */
  lemma NeverStops<S>(p: seq<seq<S>>, q: seq<seq<S>>, step: seq<seq<S>> -> seq<seq<S>>, n: nat)
    requires step(p) == q && step(q) == p && |p| != |q|
    ensures !Stops(p, step, n)
  {
    Cycle(p, q, step, n / 2);
    if n % 2 == 1 {
      Cycle(p, q, step, n / 2 + 1);
      assert n + 1 == 2 * (n / 2 + 1);
    }
  }

  /**
   * The as-written minimize on the counterexample: it starts from P0 and, for a step that
   * is get_next_equivalence with this automaton's is_equivalent, no number of steps reaches
   * the exit test, so the loop never returns.
   */
  lemma AsWrittenNeverReturns(step: seq<seq<int>> -> seq<seq<int>>, n: nat)
    requires step(P0) == Refine(P0, Eqv).next && step(P1) == Refine(P1, Eqv).next
    ensures InitialPartition([0, 1, 2, 3, 4], IsFinal, NoSkip) == P0
    ensures !Stops(P0, step, n)
  {
    StartsAtP0();
    Alternates();
    NeverStops(P0, P1, step, n);
  }
  /** Java's is_equivalent on the counterexample: the same table test, with no size gate. */
  predicate JavaEqv(cur: seq<seq<int>>, x: int, y: int) {
    TableEqv(cur, Id, Alph, Succ, x, y)
  }

  /** Once some group has two or more members, the Java and the Python tests answer alike. */
  lemma JavaEqvAgrees(cur: seq<seq<int>>)
    requires HasMulti(cur)
    ensures forall x, y :: JavaEqv(cur, x, y) == Eqv(cur, x, y)
  {
    HasMultiMeans(cur);
  }

  /** On the counterexample, Java's refinement step also maps P0 to P1 and P1 back to P0. */
  lemma JavaAlternates()
    ensures Refine(P0, JavaEqv).next == P1 && Refine(P1, JavaEqv).next == P0
  {
    assert HasMulti(P0) && HasMulti(P1[1..]) && HasMulti(C1) && HasMulti(C2);
    JavaEqvAgrees(P0);
    JavaEqvAgrees(P1);
    JavaEqvAgrees(C1);
    JavaEqvAgrees(C2);
    EqvP0_2_0();
    EqvP0_3_0();
    EqvP0_3_2();
    EqvP0_1_0();
    EqvP0_1_2();
    EqvP0_4_0();
    EqvP0_4_2();
    EqvP0_4_3();
    StepFromP0(JavaEqv);
    EqvP1_2_0();
    EqvC1_1_0();
    EqvC1_3_0();
    EqvC2_4_0();
    EqvC2_4_1();
    StepFromP1(JavaEqv);
  }

  /**
   * The Java minimize on the same automaton: it starts from P0 (only "?" is left out) and its
   * loop, which also exits when a step keeps the number of groups, never exits.
   */
  lemma JavaAsWrittenNeverReturns(step: seq<seq<int>> -> seq<seq<int>>, n: nat)
    requires step(P0) == Refine(P0, JavaEqv).next && step(P1) == Refine(P1, JavaEqv).next
    ensures InitialPartition([0, 1, 2, 3, 4], IsFinal, NoSkip) == P0
    ensures !Stops(P0, step, n)
  {
    StartsAtP0();
    JavaAlternates();
    NeverStops(P0, P1, step, n);
  }
}
