/**
 * Epsilon elimination, the part convert_to_nfa (automata_converter.py) and convertToNFA
 * (AutomataConverter.java) share, for any symbol type.  For each state of the source
 * automaton and each symbol, the states reached by one move on the symbol from the state's
 * epsilon closure, closed under epsilon again, become targets of the converted state of the
 * same name.  eps is the symbol the closures follow; mark is the symbol whose edges set the
 * converted automaton's epsilon flag.  The converted automaton is described on values: its
 * state list, final states, alphabet and flag, and the (symbol, target name) pairs of the
 * edges of each state.
 */
module Elimination {
  import opened Wrappers
  import opened Graph
  import opened EpsilonClosure

  /** get_next_states_for_alphabet / getNextStatesForAlphabet: the targets of state's transitions on a, in list order; nothing for None. */
  function NextStatesForAlphabet<A>(state: Option<State<A>>, a: A): (r: seq<State<A>>)
    reads if state.Some? then {state.value} else {}, if state.Some? then set t | t in state.value.transitions else {}
    ensures state.Some? ==> r == Targets(state.value.transitions, a)
    ensures state.None? ==> r == []
    ensures state.Some? ==> forall y :: y in r ==> HasEdge(state.value.transitions, a, y)
    ensures state.Some? ==> forall i :: 0 <= i < |state.value.transitions| && state.value.transitions[i].alphabet == a ==>
      state.value.transitions[i].nextState in r
  {
    if state.None? then []
    else
      var ts := state.value.transitions;
      assert forall i :: 0 <= i < |ts| && ts[i].alphabet == a ==> ts[i].nextState in Targets(ts, a) by {
        forall i | 0 <= i < |ts| && ts[i].alphabet == a ensures ts[i].nextState in Targets(ts, a) {
          TargetsMember(ts, a, ts[i].nextState);
        }
      }
      assert forall y :: y in Targets(ts, a) ==> HasEdge(ts, a, y) by {
        forall y | y in Targets(ts, a) ensures HasEdge(ts, a, y) {
          TargetsMember(ts, a, y);
        }
      }
      Targets(ts, a)
  }

  /** The first inner loop of convert_to_nfa: the a-successors of every member of closure, in some order. */
  method MovesOf<A>(closure: set<State<A>>, a: A) returns (next: seq<State<A>>)
    ensures forall y :: y in next <==> y in Moves(closure, a)
  {
    next := [];
    var left := closure;
    while left != {}
      invariant left <= closure
      invariant forall y :: y in next <==> y in Moves(closure - left, a)
      decreases left
    {
      var x :| x in left;
      var more := NextStatesForAlphabet(Some(x), a);
      forall y ensures y in next + more <==> y in Moves(closure - (left - {x}), a) {
        if y in more {
          var i :| 0 <= i < |x.transitions| && x.transitions[i].alphabet == a && x.transitions[i].nextState == y;
        }
        if y in Moves(closure - (left - {x}), a) && y !in Moves(closure - left, a) {
          var z, i :| z in closure - (left - {x}) && 0 <= i < |z.transitions| && z.transitions[i].alphabet == a &&
            z.transitions[i].nextState == y;
          assert z == x;
        }
      }
      next := next + more;
      left := left - {x};
    }
  }

  /** The second inner loop of convert_to_nfa: the union of the closures of the states in next. */
  method CloseAll<A>(next: seq<State<A>>, eps: A, ghost U: set<State<A>>) returns (ec: set<State<A>>)
    requires Closed(U) && forall y :: y in next ==> y in U
    ensures ec == CloseSet((set y | y in next), eps, U)
  {
    ec := {};
    ghost var seen: set<State<A>> := {};
    CloseSetEmpty(eps, U);
    for k := 0 to |next|
      invariant seen <= U && forall y :: y in seen <==> exists i :: 0 <= i < k && next[i] == y
      invariant ec == CloseSet(seen, eps, U)
    {
      ghost var frame := Frame(U);
      var closure := GetEpsilonClosure(next[k], eps, U);
      assert frame == Frame(U);
      CloseSetAdd(seen, next[k], eps, U);
      assert ec + closure == CloseSet(seen + {next[k]}, eps, U);
      forall y ensures y in seen + {next[k]} <==> exists i :: 0 <= i < k + 1 && next[i] == y {
        if y in seen + {next[k]} && y != next[k] {
          var i :| 0 <= i < k && next[i] == y;
        }
      }
      ec, seen := ec + closure, seen + {next[k]};
    }
    assert seen == set y | y in next;
  }

  /** The names of a set of states. */
  function NamesIn<A>(S: set<State<A>>): set<string> {
    set y | y in S :: y.name
  }

  /** The (symbol, name) pairs of edges on a to the states of S. */
  function EdgesTo<A>(a: A, S: set<State<A>>): set<(A, string)> {
    set y | y in S :: (a, y.name)
  }

  /** The names of the states of S reported FINAL by an automaton with this initial state and these final states. */
  function FinalNames<A>(S: set<State<A>>, init: Option<State<A>>, finals: set<State<A>>): set<string> {
    set y | y in S && StateTypeOf(init, finals, y) == Some(FINAL) :: y.name
  }

  lemma NamesInAdd<A>(S: set<State<A>>, s: State<A>)
    ensures NamesIn(S + {s}) == NamesIn(S) + {s.name}
  {}

  lemma EdgesToAdd<A>(a: A, S: set<State<A>>, s: State<A>)
    ensures EdgesTo(a, S + {s}) == EdgesTo(a, S) + {(a, s.name)}
  {}

  lemma FinalNamesAdd<A>(S: set<State<A>>, s: State<A>, init: Option<State<A>>, finals: set<State<A>>)
    ensures FinalNames(S + {s}, init, finals) == FinalNames(S, init, finals) + FinalNames({s}, init, finals)
  {}

  /**
   * Where LinkTargets stands after linking the states named N, those named F among them being
   * final: the converted states extend states0 with names unique, cover exactly the old names
   * and N, and the final states are finals0 plus the converted states named in F.
   */
  ghost predicate Linked<A>(states0: seq<State<A>>, finals0: set<State<A>>,
                         states: seq<State<A>>, finals: set<State<A>>, N: set<string>, F: set<string>)
  {
    && |states0| <= |states| && states[..|states0|] == states0
    && NamesUnique(states)
    && F <= N
    && (forall n :: HasName(states, n) <==> HasName(states0, n) || n in N)
    && finals == finals0 + NamedIn(states, F)
  }

  /**
   * Where a linking loop stands after linking the states of done from current on a, stated on
   * the converted automaton's parts (states, final states, current's edges, alphabet, epsilon flag).
   */
  ghost predicate LinkInvV<A>(states: seq<State<A>>, cfinals: set<State<A>>, edges: set<(A, string)>, alph: set<A>, eps: bool,
                              current: State<A>, a: A, states0: seq<State<A>>, finals0: set<State<A>>,
                              edges0: set<(A, string)>, alph0: set<A>, eps0: bool,
                              done: set<State<A>>, init: Option<State<A>>, finals: set<State<A>>, mark: A)
  {
    && current in states
    && Linked(states0, finals0, states, cfinals, NamesIn(done), FinalNames(done, init, finals))
    && edges == edges0 + EdgesTo(a, done)
    && alph == alph0 + (if done == {} then {} else {a})
    && eps == (eps0 || (done != {} && a == mark))
  }

  /** Linking one more state s, as the converted state t of the same name, keeps LinkInvV. */
  lemma LinkInvStep<A>(states: seq<State<A>>, cfinals: set<State<A>>, edges: set<(A, string)>, alph: set<A>, eps: bool,
                       states2: seq<State<A>>, cfinals2: set<State<A>>, edges2: set<(A, string)>, alph2: set<A>, eps2: bool,
                       current: State<A>, a: A, s: State<A>, t: State<A>, states0: seq<State<A>>, finals0: set<State<A>>,
                       edges0: set<(A, string)>, alph0: set<A>, eps0: bool,
                       done: set<State<A>>, init: Option<State<A>>, finals: set<State<A>>, mark: A)
    requires LinkInvV(states, cfinals, edges, alph, eps, current, a, states0, finals0, edges0, alph0, eps0, done, init, finals, mark)
    requires t in states2 && t.name == s.name && NamesUnique(states2)
    requires states2 == states || (!HasName(states, s.name) && states2 == states + [t])
    requires cfinals2 == cfinals + (if StateTypeOf(init, finals, s) == Some(FINAL) then {t} else {})
    requires edges2 == edges + {(a, s.name)} && alph2 == alph + {a} && eps2 == (eps || a == mark)
    ensures LinkInvV(states2, cfinals2, edges2, alph2, eps2, current, a, states0, finals0, edges0, alph0, eps0, done + {s}, init, finals, mark)
  {
    FinalNamesAdd(done, s, init, finals);
    NamesInAdd(done, s);
    EdgesToAdd(a, done, s);
    var G := FinalNames({s}, init, finals);
    assert G == if StateTypeOf(init, finals, s) == Some(FINAL) then {s.name} else {};
    LinkedStep(states0, finals0, states, cfinals, NamesIn(done), FinalNames(done, init, finals), states2, cfinals2, t, G);
    assert current in states2 by {
      if states2 != states {
        var i :| 0 <= i < |states| && states[i] == current;
        assert states2[i] == current;
      }
    }
  }

  /** The states of the sequence whose names are in F. */
  function NamedIn<A>(states: seq<State<A>>, F: set<string>): set<State<A>> {
    set x | x in states && x.name in F
  }

  /** One round of LinkTargets keeps Linked, with the name of the linked state added. */
  lemma LinkedStep<A>(states0: seq<State<A>>, finals0: set<State<A>>,
                   states: seq<State<A>>, finals: set<State<A>>, N: set<string>, F: set<string>,
                   states2: seq<State<A>>, finals2: set<State<A>>, t: State<A>, G: set<string>)
    requires Linked(states0, finals0, states, finals, N, F)
    requires NamesUnique(states2) && t in states2
    requires states2 == states || (states2 == states + [t] && !HasName(states, t.name))
    requires G <= {t.name}
    requires finals2 == finals + (if G == {} then {} else {t})
    ensures Linked(states0, finals0, states2, finals2, N + {t.name}, F + G)
  {
    assert states2[..|states0|] == states0 by {
      if states2 != states {
        assert states2[..|states|] == states;
      }
    }
    forall n ensures HasName(states2, n) <==> HasName(states0, n) || n in N + {t.name} {
      if HasName(states2, n) && states2 != states && !HasName(states, n) {
        var i :| 0 <= i < |states2| && states2[i].name == n;
        assert i == |states|;
      }
      if n in N {
        var i :| 0 <= i < |states| && states[i].name == n;
        assert states2[i] == states[i];
      }
    }
    forall x ensures x in finals2 <==> x in finals0 + NamedIn(states2, F + G) {
      if x in states2 && x.name in F && x !in states {
        assert false;
      }
      if x in states2 && x.name in G {
        var i :| 0 <= i < |states2| && states2[i] == x;
        var j :| 0 <= j < |states2| && states2[j] == t;
        assert x == t;
      }
    }
  }

  lemma FinalNamesSub<A>(S: set<State<A>>, init: Option<State<A>>, finals: set<State<A>>)
    ensures FinalNames(S, init, finals) <= NamesIn(S)
  {}

  lemma StepUnfold<A>(x: State<A>, a: A, eps: A, U: set<State<A>>)
    requires x in U && Closed(U)
    ensures Step(x, a, eps, U) == CloseSet(Moves(Closure(x, eps, U), a), eps, U)
  {}

  /**
   * The first two inner loops of convert_to_nfa: the states an a-move from curr's epsilon
   * closure reaches, closed under epsilon again.
   */
  method StepTargets<A>(curr: State<A>, a: A, eps: A, ghost U: set<State<A>>) returns (ec: set<State<A>>)
    requires curr in U && Closed(U)
    ensures ec == Step(curr, a, eps, U)
  {
    ghost var frame := Frame(U);
    var closure := GetEpsilonClosure(curr, eps, U);
    assert frame == Frame(U);
    var next := MovesOf(closure, a);
    assert frame == Frame(U);
    MovesInside(closure, a, U);
    assert (set y | y in next) == Moves(closure, a);
    ec := CloseAll(next, eps, U);
    assert frame == Frame(U);
    assert closure == Closure(curr, eps, U);
    StepUnfold(curr, a, eps, U);
  }


  /** The step sets of x, one per symbol of alph: where each symbol leads once epsilon moves are eliminated. */
  ghost function StepsOf<A>(x: State<A>, alph: set<A>, eps: A, U: set<State<A>>): map<A, set<State<A>>>
    requires x in U && Closed(U)
    reads Frame(U)
  {
    map a | a in alph :: Step(x, a, eps, U)
  }

  /** The states reached on the symbols of D. */
  function ReachedBy<A>(steps: map<A, set<State<A>>>, D: set<A>): set<State<A>> {
    set a, y | a in D && a in steps && y in steps[a] :: y
  }

  /** The (symbol, target name) pairs of the edges on the symbols of D. */
  function EdgesBy<A>(steps: map<A, set<State<A>>>, D: set<A>): set<(A, string)> {
    set a, y | a in D && a in steps && y in steps[a] :: (a, y.name)
  }

  /** The symbols of D on which something is reached. */
  function SymbolsBy<A>(steps: map<A, set<State<A>>>, D: set<A>): set<A> {
    set a | a in D && a in steps && steps[a] != {}
  }

  lemma ByAdd<A>(steps: map<A, set<State<A>>>, D: set<A>, a: A)
    requires a in steps
    ensures ReachedBy(steps, D + {a}) == ReachedBy(steps, D) + steps[a]
    ensures EdgesBy(steps, D + {a}) == EdgesBy(steps, D) + EdgesTo(a, steps[a])
    ensures SymbolsBy(steps, D + {a}) == SymbolsBy(steps, D) + (if steps[a] == {} then {} else {a})
  {
    assert forall y :: y in steps[a] ==> y in ReachedBy(steps, D + {a});
    assert forall y :: y in steps[a] ==> (a, y.name) in EdgesBy(steps, D + {a});
  }

  lemma NamesInUnion<A>(S: set<State<A>>, T: set<State<A>>, init: Option<State<A>>, finals: set<State<A>>)
    ensures NamesIn(S + T) == NamesIn(S) + NamesIn(T)
    ensures FinalNames(S + T, init, finals) == FinalNames(S, init, finals) + FinalNames(T, init, finals)
  {}

  /** Linked composes: two rounds of linking are one round with the names of both. */
  lemma LinkedTrans<A>(s0: seq<State<A>>, f0: set<State<A>>, s1: seq<State<A>>, f1: set<State<A>>,
                    N1: set<string>, F1: set<string>, s2: seq<State<A>>, f2: set<State<A>>, N2: set<string>, F2: set<string>,
                    N: set<string>, F: set<string>)
    requires Linked(s0, f0, s1, f1, N1, F1) && Linked(s1, f1, s2, f2, N2, F2)
    requires N == N1 + N2 && F == F1 + F2
    ensures Linked(s0, f0, s2, f2, N, F)
  {
    assert s2[..|s0|] == s0 by {
      assert s2[..|s1|] == s1;
      forall i | 0 <= i < |s0| ensures s2[i] == s0[i] {
        assert s2[i] == s1[i];
      }
    }
    forall x | x in NamedIn(s2, F1) ensures x in NamedIn(s1, F1) {
      var j :| 0 <= j < |s2| && s2[j] == x;
      assert HasName(s1, x.name);
      var i :| 0 <= i < |s1| && s1[i].name == x.name;
      assert s2[i] == s1[i];
    }
    forall x | x in NamedIn(s1, F1) ensures x in NamedIn(s2, F1) {
      var i :| 0 <= i < |s1| && s1[i] == x;
      assert s2[i] == s1[i];
    }
  }

  lemma LinkedRefl<A>(s0: seq<State<A>>, f0: set<State<A>>)
    requires NamesUnique(s0)
    ensures Linked(s0, f0, s0, f0, {}, {})
  {
    assert NamedIn(s0, {}) == {};
  }

  /** What holds after convert_to_nfa has handled the symbols of D for one source state. */
  ghost predicate ElimInv<A>(states: seq<State<A>>, cfinals: set<State<A>>, edges: set<(A, string)>,
                          calph: set<A>, ceps: bool, current: State<A>,
                          steps: map<A, set<State<A>>>, D: set<A>,
                          states0: seq<State<A>>, finals0: set<State<A>>, edges0: set<(A, string)>,
                          alph0: set<A>, eps0: bool, init: Option<State<A>>, finals: set<State<A>>, mark: A)
  {
    && current in states
    && Linked(states0, finals0, states, cfinals,
              NamesIn(ReachedBy(steps, D)), FinalNames(ReachedBy(steps, D), init, finals))
    && edges == edges0 + EdgesBy(steps, D)
    && calph == alph0 + SymbolsBy(steps, D)
    && ceps == (eps0 || mark in SymbolsBy(steps, D))
  }

  /** The converted states from index k on are not source states, not current, and have no transitions yet. */
  ghost predicate Untouched<A>(states: seq<State<A>>, k: nat, current: State<A>, U: set<State<A>>)
    reads states
  {
    forall i :: k <= i < |states| ==> states[i] !in U && states[i] != current && states[i].transitions == []
  }

  /** ElimInv after one more symbol, from ElimInv before it (on the values states1 ... eps1) and what EliminateSymbol did. */
  lemma ElimInvStep<A>(current: State<A>, steps: map<A, set<State<A>>>, D: set<A>, a: A,
                    ec: set<State<A>>, states0: seq<State<A>>, finals0: set<State<A>>, edges0: set<(A, string)>,
                    alph0: set<A>, eps0: bool, init: Option<State<A>>, finals: set<State<A>>,
                    states1: seq<State<A>>, finals1: set<State<A>>, edges1: set<(A, string)>,
                    alph1: set<A>, eps1: bool,
                    states2: seq<State<A>>, finals2: set<State<A>>, edges2: set<(A, string)>,
                    alph2: set<A>, eps2: bool, mark: A)
    requires a in steps && ec == steps[a]
    requires Linked(states0, finals0, states1, finals1, NamesIn(ReachedBy(steps, D)), FinalNames(ReachedBy(steps, D), init, finals))
    requires edges1 == edges0 + EdgesBy(steps, D)
    requires alph1 == alph0 + SymbolsBy(steps, D)
    requires eps1 == (eps0 || mark in SymbolsBy(steps, D))
    requires current in states2
    requires Linked(states1, finals1, states2, finals2, NamesIn(ec), FinalNames(ec, init, finals))
    requires edges2 == edges1 + EdgesTo(a, ec)
    requires alph2 == alph1 + (if ec == {} then {} else {a})
    requires eps2 == (eps1 || (ec != {} && a == mark))
    ensures ElimInv(states2, finals2, edges2, alph2, eps2, current, steps, D + {a}, states0, finals0, edges0, alph0, eps0, init, finals, mark)
  {
    var R, R2 := ReachedBy(steps, D), ReachedBy(steps, D + {a});
    ByAdd(steps, D, a);
    NamesInUnion(R, ec, init, finals);
    LinkedTrans(states0, finals0, states1, finals1, NamesIn(R), FinalNames(R, init, finals),
                states2, finals2, NamesIn(ec), FinalNames(ec, init, finals),
                NamesIn(R2), FinalNames(R2, init, finals));
  }

  /** The step sets of every state of U, as convert_to_nfa finds them in the source automaton. */
  ghost function AllSteps<A>(alph: set<A>, eps: A, U: set<State<A>>): map<State<A>, map<A, set<State<A>>>>
    requires Closed(U)
    reads Frame(U)
  {
    map x | x in U :: StepsOf(x, alph, eps, U)
  }

  /** The names of the first k source states. */
  function NamesUpTo<A>(xs: seq<State<A>>, k: nat): set<string> {
    set j | 0 <= j < k && j < |xs| :: xs[j].name
  }

  /** The states reached from the first k source states. */
  function ReachedUpTo<A>(SS: map<State<A>, map<A, set<State<A>>>>, xs: seq<State<A>>, k: nat,
                       alph: set<A>): set<State<A>>
  {
    set j, y | 0 <= j < k && j < |xs| && xs[j] in SS && y in ReachedBy(SS[xs[j]], alph) :: y
  }

  /** The symbols on which the first k source states reach something. */
  function SymbolsUpTo<A>(SS: map<State<A>, map<A, set<State<A>>>>, xs: seq<State<A>>, k: nat,
                       alph: set<A>): set<A>
  {
    set j, a | 0 <= j < k && j < |xs| && xs[j] in SS && a in SymbolsBy(SS[xs[j]], alph) :: a
  }

  /** The (symbol, target name) edges the converted state named n has after the first k source states. */
  function EdgesNamed<A>(SS: map<State<A>, map<A, set<State<A>>>>, xs: seq<State<A>>, k: nat,
                      alph: set<A>, n: string): set<(A, string)>
  {
    set j, e | 0 <= j < k && j < |xs| && xs[j].name == n && xs[j] in SS && e in EdgesBy(SS[xs[j]], alph) :: e
  }

  /** Shape, on the parts of the converted automaton. */
  ghost predicate ShapeOf<A>(states: seq<State<A>>, cfinals: set<State<A>>, cinit: Option<State<A>>,
                          calph: set<A>, ceps: bool, n0: string, SS: map<State<A>, map<A, set<State<A>>>>,
                          xs: seq<State<A>>, k: nat, alph: set<A>,
                          init: Option<State<A>>, finals: set<State<A>>, mark: A)
  {
    && |states| > 0 && states[0].name == n0 && cinit == Some(states[0])
    && Linked([states[0]], {}, states, cfinals,
              NamesUpTo(xs, k) + NamesIn(ReachedUpTo(SS, xs, k, alph)),
              FinalNames(ReachedUpTo(SS, xs, k, alph), init, finals))
    && calph == SymbolsUpTo(SS, xs, k, alph)
    && ceps == (mark in calph)
  }

  /** The part of Converted about edges: each state carries the edges of the handled source states of its name. */
  ghost predicate EdgesAt<A>(states: seq<State<A>>, SS: map<State<A>, map<A, set<State<A>>>>,
                          xs: seq<State<A>>, k: nat, alph: set<A>)
    reads Frame(set x | x in states)
  {
    forall i :: 0 <= i < |states| ==> EdgeNames(states[i].transitions) == EdgesNamed(SS, xs, k, alph, states[i].name)
  }

  /** The converted automaton at the start: its initial state alone, with no final state, symbol or edge. */
  lemma ShapeStart<A>(i0: State<A>, n0: string, SS: map<State<A>, map<A, set<State<A>>>>, xs: seq<State<A>>,
                      alph: set<A>, init: Option<State<A>>, finals: set<State<A>>, mark: A)
    requires i0.name == n0
    ensures ShapeOf([i0], {}, Some(i0), {}, false, n0, SS, xs, 0, alph, init, finals, mark)
  {
    LinkedRefl([i0], {});
    assert NamesUpTo(xs, 0) == {} && ReachedUpTo(SS, xs, 0, alph) == {} && SymbolsUpTo(SS, xs, 0, alph) == {};
  }

  /** No converted state is a source state. */
  ghost predicate Outside<A>(states: seq<State<A>>, U: set<State<A>>) {
    forall i :: 0 <= i < |states| ==> states[i] !in U
  }

  lemma UpToStep<A>(SS: map<State<A>, map<A, set<State<A>>>>, xs: seq<State<A>>, k: nat, alph: set<A>)
    requires k < |xs| && xs[k] in SS
    ensures NamesUpTo(xs, k + 1) == NamesUpTo(xs, k) + {xs[k].name}
    ensures ReachedUpTo(SS, xs, k + 1, alph) == ReachedUpTo(SS, xs, k, alph) + ReachedBy(SS[xs[k]], alph)
    ensures SymbolsUpTo(SS, xs, k + 1, alph) == SymbolsUpTo(SS, xs, k, alph) + SymbolsBy(SS[xs[k]], alph)
    ensures EdgesNamed(SS, xs, k + 1, alph, xs[k].name) == EdgesNamed(SS, xs, k, alph, xs[k].name) + EdgesBy(SS[xs[k]], alph)
    ensures forall n :: n != xs[k].name ==> EdgesNamed(SS, xs, k + 1, alph, n) == EdgesNamed(SS, xs, k, alph, n)
  {
  }

  /** A name no handled source state has carries no edges. */
  lemma EdgesNamedNone<A>(SS: map<State<A>, map<A, set<State<A>>>>, xs: seq<State<A>>, k: nat,
                       alph: set<A>, n: string)
    requires n !in NamesUpTo(xs, k)
    ensures EdgesNamed(SS, xs, k, alph, n) == {}
  {
  }

  /** StepsOf, read through a snapshot of Frame(U) so that a frame left unchanged keeps it. */
  ghost function StepsWithin<A>(frame: set<object>, x: State<A>, alph: set<A>, eps: A, U: set<State<A>>): map<A, set<State<A>>>
    requires x in U && Closed(U) && frame == Frame(U)
    reads frame
  {
    StepsOf(x, alph, eps, U)
  }

  /** The step sets of the source states from the k-th on are still those of the current heap. */
  ghost predicate Pending<A>(SS: map<State<A>, map<A, set<State<A>>>>, xs: seq<State<A>>, k: nat,
                          alph: set<A>, eps: A, U: set<State<A>>, frame: set<object>)
    reads U, frame
  {
    && frame == Frame(U) && Closed(U)
    && forall j :: k <= j < |xs| ==> xs[j] in U && xs[j] in SS && SS[xs[j]] == StepsWithin(frame, xs[j], alph, eps, U)
  }

  /** Shape after one more source state, from Shape before it and what Advance did. */
  lemma ConvertStepProof<A>(SS: map<State<A>, map<A, set<State<A>>>>, xs: seq<State<A>>, k: nat,
                         alph: set<A>, n0: string, init: Option<State<A>>, finals: set<State<A>>,
                         current: State<A>, cinit: Option<State<A>>,
                         states0: seq<State<A>>, finals0: set<State<A>>, alph0: set<A>, eps0: bool,
                         states1: seq<State<A>>,
                         states2: seq<State<A>>, finals2: set<State<A>>, alph2: set<A>, eps2: bool, mark: A)
    requires k < |xs| && xs[k] in SS && current.name == xs[k].name
    requires ShapeOf(states0, finals0, cinit, alph0, eps0, n0, SS, xs, k, alph, init, finals, mark)
    requires current in states1 && NamesUnique(states1)
    requires states1 == states0 || (states1 == states0 + [current] && !HasName(states0, current.name))
    requires Linked(states1, finals0, states2, finals2,
                    NamesIn(ReachedBy(SS[xs[k]], alph)), FinalNames(ReachedBy(SS[xs[k]], alph), init, finals))
    requires alph2 == alph0 + SymbolsBy(SS[xs[k]], alph)
    requires eps2 == (eps0 || mark in SymbolsBy(SS[xs[k]], alph))
    ensures ShapeOf(states2, finals2, cinit, alph2, eps2, n0, SS, xs, k + 1, alph, init, finals, mark)
  {
    var R, RB := ReachedUpTo(SS, xs, k, alph), ReachedBy(SS[xs[k]], alph);
    var R2 := ReachedUpTo(SS, xs, k + 1, alph);
    var N, F := NamesUpTo(xs, k) + NamesIn(R), FinalNames(R, init, finals);
    var N2, F2 := NamesUpTo(xs, k + 1) + NamesIn(R2), FinalNames(R2, init, finals);
    UpToStep(SS, xs, k, alph);
    NamesInUnion(R, RB, init, finals);
    assert N2 == (N + {current.name}) + NamesIn(RB);
    assert F2 == F + FinalNames(RB, init, finals);
    LinkedStep([states0[0]], {}, states0, finals0, N, F, states1, finals0, current, {});
    LinkedTrans([states0[0]], {}, states1, finals0, N + {current.name}, F,
                states2, finals2, NamesIn(RB), FinalNames(RB, init, finals), N2, F2);
    PrefixAt([states0[0]], states2, 0);
  }

  lemma PrefixAt<A>(s0: seq<State<A>>, s: seq<State<A>>, i: nat)
    requires |s0| <= |s| && s[..|s0|] == s0 && i < |s0|
    ensures s[i] == s0[i]
  {
    assert s[..|s0|][i] == s[i];
  }
}
