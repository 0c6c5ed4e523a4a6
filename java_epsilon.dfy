/**
 * src/AutomataConverter.java, convertToNFA and getEpsilonClosure: epsilon elimination in the
 * Java port, the same construction as automata/automata_converter.py's, over char symbols with
 * 'e' both the symbol the closure follows and the one that sets hasEpsilon.  For each state of
 * the source automaton and each symbol of its alphabet object, the states reached by one move
 * on the symbol from the state's epsilon closure, closed under 'e' again, become targets of the
 * converted state of the same name; converted states are matched to source states by name.
 */
module JavaEpsilon {
  import opened Wrappers
  import opened Graph
  import opened EpsilonClosure
  import opened Elimination
  import opened JavaAutomata

  /** The symbol getEpsilonClosure follows: the 'e' that addTransition records as epsilon. */
  const CLOSURE_EPSILON: char := EPSILON

  /**
   * getEpsilonClosure: the states reached from state by 'e' edges, state included; the least
   * set closed under them.  U is any edge-closed set of states holding state; within it the
   * closure is the least 'e'-closed set holding state.
   */
  method GetEpsilonClosure(state: State<char>, ghost U: set<State<char>>) returns (closure: set<State<char>>)
    requires state in U && Closed(U)
    ensures state in closure && EpsClosed(closure, CLOSURE_EPSILON) && closure <= U
    ensures forall D :: D <= U && state in D && EpsClosed(D, CLOSURE_EPSILON) ==> closure <= D
  {
    closure := EpsilonClosure.GetEpsilonClosure(state, CLOSURE_EPSILON, U);
    forall D | D <= U && state in D && EpsClosed(D, CLOSURE_EPSILON) ensures closure <= D {
      ClosureLeast(state, CLOSURE_EPSILON, U, D);
    }
  }

  /**
   * The third inner loop of convertToNFA: for each state s of ec, the converted state of
   * the same name (made when missing) becomes an a-target of current, and is marked final
   * when s is FINAL in src.
   */
  method LinkTargets(src: NFA, c: NFA, current: State<char>, a: char, ec: set<State<char>>)
    requires c.fa != src.fa && c.fa.alphabets != src.fa.alphabets
    requires current in c.fa.states && NamesUnique(c.fa.states)
    modifies c, c.fa, c.fa.alphabets, current
    ensures c.fa.alphabets == old(c.fa.alphabets)
    ensures c.fa.initialState == old(c.fa.initialState)
    ensures forall x :: x in c.fa.states ==> x in old(c.fa.states) || fresh(x)
    ensures forall i :: |old(c.fa.states)| <= i < |c.fa.states| ==> c.fa.states[i] != current && c.fa.states[i].transitions == []
    ensures Linked(old(c.fa.states), old(c.fa.finalStates), c.fa.states, c.fa.finalStates,
                   NamesIn(ec), FinalNames(ec, src.fa.initialState, src.fa.finalStates))
    ensures EdgeNames(current.transitions) == old(EdgeNames(current.transitions)) + EdgesTo(a, ec)
    ensures c.fa.alphabets.elems == old(c.fa.alphabets.elems) + (if ec == {} then {} else {a})
    ensures c.hasEpsilon == (old(c.hasEpsilon) || (ec != {} && a == EPSILON))
  {
    var left := ec;
    ghost var done: set<State<char>> := {};
    ghost var init, finals := src.fa.initialState, src.fa.finalStates;
    ghost var states0, finals0 := c.fa.states, c.fa.finalStates;
    ghost var edges0, alph0, eps0 := EdgeNames(current.transitions), c.fa.alphabets.elems, c.hasEpsilon;
    while left != {}
      invariant left == ec - done && done <= ec
      invariant c.fa.alphabets == old(c.fa.alphabets)
      invariant c.fa.initialState == old(c.fa.initialState)
      invariant forall x :: x in c.fa.states ==> x in states0 || fresh(x)
      invariant forall i :: |states0| <= i < |c.fa.states| ==> c.fa.states[i] != current && c.fa.states[i].transitions == []
      invariant LinkInv(c, current, a, states0, finals0, edges0, alph0, eps0, done, init, finals)
      decreases left
    {
      var s :| s in left;
      LinkStep(src, c, current, a, s, states0, finals0, edges0, alph0, eps0, done, init, finals);
      left, done := left - {s}, done + {s};
    }
  }

  /** What holds after LinkTargets has linked the states of done, given the automaton's parts at the start. */
  ghost predicate LinkInv(c: NFA, current: State<char>, a: char, states0: seq<State<char>>, finals0: set<State<char>>,
                          edges0: set<(char, string)>, alph0: set<char>, eps0: bool,
                          done: set<State<char>>, init: Option<State<char>>, finals: set<State<char>>)
    reads c, c.fa, c.fa.alphabets, current, current.transitions
  {
    LinkInvV(c.fa.states, c.fa.finalStates, EdgeNames(current.transitions), c.fa.alphabets.elems, c.hasEpsilon,
             current, a, states0, finals0, edges0, alph0, eps0, done, init, finals, EPSILON)
  }

  /** One round of LinkTargets, with the proof that it keeps LinkInv. */
  method LinkStep(src: NFA, c: NFA, current: State<char>, a: char, s: State<char>,
                  ghost states0: seq<State<char>>, ghost finals0: set<State<char>>,
                  ghost edges0: set<(char, string)>, ghost alph0: set<char>, ghost eps0: bool,
                  ghost done: set<State<char>>, ghost init: Option<State<char>>, ghost finals: set<State<char>>)
    requires c.fa != src.fa && c.fa.alphabets != src.fa.alphabets && init == src.fa.initialState && finals == src.fa.finalStates
    requires LinkInv(c, current, a, states0, finals0, edges0, alph0, eps0, done, init, finals)
    requires forall i :: |states0| <= i < |c.fa.states| ==> c.fa.states[i] != current && c.fa.states[i].transitions == []
    modifies c, c.fa, c.fa.alphabets, current
    ensures c.fa.alphabets == old(c.fa.alphabets)
    ensures LinkInv(c, current, a, states0, finals0, edges0, alph0, eps0, done + {s}, init, finals)
    ensures c.fa.initialState == old(c.fa.initialState)
    ensures forall x :: x in c.fa.states ==> x in old(c.fa.states) || fresh(x)
    ensures forall i :: |states0| <= i < |c.fa.states| ==> c.fa.states[i] != current && c.fa.states[i].transitions == []
  {
    ghost var states, cfinals, edges := c.fa.states, c.fa.finalStates, EdgeNames(current.transitions);
    ghost var alph, eps := c.fa.alphabets.elems, c.hasEpsilon;
    var t := LinkOne(src, c, current, a, s);
    LinkInvStep(states, cfinals, edges, alph, eps, c.fa.states, c.fa.finalStates, EdgeNames(current.transitions), c.fa.alphabets.elems, c.hasEpsilon,
                current, a, s, t, states0, finals0, edges0, alph0, eps0, done, init, finals, EPSILON);
    forall i | |states0| <= i < |c.fa.states| ensures c.fa.states[i] != current && c.fa.states[i].transitions == [] {
      if i < |states| {
        assert c.fa.states[i] == states[i];
      }
    }
  }

  /** One round of the third inner loop of convertToNFA, for the state s; t is the converted state named like s. */
  method LinkOne(src: NFA, c: NFA, current: State<char>, a: char, s: State<char>) returns (t: State<char>)
    requires c.fa != src.fa && c.fa.alphabets != src.fa.alphabets
    requires current in c.fa.states && NamesUnique(c.fa.states)
    modifies c, c.fa, c.fa.alphabets, current
    ensures c.fa.alphabets == old(c.fa.alphabets)
    ensures t in c.fa.states && t.name == s.name
    ensures c.fa.initialState == old(c.fa.initialState)
    ensures c.fa.states == old(c.fa.states) || (!HasName(old(c.fa.states), s.name) && fresh(t) && t.transitions == [] &&
      c.fa.states == old(c.fa.states) + [t])
    ensures NamesUnique(c.fa.states)
    ensures EdgeNames(current.transitions) == old(EdgeNames(current.transitions)) + {(a, s.name)}
    ensures c.fa.finalStates == old(c.fa.finalStates) + (if src.GetStateType(s) == Some(FINAL) then {t} else {})
    ensures c.fa.alphabets.elems == old(c.fa.alphabets.elems) + {a}
    ensures c.hasEpsilon == (old(c.hasEpsilon) || a == EPSILON)
  {
    t := c.GetStateByName(s.name);
    c.AddTransition(current, a, t);
    MarkFinal(src, c, s, t);
  }

  /** The last step of a round: t is marked final when s is FINAL in src (an initial s is not). */
  method MarkFinal(src: NFA, c: NFA, s: State<char>, t: State<char>)
    modifies c.fa
    ensures c.fa.finalStates == old(c.fa.finalStates) + (if src.GetStateType(s) == Some(FINAL) then {t} else {})
    ensures c.fa.states == old(c.fa.states) && c.fa.alphabets == old(c.fa.alphabets) && c.fa.initialState == old(c.fa.initialState)
  {
    if src.GetStateType(s) == Some(FINAL) {
      c.fa.AddFinalState(t);
    }
  }


  /**
   * One symbol of convertToNFA for the source state curr: the targets on a of curr's
   * epsilon closure (MovesOf), their closures (CloseAll), then linked from current (LinkTargets).
   * ec is what the source's epsilon set holds: Step of curr on a.
   */
  method EliminateSymbol(src: NFA, c: NFA, curr: State<char>, current: State<char>, a: char, ghost U: set<State<char>>)
    returns (ghost ec: set<State<char>>)
    requires c.fa != src.fa && c.fa.alphabets != src.fa.alphabets && curr in U && Closed(U)
    requires current in c.fa.states && NamesUnique(c.fa.states)
    modifies c, c.fa, c.fa.alphabets, current
    ensures c.fa.alphabets == old(c.fa.alphabets)
    ensures ec == old(Step(curr, a, CLOSURE_EPSILON, U))
    ensures c.fa.initialState == old(c.fa.initialState)
    ensures forall x :: x in c.fa.states ==> x in old(c.fa.states) || fresh(x)
    ensures forall i :: |old(c.fa.states)| <= i < |c.fa.states| ==> c.fa.states[i] != current && c.fa.states[i].transitions == []
    ensures Linked(old(c.fa.states), old(c.fa.finalStates), c.fa.states, c.fa.finalStates,
                   NamesIn(ec), FinalNames(ec, src.fa.initialState, src.fa.finalStates))
    ensures EdgeNames(current.transitions) == old(EdgeNames(current.transitions)) + EdgesTo(a, ec)
    ensures c.fa.alphabets.elems == old(c.fa.alphabets.elems) + (if ec == {} then {} else {a})
    ensures c.hasEpsilon == (old(c.hasEpsilon) || (ec != {} && a == EPSILON))
  {
    ghost var frame := Frame(U);
    var ecs := StepTargets(curr, a, CLOSURE_EPSILON, U);
    assert frame == Frame(U);
    ec := ecs;
    LinkTargets(src, c, current, a, ecs);
  }

  /**
   * One symbol a of the alphabet loop, with the proof that it keeps ElimInv and leaves the
   * source graph, and so its step sets, as they were.
   */
  method EliminateStep(src: NFA, c: NFA, curr: State<char>, current: State<char>, a: char, ghost U: set<State<char>>,
                       ghost steps: map<char, set<State<char>>>, ghost D: set<char>,
                       ghost states0: seq<State<char>>, ghost finals0: set<State<char>>, ghost edges0: set<(char, string)>,
                       ghost alph0: set<char>, ghost eps0: bool, ghost init: Option<State<char>>, ghost finals: set<State<char>>,
                       ghost frame: set<object>)
    requires c.fa != src.fa && c.fa.alphabets != src.fa.alphabets && curr in U && Closed(U)
    requires init == src.fa.initialState && finals == src.fa.finalStates
    requires a in src.fa.alphabets.elems && steps == StepsOf(curr, src.fa.alphabets.elems, CLOSURE_EPSILON, U) && current !in U
    requires frame == Frame(U) && c !in frame && c.fa !in frame && current !in frame
    requires ElimInv(c.fa.states, c.fa.finalStates, EdgeNames(current.transitions), c.fa.alphabets.elems, c.hasEpsilon, current, steps, D, states0, finals0, edges0, alph0, eps0, init, finals, EPSILON)
    requires Untouched(c.fa.states, |states0|, current, U)
    modifies c, c.fa, c.fa.alphabets, current
    ensures c.fa.alphabets == old(c.fa.alphabets)
    ensures ElimInv(c.fa.states, c.fa.finalStates, EdgeNames(current.transitions), c.fa.alphabets.elems, c.hasEpsilon, current, steps, D + {a}, states0, finals0, edges0, alph0, eps0, init, finals, EPSILON)
    ensures c.fa.initialState == old(c.fa.initialState)
    ensures Untouched(c.fa.states, |states0|, current, U)
    ensures Closed(U) && Frame(U) == frame && steps == StepsOf(curr, src.fa.alphabets.elems, CLOSURE_EPSILON, U)
    ensures forall x :: x in c.fa.states ==> x in old(c.fa.states) || fresh(x)
  {
    assert steps[a] == Step(curr, a, CLOSURE_EPSILON, U);
    LinkSymbol(src, c, curr, current, a, U, steps, D, states0, finals0, edges0, alph0, eps0, init, finals);
    assert unchanged(frame);
  }

  /** The work of EliminateStep: EliminateSymbol, then the proof that ElimInv and Untouched are kept. */
  method LinkSymbol(src: NFA, c: NFA, curr: State<char>, current: State<char>, a: char, ghost U: set<State<char>>,
                    ghost steps: map<char, set<State<char>>>, ghost D: set<char>,
                    ghost states0: seq<State<char>>, ghost finals0: set<State<char>>, ghost edges0: set<(char, string)>,
                    ghost alph0: set<char>, ghost eps0: bool, ghost init: Option<State<char>>, ghost finals: set<State<char>>)
    requires c.fa != src.fa && c.fa.alphabets != src.fa.alphabets && curr in U && Closed(U)
    requires init == src.fa.initialState && finals == src.fa.finalStates
    requires a in steps && steps[a] == Step(curr, a, CLOSURE_EPSILON, U) && current !in U
    requires ElimInv(c.fa.states, c.fa.finalStates, EdgeNames(current.transitions), c.fa.alphabets.elems, c.hasEpsilon, current, steps, D, states0, finals0, edges0, alph0, eps0, init, finals, EPSILON)
    requires Untouched(c.fa.states, |states0|, current, U)
    modifies c, c.fa, c.fa.alphabets, current
    ensures c.fa.alphabets == old(c.fa.alphabets)
    ensures ElimInv(c.fa.states, c.fa.finalStates, EdgeNames(current.transitions), c.fa.alphabets.elems, c.hasEpsilon, current, steps, D + {a}, states0, finals0, edges0, alph0, eps0, init, finals, EPSILON)
    ensures c.fa.initialState == old(c.fa.initialState)
    ensures Untouched(c.fa.states, |states0|, current, U)
    ensures forall x :: x in c.fa.states ==> x in old(c.fa.states) || fresh(x)
  {
    ghost var states, cfinals, edges := c.fa.states, c.fa.finalStates, EdgeNames(current.transitions);
    ghost var alph, eps := c.fa.alphabets.elems, c.hasEpsilon;
    var ec := EliminateSymbol(src, c, curr, current, a, U);
    forall i | |states0| <= i < |c.fa.states|
      ensures c.fa.states[i] !in U && c.fa.states[i] != current && c.fa.states[i].transitions == []
    {
      if i < |states| {
        assert c.fa.states[i] == states[i];
      } else if c.fa.states[i] in states {
        assert false;
      }
    }
    forall x | x in c.fa.states ensures x in states || fresh(x) {
      var i :| 0 <= i < |c.fa.states| && c.fa.states[i] == x;
      if i < |states| {
        assert c.fa.states[i] == states[i];
      }
    }
    ElimInvStep(current, steps, D, a, ec, states0, finals0, edges0, alph0, eps0, init, finals,
                states, cfinals, edges, alph, eps,
                c.fa.states, c.fa.finalStates, EdgeNames(current.transitions), c.fa.alphabets.elems, c.hasEpsilon, EPSILON);
  }

  /**
   * The alphabet loop of convertToNFA for the source state curr, whose converted state is
   * current: every symbol's step set is linked from current.
   */
  method EliminateState(src: NFA, c: NFA, curr: State<char>, current: State<char>, ghost U: set<State<char>>)
    returns (ghost steps: map<char, set<State<char>>>)
    requires c.fa != src.fa && c.fa.alphabets != src.fa.alphabets && curr in U && Closed(U)
    requires current in c.fa.states && NamesUnique(c.fa.states) && current !in U
    modifies c, c.fa, c.fa.alphabets, current
    ensures c.fa.alphabets == old(c.fa.alphabets)
    ensures steps == old(StepsOf(curr, src.fa.alphabets.elems, CLOSURE_EPSILON, U))
    ensures c.fa.initialState == old(c.fa.initialState)
    ensures Untouched(c.fa.states, |old(c.fa.states)|, current, U)
    ensures forall x :: x in c.fa.states ==> x in old(c.fa.states) || fresh(x)
    ensures Closed(U) && Frame(U) == old(Frame(U))
    ensures ElimInv(c.fa.states, c.fa.finalStates, EdgeNames(current.transitions), c.fa.alphabets.elems, c.hasEpsilon, current, steps, src.fa.alphabets.elems, old(c.fa.states), old(c.fa.finalStates), old(EdgeNames(current.transitions)),
                    old(c.fa.alphabets.elems), old(c.hasEpsilon), src.fa.initialState, src.fa.finalStates, EPSILON)
  {
    steps := StepsOf(curr, src.fa.alphabets.elems, CLOSURE_EPSILON, U);
    ghost var frame := Frame(U);
    ghost var init, finals := src.fa.initialState, src.fa.finalStates;
    ghost var states0, finals0 := c.fa.states, c.fa.finalStates;
    ghost var edges0, alph0, eps0 := EdgeNames(current.transitions), c.fa.alphabets.elems, c.hasEpsilon;
    ghost var D: set<char> := {};
    var left := src.fa.alphabets.elems;
    LinkedRefl(states0, finals0);
    assert c !in frame && c.fa !in frame && current !in frame;
    while left != {}
      invariant left == src.fa.alphabets.elems - D && D <= src.fa.alphabets.elems
      invariant c.fa.alphabets == old(c.fa.alphabets)
      invariant c.fa.initialState == old(c.fa.initialState)
      invariant Closed(U) && Frame(U) == frame && steps == StepsOf(curr, src.fa.alphabets.elems, CLOSURE_EPSILON, U)
      invariant Untouched(c.fa.states, |states0|, current, U)
      invariant forall x :: x in c.fa.states ==> x in states0 || fresh(x)
      invariant ElimInv(c.fa.states, c.fa.finalStates, EdgeNames(current.transitions), c.fa.alphabets.elems, c.hasEpsilon, current, steps, D, states0, finals0, edges0, alph0, eps0, init, finals, EPSILON)
      decreases left
    {
      var a :| a in left;
      EliminateStep(src, c, curr, current, a, U, steps, D, states0, finals0, edges0, alph0, eps0, init, finals, frame);
      left, D := left - {a}, D + {a};
    }
    assert D == src.fa.alphabets.elems;
  }

  /**
   * What holds after convertToNFA has handled the first k source states: the converted
   * automaton starts with its initial state, named n0; its states are named after n0, the
   * handled states and every state they reach, those reached FINAL being final; each state
   * carries the edges of the handled source states of its name; the alphabet is the symbols
   * those edges use.
   */
  ghost predicate Converted(c: NFA, n0: string, SS: map<State<char>, map<char, set<State<char>>>>,
                            xs: seq<State<char>>, k: nat, alph: set<char>,
                            init: Option<State<char>>, finals: set<State<char>>)
    reads c, c.fa, c.fa.alphabets, Frame(set x | x in c.fa.states)
  {
    Shape(c, n0, SS, xs, k, alph, init, finals) && EdgesAt(c.fa.states, SS, xs, k, alph)
  }

  /** The part of Converted about the states, final states and alphabet. */
  ghost predicate Shape(c: NFA, n0: string, SS: map<State<char>, map<char, set<State<char>>>>,
                        xs: seq<State<char>>, k: nat, alph: set<char>,
                        init: Option<State<char>>, finals: set<State<char>>)
    reads c, c.fa, c.fa.alphabets
  {
    ShapeOf(c.fa.states, c.fa.finalStates, c.fa.initialState, c.fa.alphabets.elems, c.hasEpsilon, n0, SS, xs, k, alph, init, finals, EPSILON)
  }

  /** The head of convertToNFA: a new automaton holding only its initial state, named n0. */
  method Start(n0: string, ghost SS: map<State<char>, map<char, set<State<char>>>>, ghost xs: seq<State<char>>,
               ghost alph: set<char>, ghost init: Option<State<char>>, ghost finals: set<State<char>>)
    returns (c: NFA)
    ensures fresh(c) && fresh(c.fa) && fresh(c.fa.alphabets) && forall x :: x in c.fa.states ==> fresh(x)
    ensures Converted(c, n0, SS, xs, 0, alph, init, finals)
  {
    c := new NFA();
    var i0 := new State(n0);
    c.fa.AddState(i0);
    c.fa.SetInitialState(Some(i0));
    ShapeStart(i0, n0, SS, xs, alph, init, finals, EPSILON);
    assert EdgeNames(i0.transitions) == {};
  }

  /**
   * One round of convertToNFA's outer loop: the converted state named like the k-th source
   * state (made when missing) receives the step sets of that state.
   */
  method ConvertStep(src: NFA, c: NFA, k: nat, ghost U: set<State<char>>, ghost SS: map<State<char>, map<char, set<State<char>>>>,
                     ghost n0: string, ghost init: Option<State<char>>, ghost finals: set<State<char>>, ghost frame: set<object>)
    requires c.fa != src.fa && c.fa.alphabets != src.fa.alphabets && k < |src.fa.states|
    requires init == src.fa.initialState && finals == src.fa.finalStates
    requires Pending(SS, src.fa.states, k, src.fa.alphabets.elems, CLOSURE_EPSILON, U, frame)
    requires Converted(c, n0, SS, src.fa.states, k, src.fa.alphabets.elems, init, finals)
    requires Outside(c.fa.states, U)
    modifies c, c.fa, c.fa.alphabets, c.fa.states
    ensures c.fa.alphabets == old(c.fa.alphabets)
    ensures Converted(c, n0, SS, src.fa.states, k + 1, src.fa.alphabets.elems, init, finals)
    ensures Outside(c.fa.states, U)
    ensures forall x :: x in c.fa.states ==> x in old(c.fa.states) || fresh(x)
    ensures Pending(SS, src.fa.states, k + 1, src.fa.alphabets.elems, CLOSURE_EPSILON, U, frame)
  {
    ghost var xs, alph := src.fa.states, src.fa.alphabets.elems;
    ghost var states0, finals0 := c.fa.states, c.fa.finalStates;
    ghost var alph0, eps0 := c.fa.alphabets.elems, c.hasEpsilon;
    assert xs[k] in U && SS[xs[k]] == StepsWithin(frame, xs[k], alph, CLOSURE_EPSILON, U);
    assert c !in frame && c.fa !in frame && forall x :: x in c.fa.states ==> x !in frame;
    var current, states1 := Advance(src, c, k, U, SS);
    assert unchanged(frame);
    assert Pending(SS, xs, k + 1, alph, CLOSURE_EPSILON, U, frame);
    ConvertStepProof(SS, xs, k, alph, n0, init, finals, current, c.fa.initialState, states0, finals0, alph0, eps0, states1,
                     c.fa.states, c.fa.finalStates, c.fa.alphabets.elems, c.hasEpsilon, EPSILON);
  }

  /** The work of ConvertStep: getStateByName, then the alphabet loop for the k-th source state. */
  method Advance(src: NFA, c: NFA, k: nat, ghost U: set<State<char>>, ghost SS: map<State<char>, map<char, set<State<char>>>>)
    returns (current: State<char>, ghost states1: seq<State<char>>)
    requires c.fa != src.fa && c.fa.alphabets != src.fa.alphabets && k < |src.fa.states| && src.fa.states[k] in U && Closed(U)
    requires src.fa.states[k] in SS && SS[src.fa.states[k]] == StepsOf(src.fa.states[k], src.fa.alphabets.elems, CLOSURE_EPSILON, U)
    requires NamesUnique(c.fa.states) && forall m :: m in NamesUpTo(src.fa.states, k) ==> HasName(c.fa.states, m)
    requires EdgesAt(c.fa.states, SS, src.fa.states, k, src.fa.alphabets.elems)
    requires Outside(c.fa.states, U)
    modifies c, c.fa, c.fa.alphabets, c.fa.states
    ensures c.fa.alphabets == old(c.fa.alphabets)
    ensures current.name == src.fa.states[k].name && current in states1 && NamesUnique(states1)
    ensures states1 == old(c.fa.states) || (states1 == old(c.fa.states) + [current] && !HasName(old(c.fa.states), current.name))
    ensures c.fa.initialState == old(c.fa.initialState)
    ensures Linked(states1, old(c.fa.finalStates), c.fa.states, c.fa.finalStates,
                   NamesIn(ReachedBy(SS[src.fa.states[k]], src.fa.alphabets.elems)),
                   FinalNames(ReachedBy(SS[src.fa.states[k]], src.fa.alphabets.elems), src.fa.initialState, src.fa.finalStates))
    ensures c.fa.alphabets.elems == old(c.fa.alphabets.elems) + SymbolsBy(SS[src.fa.states[k]], src.fa.alphabets.elems)
    ensures c.hasEpsilon == (old(c.hasEpsilon) || EPSILON in SymbolsBy(SS[src.fa.states[k]], src.fa.alphabets.elems))
    ensures EdgesAt(c.fa.states, SS, src.fa.states, k + 1, src.fa.alphabets.elems)
    ensures Outside(c.fa.states, U)
    ensures forall x :: x in c.fa.states ==> x in old(c.fa.states) || fresh(x)
    ensures Closed(U) && Frame(U) == old(Frame(U))
  {
    var curr := src.fa.states[k];
    ghost var xs, alph := src.fa.states, src.fa.alphabets.elems;
    ghost var states0 := c.fa.states;
    ghost var frame := Frame(U);
    current := Lookup(c, curr.name, U, SS, xs, k, alph, NamesUpTo(xs, k));
    assert frame == Frame(U);
    assert StepsOf(curr, alph, CLOSURE_EPSILON, U) == SS[curr];
    UpToStep(SS, xs, k, alph);
    states1 := c.fa.states;
    EliminateInto(src, c, curr, current, U, SS, xs, k, alph);
  }

  /**
   * getStateByName at the head of a round of the outer loop; a state it makes has no edges
   * and a name no handled source state has, so EdgesAt still holds.
   */
  method Lookup(c: NFA, n: string, ghost U: set<State<char>>, ghost SS: map<State<char>, map<char, set<State<char>>>>,
                ghost xs: seq<State<char>>, ghost k: nat, ghost alph: set<char>, ghost N: set<string>)
    returns (current: State<char>)
    requires NamesUnique(c.fa.states) && Outside(c.fa.states, U)
    requires NamesUpTo(xs, k) <= N && forall m :: m in N ==> HasName(c.fa.states, m)
    requires EdgesAt(c.fa.states, SS, xs, k, alph)
    modifies c.fa
    ensures current.name == n && current in c.fa.states && current !in U
    ensures c.fa.states == old(c.fa.states) || (c.fa.states == old(c.fa.states) + [current] && fresh(current) &&
      !HasName(old(c.fa.states), n))
    ensures NamesUnique(c.fa.states) && Outside(c.fa.states, U)
    ensures EdgesAt(c.fa.states, SS, xs, k, alph)
    ensures forall m :: m in N + {n} ==> HasName(c.fa.states, m)
    ensures c.fa.alphabets == old(c.fa.alphabets) && c.fa.initialState == old(c.fa.initialState)
    ensures c.fa.finalStates == old(c.fa.finalStates)
  {
    current := c.GetStateByName(n);
    if !HasName(old(c.fa.states), n) {
      assert n !in NamesUpTo(xs, k);
      EdgesNamedNone(SS, xs, k, alph, n);
      assert c.fa.states[|c.fa.states| - 1] == current;
      forall m | m in N ensures HasName(c.fa.states, m) {
        var i :| 0 <= i < |old(c.fa.states)| && old(c.fa.states)[i].name == m;
        assert c.fa.states[i] == old(c.fa.states)[i];
      }
    }
  }

  /**
   * The alphabet loop for the k-th source state curr, whose converted state current carries
   * the edges of the handled states of its name; afterwards every converted state carries
   * the edges of the first k + 1 source states of its name.
   */
  method EliminateInto(src: NFA, c: NFA, curr: State<char>, current: State<char>, ghost U: set<State<char>>,
                       ghost SS: map<State<char>, map<char, set<State<char>>>>,
                       ghost xs: seq<State<char>>, ghost k: nat, ghost alph: set<char>)
    requires c.fa != src.fa && c.fa.alphabets != src.fa.alphabets && curr in U && Closed(U) && xs == src.fa.states && alph == src.fa.alphabets.elems
    requires k < |xs| && curr == xs[k] && curr in SS && SS[curr] == StepsOf(curr, alph, CLOSURE_EPSILON, U)
    requires current in c.fa.states && current.name == curr.name && NamesUnique(c.fa.states) && current !in U
    requires Outside(c.fa.states, U)
    requires EdgesAt(c.fa.states, SS, xs, k, alph)
    requires forall m :: m in NamesUpTo(xs, k + 1) ==> HasName(c.fa.states, m)
    modifies c, c.fa, c.fa.alphabets, current
    ensures c.fa.alphabets == old(c.fa.alphabets)
    ensures c.fa.initialState == old(c.fa.initialState)
    ensures Outside(c.fa.states, U)
    ensures EdgesAt(c.fa.states, SS, xs, k + 1, alph)
    ensures forall x :: x in c.fa.states ==> x in old(c.fa.states) || fresh(x)
    ensures Linked(old(c.fa.states), old(c.fa.finalStates), c.fa.states, c.fa.finalStates,
                   NamesIn(ReachedBy(SS[curr], alph)), FinalNames(ReachedBy(SS[curr], alph), src.fa.initialState, src.fa.finalStates))
    ensures c.fa.alphabets.elems == old(c.fa.alphabets.elems) + SymbolsBy(SS[curr], alph)
    ensures c.hasEpsilon == (old(c.hasEpsilon) || EPSILON in SymbolsBy(SS[curr], alph))
    ensures Closed(U) && Frame(U) == old(Frame(U))
  {
    ghost var states1 := c.fa.states;
    assert EdgeNames(current.transitions) == EdgesNamed(SS, xs, k, alph, curr.name) by {
      var j :| 0 <= j < |states1| && states1[j] == current;
    }
    ghost var steps := EliminateState(src, c, curr, current, U);
    assert steps == SS[curr];
    UpToStep(SS, xs, k, alph);
    forall i | 0 <= i < |c.fa.states|
      ensures EdgeNames(c.fa.states[i].transitions) == EdgesNamed(SS, xs, k + 1, alph, c.fa.states[i].name)
    {
      var x := c.fa.states[i];
      if i < |states1| {
        assert x == states1[i];
        if x != current {
          assert x.name != curr.name;
          assert old(EdgeNames(states1[i].transitions)) == EdgesNamed(SS, xs, k, alph, x.name);
        }
      } else {
        assert x.transitions == [] && !HasName(states1, x.name);
        EdgesNamedNone(SS, xs, k + 1, alph, x.name);
      }
    }
  }

  /**
   * convertToNFA: a new automaton whose initial state is named like the source's; every
   * source state, in list order, gives its step sets to the converted state of its name.
   * A source without an initial state throws NullPointerException. U is the set of source states the
   * epsilon closures range over; it holds the listed states and every target of their edges.
   */
  method ConvertToNfa(src: NFA, ghost U: set<State<char>>) returns (r: Result<NFA, Error>)
    requires (forall x :: x in src.fa.states ==> x in U) && Closed(U)
    ensures r.Failure? <==> src.fa.initialState.None?
    ensures r.Failure? ==> r.error == NullPointer
    ensures r.Success? ==> fresh(r.value) && fresh(r.value.fa) && fresh(r.value.fa.alphabets) && src.fa.initialState.Some?
    ensures r.Success? ==> Converted(r.value, src.fa.initialState.value.name, old(AllSteps(src.fa.alphabets.elems, CLOSURE_EPSILON, U)), src.fa.states,
                                     |src.fa.states|, src.fa.alphabets.elems, src.fa.initialState, src.fa.finalStates)
  {
    if src.fa.initialState.None? {
      return Failure(NullPointer);
    }
    var c := ConvertFrom(src, U);
    r := Success(c);
  }

  /** convertToNFA past the initial state lookup. */
  method ConvertFrom(src: NFA, ghost U: set<State<char>>) returns (c: NFA)
    requires (forall x :: x in src.fa.states ==> x in U) && Closed(U) && src.fa.initialState.Some?
    ensures fresh(c) && fresh(c.fa) && fresh(c.fa.alphabets)
    ensures Converted(c, src.fa.initialState.value.name, old(AllSteps(src.fa.alphabets.elems, CLOSURE_EPSILON, U)), src.fa.states,
                      |src.fa.states|, src.fa.alphabets.elems, src.fa.initialState, src.fa.finalStates)
  {
    ghost var xs, alph, init, finals := src.fa.states, src.fa.alphabets.elems, src.fa.initialState, src.fa.finalStates;
    ghost var n0 := init.value.name;
    ghost var SS := AllSteps(alph, CLOSURE_EPSILON, U);
    ghost var frame := Frame(U);
    assert Pending(SS, xs, 0, alph, CLOSURE_EPSILON, U, frame);
    c := Start(src.fa.initialState.value.name, SS, xs, alph, init, finals);
    assert Pending(SS, xs, 0, alph, CLOSURE_EPSILON, U, frame);
    assert Outside(c.fa.states, U) by {
      forall i | 0 <= i < |c.fa.states| ensures c.fa.states[i] !in U {
        assert c.fa.states[i] in c.fa.states;
      }
    }
    forall i | 0 <= i < |c.fa.states| ensures fresh(c.fa.states[i]) {
      assert c.fa.states[i] in c.fa.states;
    }
    ConvertAll(src, c, U, SS, n0, init, finals, frame);
  }

  /** The outer loop of convertToNFA: every source state, in list order, handled by ConvertStep. */
  method ConvertAll(src: NFA, c: NFA, ghost U: set<State<char>>, ghost SS: map<State<char>, map<char, set<State<char>>>>,
                    ghost n0: string, ghost init: Option<State<char>>, ghost finals: set<State<char>>, ghost frame: set<object>)
    requires c.fa != src.fa && c.fa.alphabets != src.fa.alphabets
    requires init == src.fa.initialState && finals == src.fa.finalStates
    requires Pending(SS, src.fa.states, 0, src.fa.alphabets.elems, CLOSURE_EPSILON, U, frame)
    requires Converted(c, n0, SS, src.fa.states, 0, src.fa.alphabets.elems, init, finals)
    requires Outside(c.fa.states, U)
    modifies c, c.fa, c.fa.alphabets, c.fa.states
    ensures c.fa.alphabets == old(c.fa.alphabets)
    ensures Converted(c, n0, SS, src.fa.states, |src.fa.states|, src.fa.alphabets.elems, init, finals)
  {
    for k := 0 to |src.fa.states|
      invariant c.fa.alphabets == old(c.fa.alphabets)
      invariant Converted(c, n0, SS, src.fa.states, k, src.fa.alphabets.elems, init, finals)
      invariant Outside(c.fa.states, U)
      invariant forall x :: x in c.fa.states ==> x in old(c.fa.states) || fresh(x)
      invariant Pending(SS, src.fa.states, k, src.fa.alphabets.elems, CLOSURE_EPSILON, U, frame)
    {
      forall i | 0 <= i < |c.fa.states| ensures c.fa.states[i] in old(c.fa.states) || fresh(c.fa.states[i]) {
        assert c.fa.states[i] in c.fa.states;
      }
      ConvertStep(src, c, k, U, SS, n0, init, finals, frame);
    }
  }
}
