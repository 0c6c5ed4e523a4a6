/**
 * Epsilon closure by depth-first search with an explicit stack and a visited set
 * (automata/automata_converter.py:178-193, src/AutomataConverter.java:255-278).
 * The epsilon symbol is a parameter: the Python code follows "ε", the Java code 'e'.
 */
module EpsilonClosure {
  import opened Graph

  /** D contains every eps-successor of its members. */
  ghost predicate EpsClosed<A>(D: set<State<A>>, eps: A)
    reads Frame(D)
  {
    forall x, t :: x in D && t in x.transitions && t.alphabet == eps ==> t.nextState in D
  }

  /**
   * The epsilon closure of start within the universe U: the states of U that lie in
   * every eps-closed subset of U containing start.
   */
  ghost function Closure<A>(start: State<A>, eps: A, U: set<State<A>>): (c: set<State<A>>)
    requires start in U && Closed(U)
    reads Frame(U)
  {
    set x | x in U && forall D {:trigger EpsClosed(D, eps)} :: D <= U && start in D && EpsClosed(D, eps) ==> x in D
  }

  lemma ClosureContainsStart<A>(start: State<A>, eps: A, U: set<State<A>>)
    requires start in U && Closed(U)
    ensures start in Closure(start, eps, U)
  {
  }

  /** The closure is closed under eps-edges. */
  lemma ClosureClosed<A>(start: State<A>, eps: A, U: set<State<A>>)
    requires start in U && Closed(U)
    ensures EpsClosed(Closure(start, eps, U), eps)
  {
    var C := Closure(start, eps, U);
    forall x, t | x in C && t in x.transitions && t.alphabet == eps ensures t.nextState in C {
      assert t.nextState in U;
      forall D | D <= U && start in D && EpsClosed(D, eps) ensures t.nextState in D {
        assert x in D;
      }
    }
  }

  /** The closure is the least such set: any eps-closed subset of U holding start contains it. */
  lemma ClosureLeast<A>(start: State<A>, eps: A, U: set<State<A>>, D: set<State<A>>)
    requires start in U && Closed(U)
    requires D <= U && start in D && EpsClosed(D, eps)
    ensures Closure(start, eps, U) <= D
  {
  }

  /**
   * get_epsilon_closure / getEpsilonClosure.  U is any edge-closed set of states holding
   * start (the automaton's states); it bounds the search.
   */
  method GetEpsilonClosure<A(==)>(start: State<A>, eps: A, ghost U: set<State<A>>) returns (closure: set<State<A>>)
    requires start in U && Closed(U)
    ensures closure == Closure(start, eps, U)
    ensures start in closure && EpsClosed(closure, eps) && closure <= U
  {
    ghost var C, frame := Closure(start, eps, U), Frame(U);
    ClosureContainsStart(start, eps, U);
    ClosureClosed(start, eps, U);
    closure := Search(start, eps, C);
    assert frame == Frame(U);
    assert closure <= C == Closure(start, eps, U);
    ClosureLeast(start, eps, U, closure);
  }

  /**
   * The search loop: pop a state, and if it is new, record it and push the targets of its
   * eps-labelled transitions.  C is any eps-closed set holding start; the search stays in it.
   */
  method Search<A(==)>(start: State<A>, eps: A, ghost C: set<State<A>>) returns (closure: set<State<A>>)
    requires start in C && EpsClosed(C, eps)
    ensures start in closure && EpsClosed(closure, eps) && closure <= C
  {
    closure := {};
    var visited: set<State<A>> := {};
    var stack := [start];
    while stack != []
      invariant visited == closure && visited <= C
      invariant forall k :: 0 <= k < |stack| ==> stack[k] in C
      invariant start in visited || start in stack
      invariant forall x, t :: x in visited && t in x.transitions && t.alphabet == eps ==>
        t.nextState in visited || t.nextState in stack
      decreases |C - visited|, |stack|
    {
      var current := stack[|stack| - 1];
      stack := stack[..|stack| - 1];
      if current !in visited {
        ghost var seen := visited;
        visited := visited + {current};
        closure := closure + {current};
        ghost var popped := stack;
        stack := PushEpsTargets(stack, current, eps);
        forall k | 0 <= k < |stack| ensures stack[k] in C {
          if k >= |popped| {
            var y := stack[k];
            assert y in Targets(current.transitions, eps);
            TargetsMember(current.transitions, eps, y);
            var i :| 0 <= i < |current.transitions| && current.transitions[i].alphabet == eps
              && current.transitions[i].nextState == y;
            assert current.transitions[i] in current.transitions;
          }
        }
        forall t | t in current.transitions && t.alphabet == eps ensures t.nextState in stack {
          TargetsMember(current.transitions, eps, t.nextState);
        }
        assert current in C - seen && C - visited == (C - seen) - {current};
      }
    }
  }

  /** The inner loop: push the target of every eps-labelled transition of current, in list order. */
  method PushEpsTargets<A(==)>(stack: seq<State<A>>, current: State<A>, eps: A) returns (r: seq<State<A>>)
    ensures r == stack + Targets(current.transitions, eps)
  {
    r := stack;
    var i := 0;
    while i < |current.transitions|
      invariant 0 <= i <= |current.transitions|
      invariant r == stack + Targets(current.transitions[..i], eps)
    {
      var t := current.transitions[i];
      assert current.transitions[..i + 1] == current.transitions[..i] + [t];
      TargetsAppend(current.transitions[..i], t, eps);
      if t.alphabet == eps {
        r := r + [t.nextState];
      }
      i := i + 1;
    }
    assert current.transitions[..i] == current.transitions;
  }

  /** The states one a-labelled edge away from a member of S. */
  ghost function Moves<A>(S: set<State<A>>, a: A): set<State<A>>
    reads Frame(S)
  {
    set x, i | x in S && 0 <= i < |x.transitions| && x.transitions[i].alphabet == a :: x.transitions[i].nextState
  }

  lemma MovesInside<A>(S: set<State<A>>, a: A, U: set<State<A>>)
    requires S <= U && Closed(U)
    ensures Moves(S, a) <= U
  {
  }

  /** The union of the eps-closures of the members of S. */
  ghost function CloseSet<A>(S: set<State<A>>, eps: A, U: set<State<A>>): set<State<A>>
    requires S <= U && Closed(U)
    reads Frame(U)
  {
    set x, y | x in S && y in Closure(x, eps, U) :: y
  }

  /**
   * What epsilon elimination gives x on symbol a: the closures of the a-successors of
   * the members of x's closure.
   */
  ghost function Step<A>(x: State<A>, a: A, eps: A, U: set<State<A>>): set<State<A>>
    requires x in U && Closed(U)
    reads Frame(U)
  {
    var C := Closure(x, eps, U);
    MovesInside(C, a, U);
    CloseSet(Moves(C, a), eps, U)
  }

  /** Every state Step reaches lies in U. */
  lemma StepInside<A>(x: State<A>, a: A, eps: A, U: set<State<A>>)
    requires x in U && Closed(U)
    ensures Step(x, a, eps, U) <= U
  {
  }

  lemma CloseSetEmpty<A>(eps: A, U: set<State<A>>)
    requires Closed(U)
    ensures CloseSet({}, eps, U) == {}
  {
  }

  /** Adding a state to S adds exactly its closure. */
  lemma CloseSetAdd<A>(S: set<State<A>>, x: State<A>, eps: A, U: set<State<A>>)
    requires S <= U && x in U && Closed(U)
    ensures CloseSet(S + {x}, eps, U) == CloseSet(S, eps, U) + Closure(x, eps, U)
  {
  }
}
