/**
 * src/DFA.java: the Java port's DFA, its acceptance test and the minimisation by partition
 * refinement.  Unlike the Python DFA it records every symbol, 'e' included; its equivalence
 * test keys group members by identity (a missing successor is in no group) and has no gate on
 * the group sizes; minimize leaves out the state named "?" and returns numbered lines.
 */
module JavaDfa {
  import opened Wrappers
  import opened Graph
  import opened Refinement
  import Partition
  import opened JavaAutomata

  /** The name minimize leaves out of the starting partition (the converter's dead state). */
  const PHI: string := "?"

  /** How `list.contains` finds a successor: a state is found as itself; null is in no list. */
  function Key(s: State<char>): Option<State<char>> {
    Some(s)
  }

  /** Both successors are members of one list of the partition (null is a member of none). */
  predicate Together(prev: seq<seq<State<char>>>, p: Option<State<char>>, q: Option<State<char>>) {
    exists j :: 0 <= j < |prev| && p.Some? && q.Some? && p.value in prev[j] && q.value in prev[j]
  }

  /** The successors of the states on the symbols, as is_equivalent reads them. */
  function SuccTable(states: seq<State<char>>, alph: set<char>): (r: map<(State<char>, char), Option<State<char>>>)
    reads Frame(set x | x in states)
    ensures forall x, a :: x in states && a in alph ==> (x, a) in r && r[(x, a)] == FirstTarget(x.transitions, a)
  {
    map x, a | x in states && a in alph :: (x, a) := FirstTarget(x.transitions, a)
  }

  /** A successor read from the table; a pair outside it reads as null. */
  function Lookup(table: map<(State<char>, char), Option<State<char>>>): (State<char>, char) -> Option<State<char>> {
    (x, a) => if (x, a) in table then table[(x, a)] else None
  }

  /** is_equivalent on a successor table, as the refinement calls it. */
  function Equivalence(alph: set<char>, table: map<(State<char>, char), Option<State<char>>>)
    : (seq<seq<State<char>>>, State<char>, State<char>) -> bool
  {
    (cur: seq<seq<State<char>>>, x: State<char>, y: State<char>) => TableEqv(cur, Key, alph, Lookup(table), x, y)
  }

  /** The partition minimize starts from: non-final then final states, leaving out PHI. */
  function StartPartition(states: seq<State<char>>, finals: set<State<char>>): seq<seq<State<char>>> {
    InitialPartition(states, (s: State<char>) => s in finals, (s: State<char>) => s.name == PHI)
  }

  /** One line of minimize's output, "i- Equivalence: <partition>": its number and the partition it shows. */
  datatype Line = Line(number: nat, partition: seq<seq<State<char>>>)

  /**
   * What minimize returns, from the starting partition p0, the refinement step and shown0,
   * p0 as the first refinement leaves it (a carried singleton list may have grown): lines
   * numbered 0, 1, ... in order; line 0 shows shown0, line k >= 1 the k-th refinement; the
   * loop ends at the first refinement keeping the group count, whose successor is printed
   * once more as the last line.  None when fuel steps do not reach such a refinement.
   */
  ghost predicate Printed(p0: seq<seq<State<char>>>, shown0: seq<seq<State<char>>>, step: seq<seq<State<char>>> -> seq<seq<State<char>>>, fuel: nat, r: Option<seq<Line>>) {
    match r
    case None => forall k :: 0 <= k <= fuel ==> !Stops(p0, step, k)
    case Some(lines) => |lines| >= 2 && PrintedLines(p0, shown0, step, fuel, lines, |lines| - 2)
  }

  /** The lines minimize prints when the loop ends after n refinements. */
  ghost predicate PrintedLines(p0: seq<seq<State<char>>>, shown0: seq<seq<State<char>>>, step: seq<seq<State<char>>> -> seq<seq<State<char>>>, fuel: nat, lines: seq<Line>, n: nat) {
    && |lines| == n + 2 && n <= fuel
    && (forall k :: 0 <= k < |lines| ==> lines[k].number == k)
    && lines[0].partition == shown0
    && (forall k :: 1 <= k < |lines| ==> lines[k].partition == Iterate(p0, step, k))
    && Stops(p0, step, n)
    && (forall k :: 0 <= k < n ==> !Stops(p0, step, k))
  }

  /** getNextStateForSymbol: the scan for the first transition on a; asked of null, it throws. */
  method GetNextStateForSymbol(state: Option<State<char>>, a: char) returns (r: Result<Option<State<char>>, Error>)
    ensures state.None? ==> r == Failure(NullPointer)
    ensures state.Some? ==> r == Success(FirstTarget(state.value.transitions, a))
    ensures r == Walk(state, [a], NullPointer)
  {
    if state.None? {
      return Failure(NullPointer);
    }
    var ts := state.value.transitions;
    var i := 0;
    while i < |ts|
      invariant 0 <= i <= |ts|
      invariant FirstTarget(ts, a) == FirstTarget(ts[i..], a)
    {
      assert ts[i..][1..] == ts[i + 1..];
      if ts[i].alphabet == a {
        return Success(Some(ts[i].nextState));
      }
      i := i + 1;
    }
    return Success(None);
  }

  /** The inner loop of is_equivalent: whether some list of prev contains both successors. */
  method InSameList(prev: seq<seq<State<char>>>, p: Option<State<char>>, q: Option<State<char>>) returns (found: bool)
    ensures found <==> Together(prev, p, q)
  {
    var j := 0;
    while j < |prev|
      invariant 0 <= j <= |prev|
      invariant forall k :: 0 <= k < j ==> !(p.Some? && q.Some? && p.value in prev[k] && q.value in prev[k])
    {
      if p.Some? && q.Some? && p.value in prev[j] && q.value in prev[j] {
        return true;
      }
      j := j + 1;
    }
    return false;
  }

  /** is_equivalent's loop over the symbols: it stops at the first whose successors no list holds together. */
  method SuccessorsTogether(prev: seq<seq<State<char>>>, x: State<char>, y: State<char>, alph: set<char>) returns (r: bool)
    ensures r <==> forall a :: a in alph ==> Together(prev, FirstTarget(x.transitions, a), FirstTarget(y.transitions, a))
  {
    var left := alph;
    while left != {}
      invariant left <= alph
      invariant forall a :: a in alph - left ==> Together(prev, FirstTarget(x.transitions, a), FirstTarget(y.transitions, a))
      decreases left
    {
      var a :| a in left;
      var n1 := GetNextStateForSymbol(Some(x), a);
      var n2 := GetNextStateForSymbol(Some(y), a);
      var found := InSameList(prev, n1.value, n2.value);
      if !found {
        return false;
      }
      left := left - {a};
    }
    return true;
  }

  /**
   * minimize's loop on the partitions: line 0 (shown0) is printed after the first
   * refinement, the loop prints each refinement that changed the group count, and the
   * refinement that keeps it is printed last.  fuel bounds the loop, which the source does
   * not bound.
   */
  method MinimizeLines(p0: seq<seq<State<char>>>, shown0: seq<seq<State<char>>>, step: seq<seq<State<char>>> -> seq<seq<State<char>>>, fuel: nat) returns (r: Option<seq<Line>>)
    ensures Printed(p0, shown0, step, fuel, r)
  {
    var previous := p0;
    var current := step(p0);
    var lines := [Line(0, shown0)];
    var i := 0;
    while |current| != |previous|
      invariant Progress(p0, shown0, step, fuel, lines, previous, current, i)
      decreases fuel - i
    {
      if i == fuel {
        ProgressNone(p0, shown0, step, fuel, lines, previous, current, i);
        return None;
      }
      ProgressStep(p0, shown0, step, fuel, lines, previous, current, i);
      i := i + 1;
      lines := lines + [Line(i, current)];
      previous := current;
      current := step(previous);
    }
    ProgressSome(p0, shown0, step, fuel, lines, previous, current, i);
    r := Some(lines + [Line(i + 1, current)]);
  }

  /**
   * Where MinimizeLines stands after i refinements: the lines printed so far, previous and
   * current the i-th and (i+1)-th refinements, and no earlier refinement kept the group count.
   */
  ghost predicate Progress(p0: seq<seq<State<char>>>, shown0: seq<seq<State<char>>>, step: seq<seq<State<char>>> -> seq<seq<State<char>>>,
                           fuel: nat, lines: seq<Line>, previous: seq<seq<State<char>>>, current: seq<seq<State<char>>>, i: nat) {
    && i <= fuel
    && |lines| == i + 1 && lines[0] == Line(0, shown0)
    && (forall k :: 1 <= k < |lines| ==> lines[k] == Line(k, Iterate(p0, step, k)))
    && previous == Iterate(p0, step, i) && current == Iterate(p0, step, i + 1)
    && (forall k :: 0 <= k < i ==> !Stops(p0, step, k))
  }

  /** A refinement that changed the group count is printed and the loop goes on. */
  lemma ProgressStep(p0: seq<seq<State<char>>>, shown0: seq<seq<State<char>>>, step: seq<seq<State<char>>> -> seq<seq<State<char>>>,
                     fuel: nat, lines: seq<Line>, previous: seq<seq<State<char>>>, current: seq<seq<State<char>>>, i: nat)
    requires Progress(p0, shown0, step, fuel, lines, previous, current, i) && |current| != |previous| && i < fuel
    ensures Progress(p0, shown0, step, fuel, lines + [Line(i + 1, current)], current, step(current), i + 1)
  {
    assert !Stops(p0, step, i);
    assert step(current) == Iterate(p0, step, i + 2);
  }

  /** Out of fuel: no refinement up to fuel kept the group count. */
  lemma ProgressNone(p0: seq<seq<State<char>>>, shown0: seq<seq<State<char>>>, step: seq<seq<State<char>>> -> seq<seq<State<char>>>,
                     fuel: nat, lines: seq<Line>, previous: seq<seq<State<char>>>, current: seq<seq<State<char>>>, i: nat)
    requires Progress(p0, shown0, step, fuel, lines, previous, current, i) && |current| != |previous| && i == fuel
    ensures Printed(p0, shown0, step, fuel, None)
  {
    assert !Stops(p0, step, i);
  }

  /** The refinement that keeps the group count is printed last. */
  lemma ProgressSome(p0: seq<seq<State<char>>>, shown0: seq<seq<State<char>>>, step: seq<seq<State<char>>> -> seq<seq<State<char>>>,
                     fuel: nat, lines: seq<Line>, previous: seq<seq<State<char>>>, current: seq<seq<State<char>>>, i: nat)
    requires Progress(p0, shown0, step, fuel, lines, previous, current, i) && |current| == |previous|
    ensures Printed(p0, shown0, step, fuel, Some(lines + [Line(i + 1, current)]))
  {
    assert PrintedLines(p0, shown0, step, fuel, lines + [Line(i + 1, current)], i);
  }

  class DFA {
    const fa: FiniteAutomata

    constructor()
      ensures fresh(fa) && fresh(fa.alphabets)
      ensures fa.states == [] && fa.alphabets.elems == {} && fa.initialState == None && fa.finalStates == {}
    {
      fa := new FiniteAutomata();
    }

    /** addTransition: every symbol, 'e' included, is recorded in the alphabet object, and the edge is added. */
    method AddTransition(from: State<char>, a: char, to: State<char>)
      modifies fa.alphabets, from
      ensures fa.alphabets.elems == old(fa.alphabets.elems) + {a}
      ensures HasEdge(from.transitions, a, to)
      ensures old(HasEdge(from.transitions, a, to)) ==> from.transitions == old(from.transitions)
      ensures !old(HasEdge(from.transitions, a, to)) ==>
        |from.transitions| == old(|from.transitions|) + 1 && from.transitions[..old(|from.transitions|)] == old(from.transitions)
      ensures old(NoDuplicateEdges(from.transitions)) ==> NoDuplicateEdges(from.transitions)
    {
      fa.alphabets.Add(a);
      AddEdge(from, a, to);
    }

    /** getNextStatesForAlphabet: the same scan as getNextStateForSymbol. */
    method GetNextStatesForAlphabet(state: Option<State<char>>, a: char) returns (r: Result<Option<State<char>>, Error>)
      ensures state.None? ==> r == Failure(NullPointer)
      ensures state.Some? ==> r == Success(FirstTarget(state.value.transitions, a))
    {
      r := GetNextStateForSymbol(state, a);
    }

    /** getStateType: INITIAL for the initial state (by identity) even when final, FINAL for another final state, else null. */
    function GetStateType(s: State<char>): (r: Option<StateType>)
      reads fa
      ensures r == Some(INITIAL) <==> fa.initialState == Some(s)
      ensures r == Some(FINAL) <==> fa.initialState != Some(s) && s in fa.finalStates
      ensures r.None? <==> fa.initialState != Some(s) && s !in fa.finalStates
    {
      StateTypeOf(fa.initialState, fa.finalStates, s)
    }

    /**
     * isStringAccepted: from the initial state, one step per character; accepted when the
     * state reached is final (null is not).  A step from null throws NullPointerException.
     */
    method IsStringAccepted(s: string) returns (r: Result<bool, Error>)
      ensures r == Accepts(fa.initialState, s, fa.finalStates, NullPointer)
      ensures s == [] ==> r == Success(fa.initialState.Some? && fa.initialState.value in fa.finalStates)
    {
      var current := fa.initialState;
      var k := 0;
      while k < |s|
        invariant 0 <= k <= |s|
        invariant Walk(fa.initialState, s, NullPointer) == Walk(current, s[k..], NullPointer)
      {
        assert s[k..] == [s[k]] + s[k + 1..];
        WalkConcat(current, [s[k]], s[k + 1..], NullPointer);
        var next := GetNextStateForSymbol(current, s[k]);
        if next.Failure? {
          return Failure(next.error);
        }
        current := next.value;
        k := k + 1;
      }
      return Success(current.Some? && current.value in fa.finalStates);
    }

    /**
     * is_equivalent: for every symbol of the alphabet, some list of prev contains both
     * successors (a null successor is contained in none); true for an empty alphabet.
     */
    method IsEquivalent(prev: seq<seq<State<char>>>, x: State<char>, y: State<char>) returns (r: bool)
      ensures r <==> forall a :: a in fa.alphabets.elems ==> Together(prev, FirstTarget(x.transitions, a), FirstTarget(y.transitions, a))
      ensures x in fa.states && y in fa.states ==> (r <==> Eqv()(prev, x, y))
      ensures fa.alphabets.elems == {} ==> r
    {
      r := SuccessorsTogether(prev, x, y, fa.alphabets.elems);
      if x in fa.states && y in fa.states {
        EqvAgrees(prev, x, y);
      }
    }

    /** The table form of is_equivalent agrees with the scans on states of this automaton. */
    lemma EqvAgrees(prev: seq<seq<State<char>>>, x: State<char>, y: State<char>)
      requires x in fa.states && y in fa.states
      ensures Eqv()(prev, x, y) <==>
        forall a :: a in fa.alphabets.elems ==> Together(prev, FirstTarget(x.transitions, a), FirstTarget(y.transitions, a))
    {
      var alph := fa.alphabets.elems;
      var table := SuccTable(fa.states, alph);
      forall a | a in alph
        ensures (exists g :: g in prev && InGroup(g, Key, Lookup(table)(x, a)) && InGroup(g, Key, Lookup(table)(y, a)))
            <==> Together(prev, FirstTarget(x.transitions, a), FirstTarget(y.transitions, a))
      {
        var p, q := FirstTarget(x.transitions, a), FirstTarget(y.transitions, a);
        assert Lookup(table)(x, a) == p && Lookup(table)(y, a) == q;
        if Together(prev, p, q) {
          var j :| 0 <= j < |prev| && p.Some? && q.Some? && p.value in prev[j] && q.value in prev[j];
          assert Key(p.value) == p && Key(q.value) == q;
          assert prev[j] in prev && InGroup(prev[j], Key, p) && InGroup(prev[j], Key, q);
        }
        if exists g :: g in prev && InGroup(g, Key, p) && InGroup(g, Key, q) {
          var g :| g in prev && InGroup(g, Key, p) && InGroup(g, Key, q);
          var j :| 0 <= j < |prev| && prev[j] == g;
          var m1 :| m1 in g && Key(m1) == p;
          var m2 :| m2 in g && Key(m2) == q;
        }
      }
    }

    /** The refinement step's test: is_equivalent over this automaton's successors. */
    ghost function Eqv(): (seq<seq<State<char>>>, State<char>, State<char>) -> bool
      reads this, fa, fa.alphabets, Frame(set s | s in fa.states)
    {
      Equivalence(fa.alphabets.elems, SuccTable(fa.states, fa.alphabets.elems))
    }

    /**
     * getNextEquivalence: Refinement.Refine with is_equivalent as the test; the groups are
     * non-empty and hold exactly the states of the previous partition.  prevAfter is prev as
     * the appends to its carried singleton lists leave it.
     */
    method GetNextEquivalence(prev: seq<seq<State<char>>>) returns (next: seq<seq<State<char>>>, prevAfter: seq<seq<State<char>>>)
      ensures next == Refine(prev, old(Eqv())).next && prevAfter == Refine(prev, old(Eqv())).cur
      ensures multiset(Flatten(next)) == multiset(Flatten(prev))
      ensures forall j :: 0 <= j < |next| ==> |next[j]| > 0
    {
      var eqv := Equivalence(fa.alphabets.elems, SuccTable(fa.states, fa.alphabets.elems));
      assert eqv == Eqv();
      next, prevAfter := Partition.GetNextEquivalence(prev, eqv);
      RefineSpec(prev, eqv);
    }

    /**
     * minimize: the numbered lines of the partitions from [non-final, final] (without "?"),
     * refined by getNextEquivalence until the group count repeats, as Printed describes;
     * None when fuel steps do not get there.  (old: the automaton as minimize read it;
     * nothing changes it.)
     */
    method Minimize(fuel: nat) returns (r: Option<seq<Line>>)
      ensures Printed(old(StartPartition(fa.states, fa.finalStates)), Refine(old(StartPartition(fa.states, fa.finalStates)), old(Eqv())).cur,
                      Step(old(Eqv())), fuel, r)
    {
      var p0 := StartPartition(fa.states, fa.finalStates);
      var eqv := Equivalence(fa.alphabets.elems, SuccTable(fa.states, fa.alphabets.elems));
      assert eqv == Eqv();
      var first, shown := Partition.GetNextEquivalence(p0, eqv);
      r := MinimizeLines(p0, shown, Step(eqv), fuel);
    }
  }
}
