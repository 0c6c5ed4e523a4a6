/**
 * automata/dfa.py: the DFA the converter builds, its acceptance test and the minimisation by
 * partition refinement.  Like NFA, a DFA holds its FiniteAutomata part.  The equivalence test
 * reads the successor of each state on each symbol; the refinement runs on a table of those
 * successors' names taken from the heap (nothing changes the graph while it runs).
 */
module PyDfa {
  import opened Wrappers
  import opened Graph
  import opened Refinement
  import Partition
  import opened PyAutomata

  /** The name minimize leaves out of the starting partition. */
  const PHI: string := "Ø"

  /** str() of a state: its name. */
  function NameOf(s: State<string>): string {
    s.name
  }

  /** str() of a successor: its name, or "None" when there is none. */
  function NameOrNone(q: Option<State<string>>): string {
    if q.Some? then q.value.name else "None"
  }

  /** The characters of a Python string, each a one-character string as `for c in s` yields it. */
  function Chars(s: string): (r: seq<string>)
    ensures |r| == |s| && forall i :: 0 <= i < |s| ==> r[i] == [s[i]]
  {
    seq(|s|, i requires 0 <= i < |s| => [s[i]])
  }

  /**
   * get_next_state_for_symbol: one step of a walk; the first target on symbol a, or None.
   * Asking it of None (a walk that has already fallen off) raises AttributeError.
   */
  function NextStateForSymbol(q: Option<State<string>>, a: string): (r: Result<Option<State<string>>, Error>)
    reads *
    ensures r == Walk(q, [a], AttributeError)
  {
    if q.None? then Failure(AttributeError) else Success(FirstTarget(q.value.transitions, a))
  }

  /**
   * states_in_same_group: some group's member names include both s1 and s2 (a name compared
   * as str(), so "None" matches a state named "None").
   */
  function StatesInSameGroup(groups: seq<seq<State<string>>>, s1: string, s2: string): (r: bool)
    ensures r <==> exists g :: g in groups && InGroup(g, NameOf, s1) && InGroup(g, NameOf, s2)
  {
    if groups == [] then false
    else
      var names := NamesOf(groups[0]);
      assert InGroup(groups[0], NameOf, s1) <==> s1 in names by {
        if s1 in names {
          var i :| 0 <= i < |names| && names[i] == s1;
          assert NameOf(groups[0][i]) == s1;
        }
      }
      assert InGroup(groups[0], NameOf, s2) <==> s2 in names by {
        if s2 in names {
          var i :| 0 <= i < |names| && names[i] == s2;
          assert NameOf(groups[0][i]) == s2;
        }
      }
      (s1 in names && s2 in names) || StatesInSameGroup(groups[1..], s1, s2)
  }

  /** The names of the successors of the states on the symbols, as is_equivalent reads them. */
  function SuccTable(states: seq<State<string>>, alph: set<string>): (r: map<(State<string>, string), string>)
    reads Frame(set x | x in states)
    ensures forall x, a :: x in states && a in alph ==> (x, a) in r && r[(x, a)] == NameOrNone(FirstTarget(x.transitions, a))
  {
    map x, a | x in states && a in alph :: (x, a) := NameOrNone(FirstTarget(x.transitions, a))
  }

  /** A successor name read from the table; a pair outside it reads as "None". */
  function Lookup(table: map<(State<string>, string), string>): (State<string>, string) -> string {
    (x, a) => if (x, a) in table then table[(x, a)] else "None"
  }

  /** is_equivalent on a successor table, as the refinement calls it. */
  function Equivalence(alph: set<string>, table: map<(State<string>, string), string>)
    : (seq<seq<State<string>>>, State<string>, State<string>) -> bool
  {
    (cur: seq<seq<State<string>>>, x: State<string>, y: State<string>) => PyEquivalent(cur, NameOf, alph, Lookup(table), x, y)
  }

  /** The partition minimize starts from: non-final then final states, leaving out PHI. */
  function StartPartition(states: seq<State<string>>, finals: set<State<string>>): seq<seq<State<string>>> {
    InitialPartition(states, (s: State<string>) => s in finals, (s: State<string>) => s.name == PHI)
  }

  class DFA {
    const fa: FiniteAutomata

    constructor()
      ensures fresh(fa)
      ensures fa.states == [] && fa.alphabets == {} && fa.initialState == None && fa.finalStates == {}
    {
      fa := new FiniteAutomata();
    }

    /** add_transition: an epsilon edge is dropped; any other symbol is recorded and its edge added. */
    method AddTransition(from: State<string>, a: string, to: State<string>)
      modifies fa, from
      ensures a == EPSILON ==> fa.alphabets == old(fa.alphabets) && from.transitions == old(from.transitions)
      ensures a != EPSILON ==> fa.alphabets == old(fa.alphabets) + {a} && HasEdge(from.transitions, a, to)
      ensures a != EPSILON && old(HasEdge(from.transitions, a, to)) ==> from.transitions == old(from.transitions)
      ensures a != EPSILON && !old(HasEdge(from.transitions, a, to)) ==>
        |from.transitions| == old(|from.transitions|) + 1 && from.transitions[..old(|from.transitions|)] == old(from.transitions)
      ensures old(NoDuplicateEdges(from.transitions)) ==> NoDuplicateEdges(from.transitions)
      ensures fa.states == old(fa.states) && fa.initialState == old(fa.initialState) && fa.finalStates == old(fa.finalStates)
    {
      if a != EPSILON {
        fa.alphabets := fa.alphabets + {a};
        var t := new Transition(a, to);
        from.AddTransition(t);
      }
    }

    /**
     * is_string_accepted: from the initial state, one step per character; accepted when the
     * state reached is final.  Stepping from None raises AttributeError.
     */
    method IsStringAccepted(s: string) returns (r: Result<bool, Error>)
      ensures r == Accepts(fa.initialState, Chars(s), fa.finalStates, AttributeError)
    {
      var syms := Chars(s);
      var current := fa.initialState;
      var k := 0;
      while k < |s|
        invariant 0 <= k <= |s|
        invariant Walk(fa.initialState, syms, AttributeError) == Walk(current, syms[k..], AttributeError)
      {
        assert syms[k..] == [syms[k]] + syms[k + 1..];
        WalkConcat(current, [syms[k]], syms[k + 1..], AttributeError);
        var next := NextStateForSymbol(current, [s[k]]);
        if next.Failure? {
          return Failure(next.error);
        }
        current := next.value;
        k := k + 1;
      }
      return Success(current.Some? && current.value in fa.finalStates);
    }

    /**
     * is_equivalent: None when no group of the previous partition has two or more members
     * (the loop falls through); otherwise whether, for every symbol, some group holds both
     * successors' names.
     */
    function IsEquivalent(prev: seq<seq<State<string>>>, x: State<string>, y: State<string>): (r: Option<bool>)
      reads this, fa, Frame({x, y}), Frame(set s | s in fa.states)
      ensures r.None? <==> forall g :: g in prev ==> |g| <= 1
      ensures x in fa.states && y in fa.states ==>
        (r == Some(true) <==> Equivalence(fa.alphabets, SuccTable(fa.states, fa.alphabets))(prev, x, y))
    {
      if forall g :: g in prev ==> |g| <= 1 then None
      else
        var b := forall a :: a in fa.alphabets ==>
          StatesInSameGroup(prev, NameOrNone(FirstTarget(x.transitions, a)), NameOrNone(FirstTarget(y.transitions, a)));
        assert x in fa.states && y in fa.states ==> (b <==> TableEqv(prev, NameOf, fa.alphabets, Lookup(SuccTable(fa.states, fa.alphabets)), x, y)) by {
          if x in fa.states && y in fa.states {
            var table := SuccTable(fa.states, fa.alphabets);
            forall a | a in fa.alphabets
              ensures Lookup(table)(x, a) == NameOrNone(FirstTarget(x.transitions, a))
              ensures Lookup(table)(y, a) == NameOrNone(FirstTarget(y.transitions, a))
            {
            }
          }
        }
        Some(b)
    }
    /** The refinement step with this automaton's equivalence test. */
    ghost function Eqv(): (seq<seq<State<string>>>, State<string>, State<string>) -> bool
      reads this, fa, Frame(set s | s in fa.states)
    {
      Equivalence(fa.alphabets, SuccTable(fa.states, fa.alphabets))
    }

    /**
     * get_next_equivalence: Refinement.Refine with is_equivalent as the test; the groups are
     * non-empty and hold exactly the states of the previous partition.
     */
    method GetNextEquivalence(prev: seq<seq<State<string>>>) returns (next: seq<seq<State<string>>>)
      ensures next == Refine(prev, old(Eqv())).next
      ensures multiset(Flatten(next)) == multiset(Flatten(prev))
      ensures forall j :: 0 <= j < |next| ==> |next[j]| > 0
    {
      var eqv := Equivalence(fa.alphabets, SuccTable(fa.states, fa.alphabets));
      assert eqv == Eqv();
      var shared;
      next, shared := Partition.GetNextEquivalence(prev, eqv);
      RefineSpec(prev, eqv);
    }

    /**
     * minimize: the partitions from [non-final, final] (without PHI) up to the first whose
     * successor has as many groups; consecutive ones differ in group count.  None when fuel
     * steps do not reach such a partition.  (old: the automaton as minimize read it; nothing
     * changes it.)
     */
    method Minimize(fuel: nat) returns (r: Option<seq<seq<seq<State<string>>>>>)
      ensures Partition.Recorded(old(StartPartition(fa.states, fa.finalStates)), Step(old(Eqv())), fuel, r)
    {
      var p0 := StartPartition(fa.states, fa.finalStates);
      var eqv := Equivalence(fa.alphabets, SuccTable(fa.states, fa.alphabets));
      assert eqv == Eqv();
      r := Partition.Minimize(p0, Step(eqv), fuel);
    }

    /** get_transitions (DFA): the NFA's entries with the epsilon symbol skipped. */
    method GetTransitions() returns (rows: seq<Row>)
      ensures forall r :: r in rows <==> r.symbol != EPSILON && exists i :: 0 <= i < |fa.states| && IsRow(fa.states[i], fa.alphabets, r)
      ensures NamesUnique(fa.states) ==>
        forall i, j :: 0 <= i < j < |rows| ==> rows[i].from != rows[j].from || rows[i].symbol != rows[j].symbol
    {
      rows := TransitionRows(fa.states, fa.alphabets - {EPSILON});
    }
  }
}
