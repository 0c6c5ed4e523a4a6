/**
 * src/FiniteAutomata.java and src/NFA.java: the Java port's automaton classes.  Symbols are
 * chars and 'e' is epsilon.  The states are a LinkedHashSet, modelled as a list in insertion
 * order that addState keeps name-unique; the alphabet is a HashSet<Character> object, which
 * setAlphabets installs by reference, so two automata can share (and change) one alphabet.
 * State.java is not part of this model: a State is Graph.State over char, compared by identity.
 */
module JavaAutomata {
  import opened Wrappers
  import opened Names
  import opened Graph

  const EPSILON: char := 'e'

  /** A HashSet<Character>: a set object that several automata can hold at once. */
  class CharSet {
    var elems: set<char>

    constructor()
      ensures elems == {}
    {
      elems := {};
    }

    method Add(c: char)
      modifies this
      ensures elems == old(elems) + {c}
    {
      elems := elems + {c};
    }

    method Remove(c: char)
      modifies this
      ensures elems == old(elems) - {c}
    {
      elems := elems - {c};
    }
  }

  /** The names addStates leaves: each name of more appended unless already present. */
  function AddNames(names: seq<string>, more: seq<string>): seq<string>
    decreases |more|
  {
    if more == [] then names
    else AddNames(if more[0] in names then names else names + [more[0]], more[1..])
  }

  /** addStates keeps names unique, keeps the names already there, and ends with exactly the names of both lists. */
  lemma {:induction false} AddNamesSpec(names: seq<string>, more: seq<string>)
    requires Distinct(names)
    ensures Distinct(AddNames(names, more))
    ensures forall n :: n in AddNames(names, more) <==> n in names || n in more
    ensures |names| <= |AddNames(names, more)| && AddNames(names, more)[..|names|] == names
    decreases |more|
  {
    if more != [] {
      var next := if more[0] in names then names else names + [more[0]];
      AddNamesSpec(next, more[1..]);
      assert more == [more[0]] + more[1..];
      assert AddNames(names, more)[..|next|][..|names|] == names;
    }
  }

  /** The last step of addTransition (NFA and DFA): from gets the edge (a, to), kept once. */
  method AddEdge(from: State<char>, a: char, to: State<char>)
    modifies from
    ensures HasEdge(from.transitions, a, to)
    ensures old(HasEdge(from.transitions, a, to)) ==> from.transitions == old(from.transitions)
    ensures !old(HasEdge(from.transitions, a, to)) ==>
      |from.transitions| == old(|from.transitions|) + 1 && from.transitions[..old(|from.transitions|)] == old(from.transitions)
    ensures old(NoDuplicateEdges(from.transitions)) ==> NoDuplicateEdges(from.transitions)
    ensures EdgeNames(from.transitions) == EdgeNames(old(from.transitions)) + {(a, to.name)}
  {
    ghost var before := from.transitions;
    var t := new Transition(a, to);
    from.AddTransition(t);
    if HasEdge(before, a, to) {
      EdgeNamesHas(before, a, to);
    } else {
      EdgeNamesAppend(before, t);
    }
  }

  class FiniteAutomata {
    var states: seq<State<char>>
    var alphabets: CharSet
    var initialState: Option<State<char>>
    var finalStates: set<State<char>>

    constructor()
      ensures states == [] && fresh(alphabets) && alphabets.elems == {} && initialState == None && finalStates == {}
    {
      states := [];
      alphabets := new CharSet();
      initialState := None;
      finalStates := {};
    }

    /** isStateExist(String): the scan over the states for one of that name. */
    method IsStateExistName(n: string) returns (r: bool)
      ensures r <==> HasName(states, n)
    {
      var i := 0;
      while i < |states|
        invariant 0 <= i <= |states|
        invariant forall k :: 0 <= k < i ==> states[k].name != n
      {
        if states[i].name == n {
          return true;
        }
        i := i + 1;
      }
      return false;
    }

    /** isStateExist(State): the same scan, for the name of s. */
    method IsStateExist(s: State<char>) returns (r: bool)
      ensures r <==> HasName(states, s.name)
    {
      r := IsStateExistName(s.name);
    }

    /** addState: inserts s unless a state of that name is present (then only a message is printed). */
    method AddState(s: State<char>)
      modifies this
      ensures states == if HasName(old(states), s.name) then old(states) else old(states) + [s]
      ensures old(NamesUnique(states)) ==> NamesUnique(states)
      ensures HasName(states, s.name)
      ensures alphabets == old(alphabets) && initialState == old(initialState) && finalStates == old(finalStates)
    {
      var present := IsStateExist(s);
      if !present {
        states := states + [s];
        assert states[|states| - 1].name == s.name;
      }
    }

    /**
     * addStates: a new state for each name of more not yet present, in order; the states
     * already there stay where they are.
     */
    method AddStates(more: seq<string>)
      modifies this
      ensures NamesOf(states) == AddNames(NamesOf(old(states)), more)
      ensures |old(states)| <= |states| && states[..|old(states)|] == old(states)
      ensures forall i :: |old(states)| <= i < |states| ==> fresh(states[i]) && states[i].transitions == []
      ensures alphabets == old(alphabets) && initialState == old(initialState) && finalStates == old(finalStates)
    {
      var k := 0;
      while k < |more|
        invariant 0 <= k <= |more|
        invariant AddNames(NamesOf(old(states)), more) == AddNames(NamesOf(states), more[k..])
        invariant |old(states)| <= |states| && states[..|old(states)|] == old(states)
        invariant forall i :: |old(states)| <= i < |states| ==> fresh(states[i]) && states[i].transitions == []
        invariant alphabets == old(alphabets) && initialState == old(initialState) && finalStates == old(finalStates)
      {
        assert more[k..][1..] == more[k + 1..];
        var present := IsStateExistName(more[k]);
        assert present <==> more[k] in NamesOf(states);
        if !present {
          var s := new State(more[k]);
          ghost var before := states;
          states := states + [s];
          assert NamesOf(states) == NamesOf(before) + [more[k]];
        }
        k := k + 1;
      }
    }

    /** setAlphabets: this automaton now holds the given set object itself. */
    method SetAlphabets(alph: CharSet)
      modifies this
      ensures alphabets == alph
      ensures states == old(states) && initialState == old(initialState) && finalStates == old(finalStates)
    {
      alphabets := alph;
    }

    /** setInitialState (None for null). */
    method SetInitialState(s: Option<State<char>>)
      modifies this
      ensures initialState == s
      ensures states == old(states) && alphabets == old(alphabets) && finalStates == old(finalStates)
    {
      initialState := s;
    }

    /** addFinalState: the final states are a set, so adding twice changes nothing. */
    method AddFinalState(s: State<char>)
      modifies this
      ensures finalStates == old(finalStates) + {s}
      ensures states == old(states) && alphabets == old(alphabets) && initialState == old(initialState)
    {
      finalStates := finalStates + {s};
    }

    /** getStateByName (FiniteAutomata): the scan returning the first state of that name, or null. */
    method GetStateByName(n: string) returns (r: Option<State<char>>)
      ensures r == FirstNamed(states, n)
      ensures r.Some? ==> r.value in states && r.value.name == n
      ensures r.None? <==> !HasName(states, n)
    {
      var i := 0;
      while i < |states|
        invariant 0 <= i <= |states|
        invariant FirstNamed(states, n) == FirstNamed(states[i..], n)
      {
        assert states[i..][1..] == states[i + 1..];
        if states[i].name == n {
          return Some(states[i]);
        }
        i := i + 1;
      }
      return None;
    }
  }

  class NFA {
    const fa: FiniteAutomata
    var hasEpsilon: bool

    constructor()
      ensures fresh(fa) && fresh(fa.alphabets)
      ensures fa.states == [] && fa.alphabets.elems == {} && fa.initialState == None && fa.finalStates == {}
      ensures !hasEpsilon
    {
      fa := new FiniteAutomata();
      hasEpsilon := false;
    }

    /**
     * addTransition: records the symbol in the alphabet object (setting hasEpsilon for 'e',
     * which is never reset) and adds the edge to from.
     */
    method AddTransition(from: State<char>, a: char, to: State<char>)
      modifies this, fa.alphabets, from
      ensures hasEpsilon == (old(hasEpsilon) || a == EPSILON)
      ensures fa.alphabets.elems == old(fa.alphabets.elems) + {a}
      ensures HasEdge(from.transitions, a, to)
      ensures old(HasEdge(from.transitions, a, to)) ==> from.transitions == old(from.transitions)
      ensures !old(HasEdge(from.transitions, a, to)) ==>
        |from.transitions| == old(|from.transitions|) + 1 && from.transitions[..old(|from.transitions|)] == old(from.transitions)
      ensures old(NoDuplicateEdges(from.transitions)) ==> NoDuplicateEdges(from.transitions)
      ensures EdgeNames(from.transitions) == EdgeNames(old(from.transitions)) + {(a, to.name)}
    {
      if a == EPSILON {
        hasEpsilon := true;
        fa.alphabets.Add(EPSILON);
      } else {
        fa.alphabets.Add(a);
      }
      AddEdge(from, a, to);
    }

    /** getStateType: INITIAL for the initial state (by identity) even when final, FINAL for another final state, else null. */
    function GetStateType(s: State<char>): (r: Option<StateType>)
      reads fa
      ensures r == Some(INITIAL) <==> fa.initialState == Some(s)
      ensures r == Some(FINAL) <==> fa.initialState != Some(s) && s in fa.finalStates
      ensures r.None? <==> fa.initialState != Some(s) && s !in fa.finalStates
    {
      StateTypeOf(fa.initialState, fa.finalStates, s)
    }

    /** getStateByName (NFA): the first state of that name, made and added when there is none; never null. */
    method GetStateByName(n: string) returns (s: State<char>)
      modifies fa
      ensures s.name == n && s in fa.states
      ensures HasName(old(fa.states), n) ==> fa.states == old(fa.states) && Some(s) == FirstNamed(fa.states, n)
      ensures !HasName(old(fa.states), n) ==> fresh(s) && s.transitions == [] && fa.states == old(fa.states) + [s]
      ensures old(NamesUnique(fa.states)) ==> NamesUnique(fa.states)
      ensures fa.alphabets == old(fa.alphabets) && fa.initialState == old(fa.initialState) && fa.finalStates == old(fa.finalStates)
    {
      var found := fa.GetStateByName(n);
      if found.Some? {
        s := found.value;
      } else {
        s := new State(n);
        fa.AddState(s);
      }
    }
  }
}
