/**
 * automata/finite_automata.py and automata/nfa.py: the state list, alphabet, initial and
 * final states every automaton holds, and the NFA that builds them.  Symbols are
 * one-character strings; "e" is the epsilon symbol.  NFA inherits FiniteAutomata in Python;
 * here an NFA holds its FiniteAutomata part.
 */
module PyAutomata {
  import opened Wrappers
  import opened Names
  import opened Graph

  const EPSILON: string := "e"

  /** What is_state_exist is handed: a State, a name, or anything else (None, say). */
  datatype StateArg = StateValue(state: State<string>) | NameValue(name: string) | OtherValue

  /** The list add_states leaves: each state of more appended unless its name is already present. */
  function AddAll(states: seq<State<string>>, more: seq<State<string>>): seq<State<string>>
    decreases |more|
  {
    if more == [] then states
    else AddAll(if HasName(states, more[0].name) then states else states + [more[0]], more[1..])
  }

  /** add_states keeps names unique and ends with exactly the names of both lists. */
  lemma {:induction false} AddAllNames(states: seq<State<string>>, more: seq<State<string>>)
    requires NamesUnique(states)
    ensures NamesUnique(AddAll(states, more))
    ensures forall n :: HasName(AddAll(states, more), n) <==> HasName(states, n) || HasName(more, n)
    ensures forall i :: 0 <= i < |states| ==> i < |AddAll(states, more)| && AddAll(states, more)[i] == states[i]
    decreases |more|
  {
    if more != [] {
      var next := if HasName(states, more[0].name) then states else states + [more[0]];
      assert forall n :: HasName(next, n) <==> HasName(states, n) || n == more[0].name by {
        forall n ensures HasName(next, n) <==> HasName(states, n) || n == more[0].name {
          if next != states && n == more[0].name {
            assert next[|states|].name == n;
          }
          if HasName(next, n) && next != states {
            var i :| 0 <= i < |next| && next[i].name == n;
            if i < |states| {
              assert states[i].name == n;
            }
          }
        }
      }
      assert AddAll(states, more) == AddAll(next, more[1..]);
      AddAllNames(next, more[1..]);
      forall n ensures HasName(more, n) <==> n == more[0].name || HasName(more[1..], n) {
        if HasName(more, n) {
          var i :| 0 <= i < |more| && more[i].name == n;
          if i > 0 {
            assert more[1..][i - 1].name == n;
          }
        }
        if HasName(more[1..], n) {
          var i :| 0 <= i < |more[1..]| && more[1..][i].name == n;
          assert more[i + 1].name == n;
        }
      }
    } else {
      assert AddAll(states, more) == states;
    }
    AddAllPrefix(states, more);
  }

  /** add_states only appends: the states already there keep their positions. */
  lemma {:induction false} AddAllPrefix(states: seq<State<string>>, more: seq<State<string>>)
    ensures |states| <= |AddAll(states, more)|
    ensures forall i :: 0 <= i < |states| ==> AddAll(states, more)[i] == states[i]
    decreases |more|
  {
    if more != [] {
      var next := if HasName(states, more[0].name) then states else states + [more[0]];
      AddAllPrefix(next, more[1..]);
      assert forall i :: 0 <= i < |states| ==> next[i] == states[i];
    }
  }

  /** One entry of get_transitions: [from name, symbol, target name]. */
  datatype Row = Row(from: string, symbol: string, to: string)

  /** r is the entry for state s and a symbol of alph: the first target on that symbol. */
  ghost predicate IsRow(s: State<string>, alph: set<string>, r: Row)
    reads s, s.transitions
  {
    && r.from == s.name && r.symbol in alph
    && FirstTarget(s.transitions, r.symbol).Some? && FirstTarget(s.transitions, r.symbol).value.name == r.to
  }

  /** The inner loop of get_transitions: one entry per symbol of alph (in any order) on which s has an edge. */
  method StateRows(s: State<string>, alph: set<string>) returns (rows: seq<Row>)
    ensures forall r :: r in rows <==> IsRow(s, alph, r)
    ensures forall i, j :: 0 <= i < j < |rows| ==> rows[i].symbol != rows[j].symbol
  {
    rows := [];
    var left := alph;
    while left != {}
      invariant left <= alph
      invariant forall r :: r in rows <==> IsRow(s, alph, r) && r.symbol !in left
      invariant forall i, j :: 0 <= i < j < |rows| ==> rows[i].symbol != rows[j].symbol
      decreases left
    {
      var a :| a in left;
      var t := FirstTarget(s.transitions, a);
      if t.Some? {
        rows := rows + [Row(s.name, a, t.value.name)];
      }
      left := left - {a};
    }
  }

  /**
   * get_transitions (NFA, and DFA over its non-epsilon symbols): for each state in list order,
   * the entries of StateRows.  With unique names no (state, symbol) pair appears twice.
   */
  method TransitionRows(states: seq<State<string>>, alph: set<string>) returns (rows: seq<Row>)
    ensures forall r :: r in rows <==> exists i :: 0 <= i < |states| && IsRow(states[i], alph, r)
    ensures NamesUnique(states) ==>
      forall i, j :: 0 <= i < j < |rows| ==> rows[i].from != rows[j].from || rows[i].symbol != rows[j].symbol
  {
    rows := [];
    var k := 0;
    while k < |states|
      invariant 0 <= k <= |states|
      invariant forall r :: r in rows <==> exists i :: 0 <= i < k && IsRow(states[i], alph, r)
      invariant NamesUnique(states) ==>
        forall i, j :: 0 <= i < j < |rows| ==> rows[i].from != rows[j].from || rows[i].symbol != rows[j].symbol
    {
      var block := StateRows(states[k], alph);
      ghost var before := rows;
      rows := rows + block;
      if NamesUnique(states) {
        forall i, j | 0 <= i < j < |rows| ensures rows[i].from != rows[j].from || rows[i].symbol != rows[j].symbol {
          if j >= |before| && i < |before| {
            assert rows[i] in before;
            var m :| 0 <= m < k && IsRow(states[m], alph, rows[i]);
            assert rows[j] in block;
          } else if i >= |before| {
            assert rows[i] == block[i - |before|] && rows[j] == block[j - |before|];
          } else {
            assert rows[i] == before[i] && rows[j] == before[j];
          }
        }
      }
      forall r ensures r in rows <==> exists i :: 0 <= i < k + 1 && IsRow(states[i], alph, r) {
        if IsRow(states[k], alph, r) {
          assert r in block;
        }
      }
      k := k + 1;
    }
  }

  class FiniteAutomata {
    var states: seq<State<string>>
    var alphabets: set<string>
    var initialState: Option<State<string>>
    var finalStates: set<State<string>>

    constructor()
      ensures states == [] && alphabets == {} && initialState == None && finalStates == {}
    {
      states := [];
      alphabets := {};
      initialState := None;
      finalStates := {};
    }

    /** is_state_exist: a State or a name is present when some stored state has that name; anything else is not. */
    function IsStateExist(arg: StateArg): (r: bool)
      reads this
      ensures arg.StateValue? ==> (r <==> exists i :: 0 <= i < |states| && states[i].name == arg.state.name)
      ensures arg.NameValue? ==> (r <==> exists i :: 0 <= i < |states| && states[i].name == arg.name)
      ensures arg.OtherValue? ==> !r
    {
      match arg
      case StateValue(s) => HasName(states, s.name)
      case NameValue(n) => HasName(states, n)
      case OtherValue => false
    }

    /** add_state: appends s unless a state of the same name is already stored. */
    method AddState(s: State<string>)
      modifies this
      ensures states == if HasName(old(states), s.name) then old(states) else old(states) + [s]
      ensures old(NamesUnique(states)) ==> NamesUnique(states)
      ensures HasName(states, s.name)
      ensures alphabets == old(alphabets) && initialState == old(initialState) && finalStates == old(finalStates)
    {
      if !IsStateExist(StateValue(s)) {
        states := states + [s];
        assert states[|states| - 1].name == s.name;
      }
    }

    /** add_states: add_state for each state of the list, in order. */
    method AddStates(more: seq<State<string>>)
      modifies this
      ensures states == AddAll(old(states), more)
      ensures alphabets == old(alphabets) && initialState == old(initialState) && finalStates == old(finalStates)
    {
      var k := 0;
      while k < |more|
        invariant 0 <= k <= |more|
        invariant AddAll(old(states), more) == AddAll(states, more[k..])
        invariant alphabets == old(alphabets) && initialState == old(initialState) && finalStates == old(finalStates)
      {
        assert more[k..][1..] == more[k + 1..];
        if !IsStateExist(StateValue(more[k])) {
          states := states + [more[k]];
        }
        k := k + 1;
      }
    }

    method SetInitialState(s: Option<State<string>>)
      modifies this
      ensures initialState == s
      ensures states == old(states) && alphabets == old(alphabets) && finalStates == old(finalStates)
    {
      initialState := s;
    }

    /** add_final_state: the final states are a set, so adding twice changes nothing. */
    method AddFinalState(s: State<string>)
      modifies this
      ensures finalStates == old(finalStates) + {s}
      ensures states == old(states) && alphabets == old(alphabets) && initialState == old(initialState)
    {
      if s !in finalStates {
        finalStates := finalStates + {s};
      }
    }

    /** set_alphabets: the alphabet is replaced (Python hands it a fresh set, so nothing is shared). */
    method SetAlphabets(alph: set<string>)
      modifies this
      ensures alphabets == alph
      ensures states == old(states) && initialState == old(initialState) && finalStates == old(finalStates)
    {
      alphabets := alph;
    }

    /** get_state_by_name (FiniteAutomata): the first state with that name, or None. */
    function GetStateByName(n: string): (r: Option<State<string>>)
      reads this
      ensures r.Some? ==> r.value in states && r.value.name == n
      ensures r.None? <==> !HasName(states, n)
    {
      FirstNamed(states, n)
    }
  }

  /** The automaton a text or converter builds: names unique, initial and final states listed, edges inside. */
  ghost predicate WellFormed(fa: FiniteAutomata)
    reads fa, Frame(set x | x in fa.states)
  {
    && NamesUnique(fa.states)
    && (fa.initialState.Some? ==> fa.initialState.value in fa.states)
    && (forall x :: x in fa.finalStates ==> x in fa.states)
    && EdgesDistinct(set x | x in fa.states)
    && Closed(set x | x in fa.states)
  }

  class NFA {
    const fa: FiniteAutomata
    var hasEpsilon: bool

    constructor()
      ensures fresh(fa)
      ensures fa.states == [] && fa.alphabets == {} && fa.initialState == None && fa.finalStates == {}
      ensures !hasEpsilon
    {
      fa := new FiniteAutomata();
      hasEpsilon := false;
    }

    /**
     * add_transition: records the symbol (setting has_epsilon for "e") and adds the edge to
     * from, which keeps one edge per (symbol, target).
     */
    method AddTransition(from: State<string>, a: string, to: State<string>)
      modifies this, fa, from
      ensures hasEpsilon == (old(hasEpsilon) || a == EPSILON)
      ensures fa.alphabets == old(fa.alphabets) + {a}
      ensures HasEdge(from.transitions, a, to)
      ensures old(HasEdge(from.transitions, a, to)) ==> from.transitions == old(from.transitions)
      ensures !old(HasEdge(from.transitions, a, to)) ==>
        |from.transitions| == old(|from.transitions|) + 1 && from.transitions[..old(|from.transitions|)] == old(from.transitions)
      ensures old(NoDuplicateEdges(from.transitions)) ==> NoDuplicateEdges(from.transitions)
      ensures EdgeNames(from.transitions) == EdgeNames(old(from.transitions)) + {(a, to.name)}
      ensures fa.states == old(fa.states) && fa.initialState == old(fa.initialState) && fa.finalStates == old(fa.finalStates)
    {
      if a == EPSILON {
        hasEpsilon := true;
        fa.alphabets := fa.alphabets + {EPSILON};
      } else {
        fa.alphabets := fa.alphabets + {a};
      }
      ghost var before := from.transitions;
      var t := new Transition(a, to);
      from.AddTransition(t);
      if HasEdge(before, a, to) {
        EdgeNamesHas(before, a, to);
      } else {
        EdgeNamesAppend(before, t);
      }
    }

    /** get_state_type: INITIAL for the initial state even when it is also final, FINAL for another final state, else None. */
    function GetStateType(s: State<string>): (r: Option<StateType>)
      reads fa
      ensures r == Some(INITIAL) <==> fa.initialState == Some(s)
      ensures r == Some(FINAL) <==> fa.initialState != Some(s) && s in fa.finalStates
      ensures r.None? <==> fa.initialState != Some(s) && s !in fa.finalStates
    {
      StateTypeOf(fa.initialState, fa.finalStates, s)
    }

    /** get_next_state_for_alphabet: the target of the first transition of s on a, or None. */
    function GetNextStateForAlphabet(s: State<string>, a: string): (r: Option<State<string>>)
      reads s, s.transitions
      ensures r.None? <==> forall i :: 0 <= i < |s.transitions| ==> s.transitions[i].alphabet != a
      ensures r.Some? ==> exists i :: (0 <= i < |s.transitions| && s.transitions[i].alphabet == a &&
        s.transitions[i].nextState == r.value && forall j :: 0 <= j < i ==> s.transitions[j].alphabet != a)
    {
      FirstTargetIsFirst(s.transitions, a);
      FirstTarget(s.transitions, a)
    }

    /** get_transitions (NFA): one entry per state and symbol with a transition, naming the first target. */
    method GetTransitions() returns (rows: seq<Row>)
      ensures forall r :: r in rows <==> exists i :: 0 <= i < |fa.states| && IsRow(fa.states[i], fa.alphabets, r)
      ensures NamesUnique(fa.states) ==>
        forall i, j :: 0 <= i < j < |rows| ==> rows[i].from != rows[j].from || rows[i].symbol != rows[j].symbol
    {
      rows := TransitionRows(fa.states, fa.alphabets);
    }

    /** get_state_by_name (NFA): the first state with that name, made and added when there is none. */
    method GetStateByName(n: string) returns (s: State<string>)
      modifies fa
      ensures s.name == n && s in fa.states
      ensures HasName(old(fa.states), n) ==> fa.states == old(fa.states) && Some(s) == FirstNamed(fa.states, n)
      ensures !HasName(old(fa.states), n) ==> fresh(s) && s.transitions == [] && fa.states == old(fa.states) + [s]
      ensures old(NamesUnique(fa.states)) ==> NamesUnique(fa.states)
      ensures fa.alphabets == old(fa.alphabets) && fa.initialState == old(fa.initialState) && fa.finalStates == old(fa.finalStates)
    {
      var found := fa.GetStateByName(n);
      if found.Some? {
        s := found.value;
      } else {
        s := new State(n);
        fa.AddState(s);
      }
    }
  }
}
