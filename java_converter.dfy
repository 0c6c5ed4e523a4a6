/**
 * src/AutomataConverter.java: the Java port's subset construction, as a transition table or
 * as a DFA.  The pending states form a LinkedHashSet, modelled as a list without repeats taken
 * from the front; handled states form a HashSet, searched in an order the model leaves open.
 * Combined states are named through a TreeSet of their constituents' names.  Unlike the Python
 * converter, a state is removed from the pending list only after its row is filled, and the
 * DFA shares the NFA's alphabet object, from which 'e' is removed.
 */
module JavaConverter {
  import opened Wrappers
  import opened Names
  import opened Graph
  import opened Subset
  import opened EpsilonClosure
  import opened Elimination
  import opened JavaAutomata
  import JavaDfa
  import opened JavaEpsilon

  /** The states of the pending list, without their order. */
  function Members(xs: seq<State<char>>): set<State<char>> {
    set x | x in xs
  }

  /** LinkedHashSet.remove: the pending list without s, the others kept in order. */
  function Without(xs: seq<State<char>>, s: State<char>): (r: seq<State<char>>)
    ensures forall x :: x in r ==> x in xs && x != s
    ensures forall i :: 0 <= i < |xs| && xs[i] != s ==> xs[i] in r
    ensures |r| <= |xs|
  {
    if xs == [] then []
    else (if xs[0] == s then [] else [xs[0]]) + Without(xs[1..], s)
  }

  /** A list without repeats loses exactly its head when its head is removed. */
  lemma {:induction false} WithoutHead(xs: seq<State<char>>)
    requires xs != [] && Distinct(xs)
    ensures Without(xs, xs[0]) == xs[1..]
  {
    WithoutAbsent(xs[1..], xs[0]);
  }

  /** Removing a state that is not in the list leaves the list as it is. */
  lemma {:induction false} WithoutAbsent(xs: seq<State<char>>, s: State<char>)
    requires s !in xs
    ensures Without(xs, s) == xs
  {
    if xs != [] {
      WithoutAbsent(xs[1..], s);
      assert xs == [xs[0]] + xs[1..];
    }
  }

  /** A pending list grown by appending keeps its members. */
  lemma MembersGrow(xs: seq<State<char>>, ys: seq<State<char>>)
    requires xs <= ys
    ensures Members(xs) <= Members(ys)
  {
    forall x | x in xs ensures x in ys {
      var i :| 0 <= i < |xs| && xs[i] == x;
      assert ys[i] == x;
    }
  }

  /** isStateExist: the scan of a pool for a state with the name of s. */
  method IsStateExist(states: set<State<char>>, s: State<char>) returns (r: bool)
    ensures r <==> Known(states, s.name)
  {
    var left := states;
    while left != {}
      invariant left <= states
      invariant forall x :: x in states - left ==> x.name != s.name
      decreases left
    {
      var x :| x in left;
      if x.name == s.name {
        return true;
      }
      left := left - {x};
    }
    return false;
  }

  /**
   * The last loop of convertToDFA: the dead state gets a self-loop on every symbol of alph;
   * the DFA's addTransition records each symbol in its alphabet object.
   */
  method AddLoops(dfa: JavaDfa.DFA, phi: State<char>, alph: set<char>)
    modifies dfa.fa.alphabets, phi
    ensures forall a :: a in alph ==> HasEdge(phi.transitions, a, phi)
    ensures dfa.fa.alphabets.elems == old(dfa.fa.alphabets.elems) + alph
  {
    var left := alph;
    while left != {}
      invariant left <= alph
      invariant forall a :: a in alph - left ==> HasEdge(phi.transitions, a, phi)
      invariant dfa.fa.alphabets.elems == old(dfa.fa.alphabets.elems) + (alph - left)
      decreases left
    {
      var a :| a in left;
      ghost var before := phi.transitions;
      dfa.AddTransition(phi, a, phi);
      forall b | b in alph - left
        ensures HasEdge(phi.transitions, b, phi)
      {
        assert HasEdge(before, b, phi);
        var i :| 0 <= i < |before| && before[i].alphabet == b && before[i].nextState == phi;
        assert phi.transitions[i] == before[i];
      }
      left := left - {a};
    }
  }

  /**
   * The head of convertToDFA(boolean): a new DFA whose alphabet is the NFA's own alphabet
   * object, from which 'e' is then removed (for both automata).
   */
  method SharingDfa(nfa: NFA) returns (dfa: JavaDfa.DFA)
    modifies nfa.fa.alphabets
    ensures fresh(dfa) && fresh(dfa.fa) && dfa.fa.states == [] && dfa.fa.finalStates == {}
    ensures dfa.fa.alphabets == nfa.fa.alphabets
    ensures nfa.fa.alphabets.elems == old(nfa.fa.alphabets.elems) - {EPSILON}
  {
    dfa := new JavaDfa.DFA();
    dfa.fa.SetAlphabets(nfa.fa.alphabets);
    if EPSILON in dfa.fa.alphabets.elems {
      dfa.fa.alphabets.Remove(EPSILON);
    }
  }

  /**
   * The final names after a worklist round: state is handled, and the DFA finals D gain its
   * copy x when state is final (whether or not a final of that name is there already); new
   * NFA finals are not handled.
   */
  lemma CopyFinalNames(H: set<State<char>>, F: set<State<char>>, F': set<State<char>>,
                      D: set<State<char>>, D': set<State<char>>, state: State<char>, x: State<char>)
    requires PoolNames(D) == PoolNames(H * F)
    requires F <= F' && forall f :: f in F' && f !in F ==> f !in H && f != state
    requires x.name == state.name
    requires D' == if state in F' then D + {x} else D
    ensures PoolNames(D') == PoolNames((H + {state}) * F')
  {
    assert (H + {state}) * F' == H * F + (if state in F then {state} else {});
    PoolNamesUnion(H * F, if state in F then {state} else {});
    PoolNamesUnion(D, {x});
  }

  class AutomataConverter {
    var nfa: NFA
    var transitionTable: seq<TableRow<char>>
    var handled: set<State<char>>
    var unhandled: seq<State<char>>
    var phiStateExist: bool
    const minimized: bool

    constructor(nfa: NFA, minimized: bool)
      ensures this.nfa == nfa && this.minimized == minimized
      ensures transitionTable == [] && handled == {} && unhandled == [] && !phiStateExist
    {
      this.nfa := nfa;
      this.minimized := minimized;
      transitionTable := [];
      handled := {};
      unhandled := [];
      phiStateExist := false;
    }

    /**
     * addTableRow: the row for state, one cell per symbol in the alphabet's iteration order
     * (returned as order, with the targets looked up for each symbol).  state becomes handled
     * first; then each cell is made by NextCell.  A missing state is left out of the handled
     * pool; the caller makes sure no symbol is looked up on it.
     */
    method AddTableRow(state: Option<State<char>>) returns (ghost order: seq<char>, ghost targets: seq<seq<State<char>>>)
      modifies this, nfa.fa
      ensures nfa == old(nfa) && nfa.fa.states == old(nfa.fa.states) && nfa.fa.alphabets == old(nfa.fa.alphabets)
      ensures nfa.fa.initialState == old(nfa.fa.initialState)
      ensures handled == old(handled) + (if state.Some? then {state.value} else {})
      ensures old(unhandled) <= unhandled
      ensures Distinct(order) && |order| == |nfa.fa.alphabets.elems| && forall a :: a in order <==> a in nfa.fa.alphabets.elems
      ensures |targets| == |order| && forall j :: 0 <= j < |order| ==> targets[j] == old(NextStatesForAlphabet(state, order[j]))
      ensures |transitionTable| == |old(transitionTable)| + 1 && transitionTable[..|old(transitionTable)|] == old(transitionTable)
      ensures transitionTable[|old(transitionTable)|].head == state
      ensures |transitionTable[|old(transitionTable)|].cells| == |nfa.fa.alphabets.elems|
      ensures Cells(transitionTable[|old(transitionTable)|].cells, targets, handled, Members(unhandled), TreeSetName)
      ensures phiStateExist <==> old(phiStateExist) || [] in targets
    {
      if state.Some? {
        handled := handled + {state.value};
      }
      var cells;
      order, targets, cells := RowCells(state);
      transitionTable := transitionTable + [TableRow(state, cells)];
    }

    /** The loop of addTableRow: one cell per symbol, the symbols taken in some order. */
    method RowCells(state: Option<State<char>>) returns (ghost order: seq<char>, ghost targets: seq<seq<State<char>>>, cells: seq<State<char>>)
      modifies this, nfa.fa
      ensures nfa == old(nfa) && nfa.fa.states == old(nfa.fa.states) && nfa.fa.alphabets == old(nfa.fa.alphabets)
      ensures nfa.fa.initialState == old(nfa.fa.initialState)
      ensures handled == old(handled) && transitionTable == old(transitionTable) && old(unhandled) <= unhandled
      ensures Distinct(order) && |order| == |nfa.fa.alphabets.elems| && forall a :: a in order <==> a in nfa.fa.alphabets.elems
      ensures |targets| == |order| && forall j :: 0 <= j < |order| ==> targets[j] == old(NextStatesForAlphabet(state, order[j]))
      ensures Cells(cells, targets, handled, Members(unhandled), TreeSetName)
      ensures phiStateExist <==> old(phiStateExist) || [] in targets
    {
      cells := [];
      var left := nfa.fa.alphabets.elems;
      order, targets := [], [];
      while left != {}
        modifies this, nfa.fa
        invariant nfa == old(nfa) && nfa.fa.states == old(nfa.fa.states) && nfa.fa.alphabets == old(nfa.fa.alphabets)
        invariant nfa.fa.initialState == old(nfa.fa.initialState)
        invariant handled == old(handled) && transitionTable == old(transitionTable) && old(unhandled) <= unhandled
        invariant Enumerates(order, left, nfa.fa.alphabets.elems)
        invariant |targets| == |order| && forall j :: 0 <= j < |order| ==> targets[j] == old(NextStatesForAlphabet(state, order[j]))
        invariant Cells(cells, targets, handled, Members(unhandled), TreeSetName)
        invariant phiStateExist <==> old(phiStateExist) || [] in targets
        decreases left
      {
        var a :| a in left;
        var next := NextStatesForAlphabet(state, a);
        assert next == old(NextStatesForAlphabet(state, a));
        var cell := RowStep(a, next, order, left, targets, cells);
        forall j | 0 <= j < |order| + 1 ensures (targets + [next])[j] == old(NextStatesForAlphabet(state, (order + [a])[j])) {
          if j < |order| {
            assert (targets + [next])[j] == targets[j] && (order + [a])[j] == order[j];
          }
        }
        cells, targets := cells + [cell], targets + [next];
        order := order + [a];
        left := left - {a};
      }
      EnumeratesDone(order, nfa.fa.alphabets.elems);
    }

    /** One round of RowCells: the cell for symbol a, whose targets are next. */
    method RowStep(a: char, next: seq<State<char>>, ghost order: seq<char>, ghost left: set<char>,
                   ghost targets: seq<seq<State<char>>>, ghost cells: seq<State<char>>) returns (cell: State<char>)
      requires a in left && Enumerates(order, left, nfa.fa.alphabets.elems)
      requires Cells(cells, targets, handled, Members(unhandled), TreeSetName)
      modifies this, nfa.fa
      ensures nfa == old(nfa) && nfa.fa.states == old(nfa.fa.states) && nfa.fa.alphabets == old(nfa.fa.alphabets)
      ensures nfa.fa.initialState == old(nfa.fa.initialState)
      ensures handled == old(handled) && transitionTable == old(transitionTable) && old(unhandled) <= unhandled
      ensures Enumerates(order + [a], left - {a}, nfa.fa.alphabets.elems)
      ensures Cells(cells + [cell], targets + [next], handled, Members(unhandled), TreeSetName)
      ensures phiStateExist <==> old(phiStateExist) || next == []
    {
      ghost var pending := unhandled;
      cell := NextCell(next);
      MembersGrow(pending, unhandled);
      CellsAppend(cells, targets, handled, Members(pending), Members(unhandled), cell, next, TreeSetName);
      EnumeratesStep(order, left, nfa.fa.alphabets.elems, a);
    }

    /**
     * The body of addTableRow's loop for one symbol with targets next: a single target
     * (appended to the pending list unless its name is handled or it is pending already), a
     * combined state, or a new dead state (setting the flag).
     */
    method NextCell(next: seq<State<char>>) returns (cell: State<char>)
      modifies this, nfa.fa
      ensures nfa == old(nfa) && nfa.fa.states == old(nfa.fa.states) && nfa.fa.alphabets == old(nfa.fa.alphabets)
      ensures nfa.fa.initialState == old(nfa.fa.initialState)
      ensures handled == old(handled) && transitionTable == old(transitionTable) && old(unhandled) <= unhandled
      ensures Entry(cell, next, IsPhi, TreeSetName)
      ensures |next| == 1 ==> unhandled == old(unhandled) + (if Known(handled, next[0].name) || next[0] in old(unhandled) then [] else [next[0]])
      ensures |next| > 1 ==> cell in handled + Members(unhandled)
      ensures phiStateExist <==> old(phiStateExist) || next == []
    {
      if next != [] {
        if |next| == 1 {
          var known := IsStateExist(handled, next[0]);
          if !known && next[0] !in unhandled {
            unhandled := unhandled + [next[0]];
          }
          cell := next[0];
        } else {
          cell := CreateCombinedState(next);
        }
      } else {
        cell := new State(PHI);
        phiStateExist := true;
      }
    }

    /**
     * processUnhandledStates: while some state is pending, the row for the first one is
     * added, and only then is it removed from the pending list (or until fuel runs out).
     */
    method ProcessUnhandledStates(fuel: nat) returns (done: bool)
      modifies this, nfa.fa
      ensures done <==> unhandled == []
      ensures nfa == old(nfa) && nfa.fa.states == old(nfa.fa.states) && nfa.fa.alphabets == old(nfa.fa.alphabets)
      ensures nfa.fa.initialState == old(nfa.fa.initialState)
      ensures old(handled) <= handled
      ensures |old(transitionTable)| <= |transitionTable| && transitionTable[..|old(transitionTable)|] == old(transitionTable)
      ensures forall i :: |old(transitionTable)| <= i < |transitionTable| ==>
        transitionTable[i].head.Some? && transitionTable[i].head.value in handled &&
        |transitionTable[i].cells| == |nfa.fa.alphabets.elems|
    {
      var f := fuel;
      while unhandled != [] && f > 0
        decreases f
        invariant nfa == old(nfa) && nfa.fa.states == old(nfa.fa.states) && nfa.fa.alphabets == old(nfa.fa.alphabets)
        invariant nfa.fa.initialState == old(nfa.fa.initialState)
        invariant old(handled) <= handled
        invariant |old(transitionTable)| <= |transitionTable| && transitionTable[..|old(transitionTable)|] == old(transitionTable)
        invariant forall i :: |old(transitionTable)| <= i < |transitionTable| ==>
          transitionTable[i].head.Some? && transitionTable[i].head.value in handled &&
          |transitionTable[i].cells| == |nfa.fa.alphabets.elems|
      {
        ghost var before := transitionTable;
        HandleNext();
        forall i | |old(transitionTable)| <= i < |transitionTable|
          ensures transitionTable[i].head.Some? && transitionTable[i].head.value in handled
          ensures |transitionTable[i].cells| == |nfa.fa.alphabets.elems|
        {
          if i < |before| {
            assert transitionTable[i] == before[..|before|][i];
          }
        }
        f := f - 1;
      }
      done := unhandled == [];
    }

    /** One round of processUnhandledStates: the row of the first pending state, which then leaves the list. */
    method HandleNext()
      requires unhandled != []
      modifies this, nfa.fa
      ensures nfa == old(nfa) && nfa.fa.states == old(nfa.fa.states) && nfa.fa.alphabets == old(nfa.fa.alphabets)
      ensures nfa.fa.initialState == old(nfa.fa.initialState)
      ensures handled == old(handled) + {old(unhandled)[0]}
      ensures old(unhandled)[0] !in unhandled
      ensures |transitionTable| == |old(transitionTable)| + 1 && transitionTable[..|old(transitionTable)|] == old(transitionTable)
      ensures var row := transitionTable[|old(transitionTable)|];
        row.head == Some(old(unhandled)[0]) && |row.cells| == |nfa.fa.alphabets.elems|
    {
      var state := unhandled[0];
      ghost var order, targets := AddTableRow(Some(state));
      unhandled := Without(unhandled, state);
    }

    /** addPhiRow: a row of |alphabet| + 1 cells, all one new dead state. */
    method AddPhiRow()
      modifies this
      ensures |transitionTable| == |old(transitionTable)| + 1 && transitionTable[..|old(transitionTable)|] == old(transitionTable)
      ensures var row := transitionTable[|old(transitionTable)|];
        && row.head.Some? && row.head.value.name == PHI && |row.cells| == |nfa.fa.alphabets.elems|
        && forall j :: 0 <= j < |row.cells| ==> row.cells[j] == row.head.value
      ensures nfa == old(nfa) && handled == old(handled) && unhandled == old(unhandled) && phiStateExist == old(phiStateExist)
    {
      var phi := new State(PHI);
      var row := seq(|nfa.fa.alphabets.elems| + 1, _ => phi);
      transitionTable := transitionTable + [TableRow(Some(row[0]), row[1..])];
    }

    /**
     * The head of both convertToDFA methods: an NFA whose hasEpsilon flag is set is replaced
     * by the result of convertToNFA; false when that throws (no initial state).
     */
    method EliminateEpsilon(ghost U: set<State<char>>) returns (ok: bool)
      requires nfa.hasEpsilon ==> (forall x :: x in nfa.fa.states ==> x in U) && Closed(U)
      modifies this
      ensures ok <==> !(old(nfa.hasEpsilon) && old(nfa.fa.initialState).None?)
      ensures !old(nfa.hasEpsilon) ==> nfa == old(nfa)
      ensures ok && old(nfa.hasEpsilon) ==>
        fresh(nfa) && fresh(nfa.fa) && fresh(nfa.fa.alphabets) && old(nfa.fa.initialState).Some?
      ensures ok && old(nfa.hasEpsilon) ==>
        Converted(nfa, old(nfa.fa.initialState).value.name, old(AllSteps(nfa.fa.alphabets.elems, CLOSURE_EPSILON, U)),
                  old(nfa.fa.states), |old(nfa.fa.states)|, old(nfa.fa.alphabets.elems), old(nfa.fa.initialState),
                  old(nfa.fa.finalStates))
      ensures ok ==> (nfa.fa.initialState.Some? <==> old(nfa.fa.initialState).Some?)
      ensures ok && nfa.fa.initialState.Some? ==> nfa.fa.initialState.value.name == old(nfa.fa.initialState).value.name
      ensures transitionTable == old(transitionTable) && handled == old(handled) && unhandled == old(unhandled)
      ensures phiStateExist == old(phiStateExist)
    {
      ok := true;
      if nfa.hasEpsilon {
        var converted := ConvertToNfa(nfa, U);
        if converted.Failure? {
          return false;
        }
        nfa := converted.value;
      }
    }

    /**
     * convertToDFA(): epsilon moves are removed first ('e' stays a symbol of the alphabet), then
     * the row of the initial state, rows for every pending state (for at most fuel rounds), and
     * a dead row when some lookup found no target.  A missing initial state throws
     * NullPointerException in convertToNFA, or at the first symbol looked up on it; with no
     * symbol at all its row is just the missing state.
     */
    method ConvertToDfaTable(fuel: nat, ghost U: set<State<char>>) returns (r: Result<seq<TableRow<char>>, Error>, done: bool)
      requires nfa.hasEpsilon ==> (forall x :: x in nfa.fa.states ==> x in U) && Closed(U)
      modifies this, nfa.fa
      ensures r.Failure? <==> old(nfa.fa.initialState).None? && (old(nfa.hasEpsilon) || old(nfa.fa.alphabets.elems) != {})
      ensures r.Failure? ==> r.error == NullPointer
      ensures !old(nfa.hasEpsilon) ==> nfa == old(nfa)
      ensures r.Success? ==> r.value == transitionTable
      ensures r.Success? && done ==> unhandled == []
      ensures r.Success? ==> (|transitionTable| >= |old(transitionTable)| + 1 &&
        transitionTable[|old(transitionTable)|].head == nfa.fa.initialState)
      ensures r.Success? ==> forall i :: |old(transitionTable)| <= i < |transitionTable| ==>
        |transitionTable[i].cells| == |nfa.fa.alphabets.elems|
      ensures r.Success? && phiStateExist ==> (transitionTable[|transitionTable| - 1].head.Some? &&
        transitionTable[|transitionTable| - 1].head.value.name == PHI)
    {
      var ok := EliminateEpsilon(U);
      if !ok || (nfa.fa.initialState.None? && nfa.fa.alphabets.elems != {}) {
        return Failure(NullPointer), false;
      }
      var table;
      table, done := BuildTable(fuel);
      r := Success(table);
    }

    /** The body of convertToDFA() after epsilon elimination. */
    method BuildTable(fuel: nat) returns (table: seq<TableRow<char>>, done: bool)
      modifies this, nfa.fa
      ensures nfa == old(nfa) && table == transitionTable
      ensures done ==> unhandled == []
      ensures |transitionTable| >= |old(transitionTable)| + 1 &&
        transitionTable[|old(transitionTable)|].head == nfa.fa.initialState
      ensures forall i :: |old(transitionTable)| <= i < |transitionTable| ==> |transitionTable[i].cells| == |nfa.fa.alphabets.elems|
      ensures phiStateExist ==> (transitionTable[|transitionTable| - 1].head.Some? &&
        transitionTable[|transitionTable| - 1].head.value.name == PHI)
    {
      ghost var start := |transitionTable|;
      ghost var order, targets := AddTableRow(nfa.fa.initialState);
      ghost var first := transitionTable;
      done := ProcessUnhandledStates(fuel);
      assert transitionTable[start] == first[start] by {
        assert transitionTable[..|first|] == first;
      }
      ghost var rows := transitionTable;
      if phiStateExist {
        AddPhiRow();
        assert transitionTable[..|rows|] == rows;
      }
      forall i | start <= i < |transitionTable| ensures |transitionTable[i].cells| == |nfa.fa.alphabets.elems| {
        if i < |rows| {
          assert transitionTable[i] == rows[i];
          if i < |first| {
            assert rows[i] == first[i];
          }
        }
      }
      table := transitionTable;
    }

    /**
     * The body of convertToDFA(boolean)'s loops for one symbol with targets next: the dead
     * state phi when there are none (setting the flag), the one target itself (appended to
     * the pending list unless a handled state has its name or it is pending), or a combined state.
     */
    method NextTarget(next: seq<State<char>>, phi: State<char>) returns (target: State<char>)
      requires phi.name == PHI
      modifies this, nfa.fa
      ensures nfa == old(nfa) && nfa.fa.states == old(nfa.fa.states) && nfa.fa.alphabets == old(nfa.fa.alphabets)
      ensures nfa.fa.initialState == old(nfa.fa.initialState)
      ensures old(nfa.fa.finalStates) <= nfa.fa.finalStates
      ensures forall f :: f in nfa.fa.finalStates && f !in old(nfa.fa.finalStates) ==> fresh(f)
      ensures handled == old(handled) && transitionTable == old(transitionTable) && old(unhandled) <= unhandled
      ensures Entry(target, next, IsPhi, TreeSetName) && (next == [] ==> target == phi)
      ensures |next| == 1 ==> unhandled == old(unhandled) + (if Known(handled, next[0].name) || next[0] in old(unhandled) then [] else [next[0]])
      ensures (target == phi && phiStateExist) || target.name in PoolNames(handled + Members(unhandled))
      ensures phiStateExist <==> old(phiStateExist) || next == []
    {
      if next != [] {
        if |next| == 1 {
          var known := IsStateExist(handled, next[0]);
          if !known && next[0] !in unhandled {
            unhandled := unhandled + [next[0]];
          }
          target := next[0];
        } else {
          target := CreateCombinedState(next);
        }
      } else {
        phiStateExist := true;
        target := phi;
      }
    }

    /**
     * The state of the loop over the alphabet in convertToDFA(boolean) after the symbols of
     * order: x's transitions are filled for order, left holds the symbols still to come, and the
     * dead state is flagged when it was before the loop or some lookup found no target.
     */
    ghost predicate Filling(x: State<char>, phi: State<char>, flag: bool,
                            order: seq<char>, left: set<char>, targets: seq<seq<State<char>>>, alph: set<char>)
      reads this, x, x.transitions
    {
      && phi.name == PHI
      && Enumerates(order, left, alph)
      && Filled(x, phi, order, targets, PoolNames(handled + Members(unhandled)), phiStateExist, TreeSetName)
      && (phiStateExist <==> flag || [] in targets)
    }

    /**
     * The loop over the alphabet in convertToDFA(boolean) for the NFA state state: x, its
     * new DFA copy, gets one transition per symbol (taken in some order), to the target
     * NextTarget picks for the targets of state on that symbol.
     */
    method FillRow(x: State<char>, state: State<char>, phi: State<char>)
        returns (ghost order: seq<char>, ghost targets: seq<seq<State<char>>>)
      requires x.transitions == [] && x != state && phi.name == PHI
      modifies this, nfa.fa, x
      ensures nfa == old(nfa) && nfa.fa.states == old(nfa.fa.states) && nfa.fa.alphabets == old(nfa.fa.alphabets)
      ensures nfa.fa.initialState == old(nfa.fa.initialState)
      ensures old(nfa.fa.finalStates) <= nfa.fa.finalStates
      ensures forall f :: f in nfa.fa.finalStates && f !in old(nfa.fa.finalStates) ==> fresh(f)
      ensures handled == old(handled) && transitionTable == old(transitionTable) && old(unhandled) <= unhandled
      ensures Distinct(order) && |order| == |nfa.fa.alphabets.elems| && forall a :: a in order <==> a in nfa.fa.alphabets.elems
      ensures OnePerSymbol(x.transitions, order)
      ensures |targets| == |order| && forall j :: 0 <= j < |order| ==> targets[j] == old(NextStatesForAlphabet(Some(state), order[j]))
      ensures forall j :: 0 <= j < |order| ==>
        Entry(x.transitions[j].nextState, targets[j], IsPhi, TreeSetName) && (targets[j] == [] ==> x.transitions[j].nextState == phi)
      ensures DfaRow(x, phi, nfa.fa.alphabets.elems, PoolNames(handled + Members(unhandled)), phiStateExist)
      ensures phiStateExist <==> old(phiStateExist) || [] in targets
    {
      ghost var alph := nfa.fa.alphabets.elems;
      var left := nfa.fa.alphabets.elems;
      order, targets := [], [];
      ghost var flag := phiStateExist;
      while left != {}
        invariant nfa == old(nfa) && nfa.fa.states == old(nfa.fa.states) && nfa.fa.alphabets == old(nfa.fa.alphabets)
        invariant nfa.fa.initialState == old(nfa.fa.initialState)
        invariant old(nfa.fa.finalStates) <= nfa.fa.finalStates
        invariant forall f :: f in nfa.fa.finalStates && f !in old(nfa.fa.finalStates) ==> fresh(f)
        invariant handled == old(handled) && transitionTable == old(transitionTable) && old(unhandled) <= unhandled
        invariant Filling(x, phi, flag, order, left, targets, alph)
        invariant forall j :: 0 <= j < |order| ==> targets[j] == old(NextStatesForAlphabet(Some(state), order[j]))
        decreases left
      {
        var a :| a in left;
        var next := NextStatesForAlphabet(Some(state), a);
        assert next == old(NextStatesForAlphabet(Some(state), a));
        FillStep(x, phi, flag, a, next, order, left, targets, alph);
        order, targets := order + [a], targets + [next];
        left := left - {a};
      }
      EnumeratesDone(order, alph);
      OnePerSymbolOneEach(x.transitions, order, alph);
    }

    /** One round of FillRow: the transition of x on symbol a, whose targets are next. */
    method FillStep(x: State<char>, phi: State<char>, ghost flag: bool, a: char, next: seq<State<char>>,
                    ghost order: seq<char>, ghost left: set<char>, ghost targets: seq<seq<State<char>>>, ghost alph: set<char>)
      requires a in left && Filling(x, phi, flag, order, left, targets, alph)
      modifies this, nfa.fa, x
      ensures Filling(x, phi, flag, order + [a], left - {a}, targets + [next], alph)
      ensures nfa == old(nfa) && nfa.fa.states == old(nfa.fa.states) && nfa.fa.alphabets == old(nfa.fa.alphabets)
      ensures nfa.fa.initialState == old(nfa.fa.initialState)
      ensures old(nfa.fa.finalStates) <= nfa.fa.finalStates
      ensures forall f :: f in nfa.fa.finalStates && f !in old(nfa.fa.finalStates) ==> fresh(f)
      ensures handled == old(handled) && transitionTable == old(transitionTable) && old(unhandled) <= unhandled
    {
      ghost var names, seen := PoolNames(handled + Members(unhandled)), phiStateExist;
      var target := NextTarget(next, phi);
      MembersGrow(old(unhandled), unhandled);
      PoolNamesGrow(old(handled + Members(unhandled)), handled + Members(unhandled));
      FilledGrows(x, phi, order, targets, names, seen, PoolNames(handled + Members(unhandled)), phiStateExist, TreeSetName);
      EnumeratesStep(order, left, alph, a);
      AppendEdge(x, phi, a, target, order, targets, next, PoolNames(handled + Members(unhandled)), phiStateExist, TreeSetName);
    }

    /**
     * The state of convertToDFA(boolean)'s worklist loop: the DFA starts with s0, the copy of
     * the NFA's initial state start, final exactly when start is; every DFA state but the dead
     * one is built (its targets named by handled or pending states); every handled state has
     * a DFA state of its name; and the DFA's final names are those of the handled final NFA states.
     */
    ghost predicate Building(dfa: JavaDfa.DFA, phi: State<char>, s0: State<char>, start: State<char>, alph: set<char>,
                             frame: set<object>)
      reads this, nfa, nfa.fa, nfa.fa.alphabets, dfa.fa, phi, frame
    {
      && nfa.fa.initialState == Some(start) && nfa.fa.alphabets.elems == alph && nfa.fa != dfa.fa
      && this !in frame && nfa.fa !in frame && dfa.fa !in frame && phi !in frame
      && phi.name == PHI && phi.transitions == []
      && |dfa.fa.states| > 0 && dfa.fa.states[0] == s0 && s0 != phi && dfa.fa.initialState == Some(s0)
      && s0.name == start.name
      && (s0 in dfa.fa.finalStates <==> start in nfa.fa.finalStates)
      && Built(frame, Others(dfa.fa.states, phi), phi, alph, PoolNames(handled + Members(unhandled)), phiStateExist)
      && PoolNames(handled) <= PoolNames(set x | x in dfa.fa.states)
      && PoolNames(dfa.fa.finalStates) == PoolNames(handled * nfa.fa.finalStates)
    }

    /**
     * One round of convertToDFA(boolean)'s worklist loop: the first pending state's DFA copy
     * is built, then the state leaves the pending list and is handled, the copy is added to the
     * DFA (by name) and made final when the state is final.
     */
    method DfaStep(dfa: JavaDfa.DFA, phi: State<char>, s0: State<char>, ghost start: State<char>, ghost alph: set<char>,
                   ghost frame: set<object>) returns (ghost frame': set<object>)
      requires unhandled != [] && Building(dfa, phi, s0, start, alph, frame)
      modifies this, nfa.fa, dfa.fa
      ensures Building(dfa, phi, s0, start, alph, frame')
      ensures handled == old(handled) + {old(unhandled)[0]}
      ensures nfa == old(nfa) && nfa.fa.alphabets == old(nfa.fa.alphabets) && dfa.fa.alphabets == old(dfa.fa.alphabets)
    {
      ghost var names, flag, F0 := PoolNames(handled + Members(unhandled)), phiStateExist, nfa.fa.finalStates;
      var state := unhandled[0];
      var x := HandleState(state, phi);
      PlaceCopy(dfa, phi, s0, start, alph, frame, state, x, names, flag, old(handled), F0);
      frame' := frame + RowFrame(x);
    }

    /** The second part of a worklist round, with the proof that it restores Building: the copy x of state joins the DFA. */
    method PlaceCopy(dfa: JavaDfa.DFA, phi: State<char>, s0: State<char>, ghost start: State<char>, ghost alph: set<char>,
                     ghost frame: set<object>, state: State<char>, x: State<char>, ghost names: set<string>, ghost flag: bool,
                     ghost handled0: set<State<char>>, ghost F0: set<State<char>>)
      requires nfa.fa.initialState == Some(start) && nfa.fa.alphabets.elems == alph && nfa.fa != dfa.fa
      requires this !in frame && nfa.fa !in frame && dfa.fa !in frame && phi !in frame && x != phi && x != s0
      requires phi.name == PHI && phi.transitions == []
      requires |dfa.fa.states| > 0 && dfa.fa.states[0] == s0 && s0 != phi && dfa.fa.initialState == Some(s0) && s0.name == start.name
      requires s0 in dfa.fa.finalStates <==> start in nfa.fa.finalStates
      requires Built(frame, Others(dfa.fa.states, phi), phi, alph, names, flag)
      requires DfaRow(x, phi, alph, PoolNames(handled + Members(unhandled)), phiStateExist)
      requires names <= PoolNames(handled + Members(unhandled)) && (flag ==> phiStateExist)
      requires PoolNames(handled0) <= PoolNames(set y | y in dfa.fa.states) && handled == handled0 + {state} && x.name == state.name
      requires PoolNames(dfa.fa.finalStates) == PoolNames(handled0 * F0)
      requires F0 <= nfa.fa.finalStates && forall f :: f in nfa.fa.finalStates && f !in F0 ==> f !in handled0 && f != state
      modifies dfa.fa
      ensures Building(dfa, phi, s0, start, alph, frame + RowFrame(x))
      ensures dfa.fa.alphabets == old(dfa.fa.alphabets)
    {
      ghost var B := Others(dfa.fa.states, phi);
      AddCopy(dfa, state, x);
      assert Built(frame, B, phi, alph, names, flag);
      CopyFinalNames(handled0, F0, nfa.fa.finalStates, old(dfa.fa.finalStates), dfa.fa.finalStates, state, x);
      BuildingAfter(dfa, phi, s0, start, alph, frame, B, x, state, old(dfa.fa.states), handled0, names, flag);
    }

    /** What a worklist round leaves: Building again, with the new copy's objects added to the frame. */
    lemma BuildingAfter(dfa: JavaDfa.DFA, phi: State<char>, s0: State<char>, start: State<char>, alph: set<char>,
                        frame: set<object>, B: set<State<char>>, x: State<char>, state: State<char>,
                        states: seq<State<char>>, handled0: set<State<char>>, names: set<string>, flag: bool)
      requires nfa.fa.initialState == Some(start) && nfa.fa.alphabets.elems == alph && nfa.fa != dfa.fa
      requires this !in frame && nfa.fa !in frame && dfa.fa !in frame && phi !in frame && x != phi
      requires phi.name == PHI && phi.transitions == []
      requires |states| > 0 && states[0] == s0 && s0 != phi && dfa.fa.initialState == Some(s0) && s0.name == start.name
      requires dfa.fa.states == if HasName(states, x.name) then states else states + [x]
      requires s0 in dfa.fa.finalStates <==> start in nfa.fa.finalStates
      requires B == Others(states, phi) && Built(frame, B, phi, alph, names, flag)
      requires DfaRow(x, phi, alph, PoolNames(handled + Members(unhandled)), phiStateExist)
      requires names <= PoolNames(handled + Members(unhandled)) && (flag ==> phiStateExist)
      requires PoolNames(handled0) <= PoolNames(set y | y in states) && handled == handled0 + {state} && x.name == state.name
      requires PoolNames(dfa.fa.finalStates) == PoolNames(handled * nfa.fa.finalStates)
      ensures Building(dfa, phi, s0, start, alph, frame + RowFrame(x))
    {
      BuiltGrows(frame, B, phi, alph, names, flag, PoolNames(handled + Members(unhandled)), phiStateExist);
      BuiltAdd(frame, B, x, phi, alph, PoolNames(handled + Members(unhandled)), phiStateExist);
      ghost var B' := Others(dfa.fa.states, phi);
      if x in dfa.fa.states {
        assert B' == B + {x};
      } else {
        assert B' == B;
        assert Built(frame + RowFrame(x), B', phi, alph, PoolNames(handled + Members(unhandled)), phiStateExist);
      }
      forall n | n in PoolNames(handled)
        ensures n in PoolNames(set y | y in dfa.fa.states)
      {
        ListNames(states, n);
        ListNames(dfa.fa.states, n);
        ListNames(dfa.fa.states, x.name);
      }
    }

    /**
     * The first part of a worklist round: the copy x of state is built while state is still
     * pending; then state leaves the pending list and is handled.
     */
    method HandleState(state: State<char>, phi: State<char>) returns (x: State<char>)
      requires state in unhandled && phi.name == PHI
      modifies this, nfa.fa
      ensures fresh(x) && x.name == state.name
      ensures nfa == old(nfa) && nfa.fa.states == old(nfa.fa.states) && nfa.fa.alphabets == old(nfa.fa.alphabets)
      ensures nfa.fa.initialState == old(nfa.fa.initialState)
      ensures old(nfa.fa.finalStates) <= nfa.fa.finalStates
      ensures forall f :: f in nfa.fa.finalStates && f !in old(nfa.fa.finalStates) ==> fresh(f)
      ensures handled == old(handled) + {state} && state !in unhandled
      ensures Members(old(unhandled)) - {state} <= Members(unhandled)
      ensures DfaRow(x, phi, nfa.fa.alphabets.elems, PoolNames(handled + Members(unhandled)), phiStateExist)
      ensures old(phiStateExist) ==> phiStateExist
    {
      x := BuildRow(state, phi);
      ghost var pool := handled + Members(unhandled);
      ghost var names := PoolNames(pool);
      unhandled := Without(unhandled, state);
      handled := handled + {state};
      assert pool <= handled + Members(unhandled);
      PoolNamesGrow(pool, handled + Members(unhandled));
      DfaRowGrows(x, phi, nfa.fa.alphabets.elems, names, phiStateExist, PoolNames(handled + Members(unhandled)), phiStateExist);
    }

    /** The DFA copy x of state, with its transitions filled by FillRow. */
    method BuildRow(state: State<char>, phi: State<char>) returns (x: State<char>)
      requires phi.name == PHI
      modifies this, nfa.fa
      ensures fresh(x) && x.name == state.name
      ensures nfa == old(nfa) && nfa.fa.states == old(nfa.fa.states) && nfa.fa.alphabets == old(nfa.fa.alphabets)
      ensures nfa.fa.initialState == old(nfa.fa.initialState)
      ensures old(nfa.fa.finalStates) <= nfa.fa.finalStates
      ensures forall f :: f in nfa.fa.finalStates && f !in old(nfa.fa.finalStates) ==> fresh(f)
      ensures handled == old(handled) && old(unhandled) <= unhandled
      ensures DfaRow(x, phi, nfa.fa.alphabets.elems, PoolNames(handled + Members(unhandled)), phiStateExist)
      ensures old(phiStateExist) ==> phiStateExist
    {
      x := new State(state.name);
      ghost var order, targets := FillRow(x, state, phi);
    }

    /**
     * The second part of a worklist round: the copy x of state joins the DFA unless a state of
     * its name is there, and is made final whenever state is final in the NFA.
     */
    method AddCopy(dfa: JavaDfa.DFA, state: State<char>, x: State<char>)
      requires dfa.fa != nfa.fa && x.name == state.name
      modifies dfa.fa
      ensures dfa.fa.states == if HasName(old(dfa.fa.states), x.name) then old(dfa.fa.states) else old(dfa.fa.states) + [x]
      ensures dfa.fa.finalStates == if state in nfa.fa.finalStates then old(dfa.fa.finalStates) + {x} else old(dfa.fa.finalStates)
      ensures dfa.fa.alphabets == old(dfa.fa.alphabets) && dfa.fa.initialState == old(dfa.fa.initialState)
    {
      dfa.fa.AddState(x);
      if state in nfa.fa.finalStates {
        dfa.fa.AddFinalState(x);
      }
    }

    /**
     * The part of convertToDFA(boolean) before the worklist: the copy s0 of the initial state
     * start becomes the DFA's first and initial state, final when start is; start is handled
     * and s0 gets its transitions.
     */
    method StartDfa(dfa: JavaDfa.DFA, phi: State<char>) returns (s0: State<char>, ghost start: State<char>, ghost frame: set<object>)
      requires nfa.fa.initialState.Some? && dfa.fa != nfa.fa && dfa.fa.states == [] && dfa.fa.finalStates == {}
      requires phi.name == PHI && phi.transitions == [] && handled == {}
      modifies this, nfa.fa, dfa.fa
      ensures Building(dfa, phi, s0, start, nfa.fa.alphabets.elems, frame)
      ensures start == old(nfa.fa.initialState.value) && start in handled
      ensures nfa == old(nfa) && nfa.fa.alphabets == old(nfa.fa.alphabets) && dfa.fa.alphabets == old(dfa.fa.alphabets)
    {
      var st := nfa.fa.initialState.value;
      start := st;
      s0 := new State(st.name);
      SeedDfa(dfa, st, s0);
      handled := handled + {st};
      ghost var order, targets := FillRow(s0, st, phi);
      frame := RowFrame(s0);
      StartBuilding(dfa, phi, s0, start, frame);
    }

    /** The initial state's copy x becomes the DFA's only state, its initial state, and final when state is. */
    method SeedDfa(dfa: JavaDfa.DFA, state: State<char>, x: State<char>)
      requires dfa.fa != nfa.fa && dfa.fa.states == [] && dfa.fa.finalStates == {}
      modifies dfa.fa
      ensures dfa.fa.states == [x] && dfa.fa.initialState == Some(x)
      ensures dfa.fa.finalStates == if state in nfa.fa.finalStates then {x} else {}
      ensures dfa.fa.alphabets == old(dfa.fa.alphabets)
    {
      dfa.fa.AddState(x);
      dfa.fa.SetInitialState(Some(x));
      if state in nfa.fa.finalStates {
        dfa.fa.AddFinalState(x);
      }
    }

    /** Building holds once the initial state is handled and its copy s0 has its row. */
    lemma StartBuilding(dfa: JavaDfa.DFA, phi: State<char>, s0: State<char>, start: State<char>, frame: set<object>)
      requires nfa.fa.initialState == Some(start) && nfa.fa != dfa.fa && frame == RowFrame(s0)
      requires phi.name == PHI && phi.transitions == [] && s0 != phi && s0.name == start.name
      requires dfa.fa.states == [s0] && dfa.fa.initialState == Some(s0)
      requires dfa.fa.finalStates == if start in nfa.fa.finalStates then {s0} else {}
      requires handled == {start}
      requires DfaRow(s0, phi, nfa.fa.alphabets.elems, PoolNames(handled + Members(unhandled)), phiStateExist)
      ensures Building(dfa, phi, s0, start, nfa.fa.alphabets.elems, frame)
    {
      assert Others(dfa.fa.states, phi) == {} + {s0};
      BuiltAdd({}, {}, s0, phi, nfa.fa.alphabets.elems, PoolNames(handled + Members(unhandled)), phiStateExist);
      assert handled * nfa.fa.finalStates == if start in nfa.fa.finalStates then {start} else {};
      assert s0 in (set y | y in dfa.fa.states);
    }

    /**
     * convertToDFA(boolean) after epsilon elimination, with at most fuel rounds of the worklist
     * loop: the copy of the initial state, the copies of the pending states in list order, and
     * the dead state with its self-loops when some lookup found no target.
     */
    method BuildDfa(dfa: JavaDfa.DFA, phi: State<char>, fuel: nat) returns (done: bool)
      requires nfa.fa.initialState.Some? && dfa.fa != nfa.fa && dfa.fa.states == [] && dfa.fa.finalStates == {}
      requires phi.name == PHI && phi.transitions == [] && handled == {}
      modifies this, nfa.fa, dfa.fa, dfa.fa.alphabets, phi
      ensures nfa == old(nfa) && nfa.fa.alphabets == old(nfa.fa.alphabets) && nfa.fa.initialState == old(nfa.fa.initialState)
      ensures nfa.fa.alphabets.elems == old(nfa.fa.alphabets.elems) && dfa.fa.alphabets == old(dfa.fa.alphabets)
      ensures done <==> unhandled == []
      ensures |dfa.fa.states| > 0 && dfa.fa.initialState == Some(dfa.fa.states[0])
      ensures dfa.fa.states[0].name == nfa.fa.initialState.value.name
      ensures dfa.fa.states[0] in dfa.fa.finalStates <==> nfa.fa.initialState.value in nfa.fa.finalStates
      ensures forall x :: x in dfa.fa.states && x != phi ==> OneEach(x.transitions, nfa.fa.alphabets.elems)
      ensures done ==> forall x, j :: x in dfa.fa.states && x != phi && 0 <= j < |x.transitions| ==>
        HasName(dfa.fa.states, x.transitions[j].nextState.name)
      ensures phiStateExist ==> HasName(dfa.fa.states, PHI)
      ensures phiStateExist ==> forall a :: a in nfa.fa.alphabets.elems ==> HasEdge(phi.transitions, a, phi)
      ensures dfa.fa.alphabets.elems == old(dfa.fa.alphabets.elems) + (if phiStateExist then nfa.fa.alphabets.elems else {})
      ensures PoolNames(dfa.fa.finalStates) == PoolNames(handled * nfa.fa.finalStates)
    {
      var s0;
      ghost var start, frame;
      s0, start, frame := Explore(dfa, phi, fuel);
      done := unhandled == [];
      ghost var states := dfa.fa.states;
      var alph := nfa.fa.alphabets.elems;
      AddPhi(dfa, phi, alph);
      Finish(dfa, phi, frame, states, alph);
    }

    /** The copy of the initial state, then the worklist loop of convertToDFA(boolean) for at most fuel rounds. */
    method Explore(dfa: JavaDfa.DFA, phi: State<char>, fuel: nat) returns (s0: State<char>, ghost start: State<char>, ghost frame: set<object>)
      requires nfa.fa.initialState.Some? && dfa.fa != nfa.fa && dfa.fa.states == [] && dfa.fa.finalStates == {}
      requires phi.name == PHI && phi.transitions == [] && handled == {}
      modifies this, nfa.fa, dfa.fa
      ensures Building(dfa, phi, s0, start, nfa.fa.alphabets.elems, frame)
      ensures start == old(nfa.fa.initialState.value)
      ensures nfa == old(nfa) && nfa.fa.alphabets == old(nfa.fa.alphabets) && dfa.fa.alphabets == old(dfa.fa.alphabets)
    {
      s0, start, frame := StartDfa(dfa, phi);
      frame := RunWorklist(dfa, phi, s0, start, frame, fuel);
    }

    /** The worklist loop of convertToDFA(boolean), for at most fuel rounds. */
    method RunWorklist(dfa: JavaDfa.DFA, phi: State<char>, s0: State<char>, ghost start: State<char>,
                       ghost frame: set<object>, fuel: nat) returns (ghost frame': set<object>)
      requires Building(dfa, phi, s0, start, nfa.fa.alphabets.elems, frame)
      modifies this, nfa.fa, dfa.fa
      ensures Building(dfa, phi, s0, start, nfa.fa.alphabets.elems, frame')
      ensures nfa == old(nfa) && nfa.fa.alphabets == old(nfa.fa.alphabets) && dfa.fa.alphabets == old(dfa.fa.alphabets)
    {
      ghost var alph := nfa.fa.alphabets.elems;
      frame' := frame;
      var f := fuel;
      while unhandled != [] && f > 0
        invariant Building(dfa, phi, s0, start, alph, frame')
        invariant nfa == old(nfa) && nfa.fa.alphabets == old(nfa.fa.alphabets) && dfa.fa.alphabets == old(dfa.fa.alphabets)
        decreases f
      {
        frame' := DfaStep(dfa, phi, s0, start, alph, frame');
        f := f - 1;
      }
    }

    /**
     * The dead state, when some lookup found no target: it joins the DFA with a self-loop on
     * every symbol of alph, each recorded in the DFA's alphabet object.
     */
    method AddPhi(dfa: JavaDfa.DFA, phi: State<char>, alph: set<char>)
      modifies dfa.fa, dfa.fa.alphabets, phi
      ensures dfa.fa.states == if phiStateExist then (if HasName(old(dfa.fa.states), phi.name) then old(dfa.fa.states) else old(dfa.fa.states) + [phi]) else old(dfa.fa.states)
      ensures phiStateExist ==> forall a :: a in alph ==> HasEdge(phi.transitions, a, phi)
      ensures dfa.fa.alphabets == old(dfa.fa.alphabets)
      ensures dfa.fa.alphabets.elems == old(dfa.fa.alphabets.elems) + (if phiStateExist then alph else {})
      ensures dfa.fa.initialState == old(dfa.fa.initialState) && dfa.fa.finalStates == old(dfa.fa.finalStates)
    {
      if phiStateExist {
        dfa.fa.AddState(phi);
        AddLoops(dfa, phi, alph);
      }
    }

    /** The guarantees of BuildDfa, from Building before the dead state is added. */
    lemma Finish(dfa: JavaDfa.DFA, phi: State<char>, frame: set<object>, states: seq<State<char>>, alph: set<char>)
      requires Built(frame, Others(states, phi), phi, alph, PoolNames(handled + Members(unhandled)), phiStateExist)
      requires PoolNames(handled) <= PoolNames(set y | y in states)
      requires dfa.fa.states == if phiStateExist then (if HasName(states, phi.name) then states else states + [phi]) else states
      requires phi.name == PHI
      ensures forall x :: x in dfa.fa.states && x != phi ==> OneEach(x.transitions, alph)
      ensures unhandled == [] ==> forall x, j :: x in dfa.fa.states && x != phi && 0 <= j < |x.transitions| ==>
        HasName(dfa.fa.states, x.transitions[j].nextState.name)
      ensures phiStateExist ==> HasName(dfa.fa.states, PHI)
    {
      assert Others(dfa.fa.states, phi) == Others(states, phi);
      if phiStateExist {
        ListNames(dfa.fa.states, phi.name);
        if !HasName(states, phi.name) {
          assert dfa.fa.states[|states|] == phi;
        }
      }
      forall x, j | x in dfa.fa.states && x != phi && 0 <= j < |x.transitions| && unhandled == []
        ensures HasName(dfa.fa.states, x.transitions[j].nextState.name)
      {
        assert DfaRow(x, phi, alph, PoolNames(handled + Members(unhandled)), phiStateExist);
        var n := x.transitions[j].nextState.name;
        assert handled + Members(unhandled) == handled;
        if n in PoolNames(handled) {
          ListNames(states, n);
          var i :| 0 <= i < |states| && states[i].name == n;
          assert dfa.fa.states[i] == states[i];
        } else {
          assert x.transitions[j].nextState == phi;
          ListNames(dfa.fa.states, phi.name);
        }
      }
    }

    /**
     * convertToDFA(boolean): the DFA takes the NFA's own alphabet object and removes 'e' from
     * it (so the NFA loses 'e' too); an NFA whose hasEpsilon flag is set is then replaced by
     * convertToNFA's result; then the subset construction of BuildDfa, run for at most fuel
     * rounds.  A missing initial state throws NullPointerException, in convertToNFA or at the
     * initial state's name.
     */
    method ConvertToDfa(fuel: nat, ghost U: set<State<char>>) returns (r: Result<JavaDfa.DFA, Error>, done: bool, phi: State<char>)
      requires nfa.hasEpsilon ==> (forall x :: x in nfa.fa.states ==> x in U) && Closed(U)
      modifies this, nfa.fa, nfa.fa.alphabets
      ensures r.Failure? <==> old(nfa.fa.initialState).None?
      ensures r.Failure? ==> r.error == NullPointer
      ensures !old(nfa.hasEpsilon) ==> nfa == old(nfa)
      ensures old(nfa.fa.alphabets) == old(nfa).fa.alphabets
      ensures r.Failure? || !old(nfa.hasEpsilon) || !phiStateExist ==>
        old(nfa.fa.alphabets).elems == old(nfa.fa.alphabets.elems) - {EPSILON}
      ensures r.Success? ==> fresh(r.value) && fresh(r.value.fa) && nfa.fa.initialState.Some?
      ensures r.Success? ==> (done <==> unhandled == [])
      ensures r.Success? ==> var dfa := r.value;
        && dfa.fa.alphabets == old(nfa.fa.alphabets)
        && dfa.fa.alphabets.elems == old(nfa.fa.alphabets.elems) - {EPSILON} + (if phiStateExist then nfa.fa.alphabets.elems else {})
        && |dfa.fa.states| > 0 && dfa.fa.initialState == Some(dfa.fa.states[0])
        && dfa.fa.states[0].name == old(nfa.fa.initialState).value.name
        && (dfa.fa.states[0] in dfa.fa.finalStates <==> nfa.fa.initialState.value in nfa.fa.finalStates)
        && (forall x :: x in dfa.fa.states && x != phi ==> OneEach(x.transitions, nfa.fa.alphabets.elems))
        && (done ==> forall x, j :: x in dfa.fa.states && x != phi && 0 <= j < |x.transitions| ==>
              HasName(dfa.fa.states, x.transitions[j].nextState.name))
        && (phiStateExist ==> HasName(dfa.fa.states, PHI))
        && (phiStateExist ==> forall a :: a in nfa.fa.alphabets.elems ==> HasEdge(phi.transitions, a, phi))
        && PoolNames(dfa.fa.finalStates) == PoolNames(handled * nfa.fa.finalStates)
    {
      handled := {};
      var dfa := SharingDfa(nfa);
      ghost var a0 := dfa.fa.alphabets.elems;
      phi := new State(PHI);
      var ok := EliminateEpsilon(U);
      if !ok || nfa.fa.initialState.None? {
        return Failure(NullPointer), false, phi;
      }
      assert dfa.fa.alphabets.elems == a0;
      done := BuildDfa(dfa, phi, fuel);
      assert dfa.fa.alphabets.elems == a0 + (if phiStateExist then nfa.fa.alphabets.elems else {});
      r := Success(dfa);
    }

    /** The first loop of createCombinedState: whether some constituent is FINAL in the NFA. */
    method AnyFinal(next: seq<State<char>>) returns (isFinal: bool)
      ensures isFinal <==> exists k :: 0 <= k < |next| && nfa.GetStateType(next[k]) == Some(FINAL)
    {
      isFinal := false;
      var k := 0;
      while k < |next|
        invariant 0 <= k <= |next|
        invariant isFinal <==> exists j :: 0 <= j < k && nfa.GetStateType(next[j]) == Some(FINAL)
      {
        if nfa.GetStateType(next[k]) == Some(FINAL) {
          isFinal := true;
        }
        k := k + 1;
      }
    }

    /** The loop of createCombinedState over the handled states: one of that name, if any. */
    method FindHandled(name: string) returns (r: Option<State<char>>)
      ensures r.None? <==> !Known(handled, name)
      ensures r.Some? ==> r.value in handled && r.value.name == name
    {
      var left := handled;
      while left != {}
        invariant left <= handled
        invariant forall x :: x in handled - left ==> x.name != name
        decreases left
      {
        var x :| x in left;
        if x.name == name {
          return Some(x);
        }
        left := left - {x};
      }
      return None;
    }

    /** The loop of createCombinedState over the pending list: the first state of that name, if any. */
    method FindPending(name: string) returns (r: Option<State<char>>)
      ensures r == FirstNamed(unhandled, name)
    {
      var i := 0;
      while i < |unhandled|
        invariant 0 <= i <= |unhandled|
        invariant FirstNamed(unhandled, name) == FirstNamed(unhandled[i..], name)
      {
        assert unhandled[i..][1..] == unhandled[i + 1..];
        if unhandled[i].name == name {
          return Some(unhandled[i]);
        }
        i := i + 1;
      }
      return None;
    }

    /**
     * createCombinedState: the state named by the TreeSet of next's names, concatenated.  A
     * handled state of that name, else the first pending one, is returned as it is; otherwise
     * a new state holding all the constituents' transitions is appended to the pending list,
     * and is final in the NFA when a constituent is FINAL (an initial constituent does not count).
     */
    method CreateCombinedState(next: seq<State<char>>) returns (r: State<char>)
      modifies this, nfa.fa
      ensures nfa == old(nfa) && handled == old(handled) && transitionTable == old(transitionTable)
      ensures phiStateExist == old(phiStateExist)
      ensures nfa.fa.states == old(nfa.fa.states) && nfa.fa.alphabets == old(nfa.fa.alphabets)
      ensures nfa.fa.initialState == old(nfa.fa.initialState)
      ensures r.name == TreeSetName(NamesOf(next))
      ensures Known(old(handled), r.name) ==>
        r in old(handled) && unhandled == old(unhandled) && nfa.fa.finalStates == old(nfa.fa.finalStates)
      ensures !Known(old(handled), r.name) && HasName(old(unhandled), r.name) ==>
        Some(r) == FirstNamed(old(unhandled), r.name) && unhandled == old(unhandled) && nfa.fa.finalStates == old(nfa.fa.finalStates)
      ensures !Known(old(handled), r.name) && !HasName(old(unhandled), r.name) ==>
        && fresh(r)
        && unhandled == old(unhandled) + [r]
        && nfa.fa.finalStates - {r} == old(nfa.fa.finalStates)
        && (r in nfa.fa.finalStates <==> exists k :: 0 <= k < |next| && old(nfa.GetStateType(next[k])) == Some(FINAL))
        && Unites(r, next) && NoDuplicateEdges(r.transitions)
    {
      var name := TreeSetName(NamesOf(next));
      var isFinal := AnyFinal(next);
      var inHandled := FindHandled(name);
      if inHandled.Some? {
        return inHandled.value;
      }
      var inPending := FindPending(name);
      if inPending.Some? {
        return inPending.value;
      }
      r := NewCombined(name, next, isFinal);
    }

    /** The last part of createCombinedState: a new state of that name, final when asked, holding next's transitions, made pending. */
    method NewCombined(name: string, next: seq<State<char>>, isFinal: bool) returns (r: State<char>)
      modifies this, nfa.fa
      ensures nfa == old(nfa) && handled == old(handled) && transitionTable == old(transitionTable)
      ensures phiStateExist == old(phiStateExist)
      ensures nfa.fa.states == old(nfa.fa.states) && nfa.fa.alphabets == old(nfa.fa.alphabets)
      ensures nfa.fa.initialState == old(nfa.fa.initialState)
      ensures fresh(r) && r.name == name && unhandled == old(unhandled) + [r]
      ensures nfa.fa.finalStates == old(nfa.fa.finalStates) + (if isFinal then {r} else {})
      ensures Unites(r, next) && NoDuplicateEdges(r.transitions)
    {
      r := new State(name);
      if isFinal {
        nfa.fa.AddFinalState(r);
      }
      Combine(r, next);
      unhandled := unhandled + [r];
    }
  }
}
