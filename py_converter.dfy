/**
 * automata/automata_converter.py: subset construction from an NFA, either as a transition
 * table (rows of states) or as a DFA, with the handled / unhandled pools, combined states
 * named by their constituents' sorted names, a dead state "?" and epsilon elimination.
 * Python sets are iterated in an order the model leaves open: a member is picked with `:|`.
 */
module PyConverter {
  import opened Wrappers
  import opened Names
  import opened Graph
  import opened Subset
  import opened EpsilonClosure
  import opened PyAutomata
  import PyDfa
  import opened Elimination
  import opened PyEpsilon

  /** is_state_exist: a State is present when some member of the pool has its name; a non-State (None) is not. */
  function IsStateExist(pool: set<State<string>>, state: Option<State<string>>): (r: bool)
    ensures state.None? ==> !r
    ensures state.Some? ==> (r <==> exists s :: s in pool && s.name == state.value.name)
  {
    state.Some? && Known(pool, state.value.name)
  }

  /** A state in the pool is always found, and renaming-free copies of it too. */
  lemma IsStateExistByName(pool: set<State<string>>, s: State<string>, t: State<string>)
    requires s in pool && s.name == t.name
    ensures IsStateExist(pool, Some(t))
  {
  }

  /**
   * The last loop of convert_to_dfa: the dead state gets a self-loop on every symbol of alph;
   * the DFA's add_transition drops the epsilon symbol and records the others in its alphabet.
   */
  method AddLoops(dfa: PyDfa.DFA, phi: State<string>, alph: set<string>)
    modifies dfa.fa, phi
    ensures forall a :: a in alph && a != EPSILON ==> HasEdge(phi.transitions, a, phi)
    ensures dfa.fa.alphabets == old(dfa.fa.alphabets) + (alph - {EPSILON})
    ensures dfa.fa.states == old(dfa.fa.states) && dfa.fa.initialState == old(dfa.fa.initialState)
    ensures dfa.fa.finalStates == old(dfa.fa.finalStates)
  {
    var left := alph;
    while left != {}
      invariant left <= alph
      invariant forall a :: a in alph - left && a != EPSILON ==> HasEdge(phi.transitions, a, phi)
      invariant dfa.fa.alphabets == old(dfa.fa.alphabets) + (alph - left - {EPSILON})
      invariant dfa.fa.states == old(dfa.fa.states) && dfa.fa.initialState == old(dfa.fa.initialState)
      invariant dfa.fa.finalStates == old(dfa.fa.finalStates)
      decreases left
    {
      var a :| a in left;
      ghost var before := phi.transitions;
      dfa.AddTransition(phi, a, phi);
      forall b | b in alph - left && b != EPSILON
        ensures HasEdge(phi.transitions, b, phi)
      {
        assert HasEdge(before, b, phi);
        var i :| 0 <= i < |before| && before[i].alphabet == b && before[i].nextState == phi;
        assert phi.transitions[i] == before[i];
      }
      left := left - {a};
    }
  }

  class AutomataConverter {
    var nfa: NFA
    var transitionTable: seq<TableRow<string>>
    var handled: set<State<string>>
    var unhandled: set<State<string>>
    var phiStateExist: bool
    const minimized: bool

    constructor(nfa: NFA, minimized: bool)
      ensures this.nfa == nfa && this.minimized == minimized
      ensures transitionTable == [] && handled == {} && unhandled == {} && !phiStateExist
    {
      this.nfa := nfa;
      this.minimized := minimized;
      transitionTable := [];
      handled := {};
      unhandled := {};
      phiStateExist := false;
    }

    /**
     * add_table_row: the row for state, one cell per symbol in the alphabet's iteration order
     * (returned as order, with the targets looked up for each symbol).  state becomes handled
     * first; then each cell is made by NextCell.
     */
    method AddTableRow(state: Option<State<string>>) returns (ghost order: seq<string>, ghost targets: seq<seq<State<string>>>)
      modifies this, nfa.fa
      ensures nfa == old(nfa) && nfa.fa.states == old(nfa.fa.states) && nfa.fa.alphabets == old(nfa.fa.alphabets)
      ensures nfa.fa.initialState == old(nfa.fa.initialState)
      ensures handled == old(handled) + (if state.Some? then {state.value} else {})
      ensures old(unhandled) <= unhandled
      ensures Distinct(order) && |order| == |nfa.fa.alphabets| && forall a :: a in order <==> a in nfa.fa.alphabets
      ensures |targets| == |order| && forall j :: 0 <= j < |order| ==> targets[j] == old(NextStatesForAlphabet(state, order[j]))
      ensures |transitionTable| == |old(transitionTable)| + 1 && transitionTable[..|old(transitionTable)|] == old(transitionTable)
      ensures transitionTable[|old(transitionTable)|].head == state
      ensures |transitionTable[|old(transitionTable)|].cells| == |nfa.fa.alphabets|
      ensures Cells(transitionTable[|old(transitionTable)|].cells, targets, handled, unhandled, CombinedName)
      ensures phiStateExist <==> old(phiStateExist) || [] in targets
    {
      if state.Some? {
        handled := handled + {state.value};
      }
      var cells;
      order, targets, cells := RowCells(state);
      transitionTable := transitionTable + [TableRow(state, cells)];
    }

    /** The loop of add_table_row: one cell per symbol, the symbols taken in some order. */
    method RowCells(state: Option<State<string>>) returns (ghost order: seq<string>, ghost targets: seq<seq<State<string>>>, cells: seq<State<string>>)
      modifies this, nfa.fa
      ensures nfa == old(nfa) && nfa.fa.states == old(nfa.fa.states) && nfa.fa.alphabets == old(nfa.fa.alphabets)
      ensures nfa.fa.initialState == old(nfa.fa.initialState)
      ensures handled == old(handled) && transitionTable == old(transitionTable) && old(unhandled) <= unhandled
      ensures Distinct(order) && |order| == |nfa.fa.alphabets| && forall a :: a in order <==> a in nfa.fa.alphabets
      ensures |targets| == |order| && forall j :: 0 <= j < |order| ==> targets[j] == old(NextStatesForAlphabet(state, order[j]))
      ensures Cells(cells, targets, handled, unhandled, CombinedName)
      ensures phiStateExist <==> old(phiStateExist) || [] in targets
    {
      cells := [];
      var left := nfa.fa.alphabets;
      order, targets := [], [];
      while left != {}
        modifies this, nfa.fa
        invariant nfa == old(nfa) && nfa.fa.states == old(nfa.fa.states) && nfa.fa.alphabets == old(nfa.fa.alphabets)
        invariant nfa.fa.initialState == old(nfa.fa.initialState)
        invariant handled == old(handled) && transitionTable == old(transitionTable) && old(unhandled) <= unhandled
        invariant Enumerates(order, left, nfa.fa.alphabets)
        invariant |targets| == |order| && forall j :: 0 <= j < |order| ==> targets[j] == old(NextStatesForAlphabet(state, order[j]))
        invariant Cells(cells, targets, handled, unhandled, CombinedName)
        invariant phiStateExist <==> old(phiStateExist) || [] in targets
        decreases left
      {
        var a :| a in left;
        var next := NextStatesForAlphabet(state, a);
        assert next == old(NextStatesForAlphabet(state, a));
        var cell := RowStep(a, next, order, left, targets, cells);
        forall j | 0 <= j < |order| + 1 ensures (targets + [next])[j] == old(NextStatesForAlphabet(state, (order + [a])[j])) {
          if j < |order| {
            assert (targets + [next])[j] == targets[j] && (order + [a])[j] == order[j];
          }
        }
        cells, targets := cells + [cell], targets + [next];
        order := order + [a];
        left := left - {a};
      }
      EnumeratesDone(order, nfa.fa.alphabets);
    }

    /** One round of RowCells: the cell for symbol a, whose targets are next. */
    method RowStep(a: string, next: seq<State<string>>, ghost order: seq<string>, ghost left: set<string>,
                   ghost targets: seq<seq<State<string>>>, ghost cells: seq<State<string>>) returns (cell: State<string>)
      requires a in left && Enumerates(order, left, nfa.fa.alphabets) && Cells(cells, targets, handled, unhandled, CombinedName)
      modifies this, nfa.fa
      ensures nfa == old(nfa) && nfa.fa.states == old(nfa.fa.states) && nfa.fa.alphabets == old(nfa.fa.alphabets)
      ensures nfa.fa.initialState == old(nfa.fa.initialState)
      ensures handled == old(handled) && transitionTable == old(transitionTable) && old(unhandled) <= unhandled
      ensures Enumerates(order + [a], left - {a}, nfa.fa.alphabets)
      ensures Cells(cells + [cell], targets + [next], handled, unhandled, CombinedName)
      ensures phiStateExist <==> old(phiStateExist) || next == []
    {
      ghost var pending := unhandled;
      cell := NextCell(next);
      CellsAppend(cells, targets, handled, pending, unhandled, cell, next, CombinedName);
      EnumeratesStep(order, left, nfa.fa.alphabets, a);
    }

    /**
     * The body of add_table_row's loop for one symbol with targets next: a single target
     * (queued unless its name is handled), a combined state, or a new dead state (setting the flag).
     */
    method NextCell(next: seq<State<string>>) returns (cell: State<string>)
      modifies this, nfa.fa
      ensures nfa == old(nfa) && nfa.fa.states == old(nfa.fa.states) && nfa.fa.alphabets == old(nfa.fa.alphabets)
      ensures nfa.fa.initialState == old(nfa.fa.initialState)
      ensures handled == old(handled) && transitionTable == old(transitionTable) && old(unhandled) <= unhandled
      ensures Entry(cell, next, IsPhi, CombinedName)
      ensures |next| == 1 && !Known(handled, next[0].name) ==> next[0] in unhandled
      ensures |next| > 1 ==> cell in handled + unhandled
      ensures phiStateExist <==> old(phiStateExist) || next == []
    {
      if next != [] {
        if |next| == 1 {
          if !IsStateExist(handled, Some(next[0])) {
            unhandled := unhandled + {next[0]};
          }
          cell := next[0];
        } else {
          cell := CreateCombinedState(next);
        }
      } else {
        cell := new State(PHI);
        phiStateExist := true;
      }
    }

    /** process_unhandled_states: rows for pending states, one popped at a time, until none is pending (or fuel runs out). */
    method ProcessUnhandledStates(fuel: nat) returns (done: bool)
      modifies this, nfa.fa
      ensures done <==> unhandled == {}
      ensures nfa == old(nfa) && nfa.fa.states == old(nfa.fa.states) && nfa.fa.alphabets == old(nfa.fa.alphabets)
      ensures nfa.fa.initialState == old(nfa.fa.initialState)
      ensures old(handled) <= handled
      ensures |old(transitionTable)| <= |transitionTable| && transitionTable[..|old(transitionTable)|] == old(transitionTable)
      ensures forall i :: |old(transitionTable)| <= i < |transitionTable| ==>
        transitionTable[i].head.Some? && transitionTable[i].head.value in handled &&
        |transitionTable[i].cells| == |nfa.fa.alphabets|
    {
      var f := fuel;
      while unhandled != {} && f > 0
        decreases f
        invariant nfa == old(nfa) && nfa.fa.states == old(nfa.fa.states) && nfa.fa.alphabets == old(nfa.fa.alphabets)
        invariant nfa.fa.initialState == old(nfa.fa.initialState)
        invariant old(handled) <= handled
        invariant |old(transitionTable)| <= |transitionTable| && transitionTable[..|old(transitionTable)|] == old(transitionTable)
        invariant forall i :: |old(transitionTable)| <= i < |transitionTable| ==>
          transitionTable[i].head.Some? && transitionTable[i].head.value in handled &&
          |transitionTable[i].cells| == |nfa.fa.alphabets|
      {
        ghost var before, seen := transitionTable, handled;
        HandleNext();
        forall i | |old(transitionTable)| <= i < |transitionTable|
          ensures transitionTable[i].head.Some? && transitionTable[i].head.value in handled
          ensures |transitionTable[i].cells| == |nfa.fa.alphabets|
        {
          if i < |before| {
            assert transitionTable[i] == before[..|before|][i];
          }
        }
        f := f - 1;
      }
      done := unhandled == {};
    }

    /** One round of process_unhandled_states: pop some pending state and add its row. */
    method HandleNext()
      requires unhandled != {}
      modifies this, nfa.fa
      ensures nfa == old(nfa) && nfa.fa.states == old(nfa.fa.states) && nfa.fa.alphabets == old(nfa.fa.alphabets)
      ensures nfa.fa.initialState == old(nfa.fa.initialState)
      ensures old(handled) <= handled
      ensures |transitionTable| == |old(transitionTable)| + 1 && transitionTable[..|old(transitionTable)|] == old(transitionTable)
      ensures var row := transitionTable[|old(transitionTable)|];
        row.head.Some? && row.head.value in old(unhandled) && row.head.value in handled && |row.cells| == |nfa.fa.alphabets|
    {
      var state :| state in unhandled;
      unhandled := unhandled - {state};
      ghost var order, targets := AddTableRow(Some(state));
    }

    /** add_phi_row: a row of |alphabet| + 1 cells, all one new dead state. */
    method AddPhiRow()
      modifies this
      ensures |transitionTable| == |old(transitionTable)| + 1 && transitionTable[..|old(transitionTable)|] == old(transitionTable)
      ensures var row := transitionTable[|old(transitionTable)|];
        && row.head.Some? && row.head.value.name == PHI && |row.cells| == |nfa.fa.alphabets|
        && forall j :: 0 <= j < |row.cells| ==> row.cells[j] == row.head.value
      ensures nfa == old(nfa) && handled == old(handled) && unhandled == old(unhandled) && phiStateExist == old(phiStateExist)
    {
      var phi := new State(PHI);
      var row := seq(|nfa.fa.alphabets| + 1, _ => phi);
      transitionTable := transitionTable + [TableRow(Some(row[0]), row[1..])];
    }

    /**
     * convert_to_dfa_table as written: its first step calls self.nfa.has_epsilon(), but the
     * NFA constructor has replaced that method by a bool attribute, so the call raises
     * TypeError before anything changes.
     */
    method ConvertToDfaTable() returns (r: Result<seq<TableRow<string>>, Error>)
      ensures r == Failure(TypeError)
    {
      r := Failure(TypeError);
    }

    /**
     * The head of convert_to_dfa_table and convert_to_dfa: an NFA with epsilon moves is
     * replaced by the result of convert_to_nfa; false when that raises (no initial state).
     */
    method EliminateEpsilon(ghost U: set<State<string>>) returns (ok: bool)
      requires nfa.hasEpsilon ==> (forall x :: x in nfa.fa.states ==> x in U) && Closed(U)
      modifies this
      ensures ok <==> !(old(nfa.hasEpsilon) && old(nfa.fa.initialState).None?)
      ensures !old(nfa.hasEpsilon) ==> nfa == old(nfa)
      ensures ok && old(nfa.hasEpsilon) ==> fresh(nfa) && fresh(nfa.fa) && old(nfa.fa.initialState).Some?
      ensures ok && old(nfa.hasEpsilon) ==>
        Converted(nfa, old(nfa.fa.initialState).value.name, old(AllSteps(nfa.fa.alphabets, CLOSURE_EPSILON, U)), old(nfa.fa.states),
                  |old(nfa.fa.states)|, old(nfa.fa.alphabets), old(nfa.fa.initialState), old(nfa.fa.finalStates))
      ensures ok ==> (nfa.fa.initialState.Some? <==> old(nfa.fa.initialState).Some?)
      ensures ok && nfa.fa.initialState.Some? ==> nfa.fa.initialState.value.name == old(nfa.fa.initialState).value.name
      ensures transitionTable == old(transitionTable) && handled == old(handled) && unhandled == old(unhandled)
      ensures phiStateExist == old(phiStateExist)
    {
      ok := true;
      if nfa.hasEpsilon {
        var converted := ConvertToNfa(nfa, U);
        if converted.Failure? {
          return false;
        }
        nfa := converted.value;
      }
    }

    /**
     * convert_to_dfa_table as intended (has_epsilon read as the flag it is): epsilon moves are
     * removed first, then the row of the initial state, rows for every pending state, and a
     * dead row when some lookup found no target.
     */
    method ConvertToDfaTableIntended(fuel: nat, ghost U: set<State<string>>) returns (r: Result<seq<TableRow<string>>, Error>, done: bool)
      requires nfa.hasEpsilon ==> (forall x :: x in nfa.fa.states ==> x in U) && Closed(U)
      modifies this, nfa, nfa.fa
      ensures r.Failure? <==> old(nfa.hasEpsilon) && old(nfa.fa.initialState).None?
      ensures r.Failure? ==> r.error == AttributeError
      ensures r.Success? ==> r.value == transitionTable
      ensures r.Success? && done ==> unhandled == {}
      ensures r.Success? ==> (|transitionTable| >= |old(transitionTable)| + 1 &&
        transitionTable[|old(transitionTable)|].head == nfa.fa.initialState)
      ensures r.Success? ==> forall i :: |old(transitionTable)| <= i < |transitionTable| ==> |transitionTable[i].cells| == |nfa.fa.alphabets|
      ensures r.Success? && phiStateExist ==> (transitionTable[|transitionTable| - 1].head.Some? &&
        transitionTable[|transitionTable| - 1].head.value.name == PHI)
    {
      var ok := EliminateEpsilon(U);
      if !ok {
        return Failure(AttributeError), false;
      }
      var table;
      table, done := BuildTable(fuel);
      r := Success(table);
    }

    /** The body of convert_to_dfa_table after epsilon elimination. */
    method BuildTable(fuel: nat) returns (table: seq<TableRow<string>>, done: bool)
      modifies this, nfa.fa
      ensures nfa == old(nfa) && table == transitionTable
      ensures done ==> unhandled == {}
      ensures |transitionTable| >= |old(transitionTable)| + 1 &&
        transitionTable[|old(transitionTable)|].head == nfa.fa.initialState
      ensures forall i :: |old(transitionTable)| <= i < |transitionTable| ==> |transitionTable[i].cells| == |nfa.fa.alphabets|
      ensures phiStateExist ==> (transitionTable[|transitionTable| - 1].head.Some? &&
        transitionTable[|transitionTable| - 1].head.value.name == PHI)
    {
      ghost var start := |transitionTable|;
      ghost var order, targets := AddTableRow(nfa.fa.initialState);
      ghost var first := transitionTable;
      done := ProcessUnhandledStates(fuel);
      assert transitionTable[start] == first[start] by {
        assert transitionTable[..|first|] == first;
      }
      ghost var rows := transitionTable;
      if phiStateExist {
        AddPhiRow();
        assert transitionTable[..|rows|] == rows;
      }
      forall i | start <= i < |transitionTable| ensures |transitionTable[i].cells| == |nfa.fa.alphabets| {
        if i < |rows| {
          assert transitionTable[i] == rows[i];
          if i < |first| {
            assert rows[i] == first[i];
          }
        }
      }
      table := transitionTable;
    }

    /**
     * The body of convert_to_dfa's loops for one symbol with targets next: the dead state phi
     * when there are none (setting the flag), the one target itself (queued unless a handled
     * state has its name), or a combined state.
     */
    method NextTarget(next: seq<State<string>>, phi: State<string>) returns (target: State<string>)
      requires phi.name == PHI
      modifies this, nfa.fa
      ensures nfa == old(nfa) && nfa.fa.states == old(nfa.fa.states) && nfa.fa.alphabets == old(nfa.fa.alphabets)
      ensures nfa.fa.initialState == old(nfa.fa.initialState)
      ensures old(nfa.fa.finalStates) <= nfa.fa.finalStates
      ensures forall f :: f in nfa.fa.finalStates && f !in old(nfa.fa.finalStates) ==> fresh(f)
      ensures handled == old(handled) && transitionTable == old(transitionTable) && old(unhandled) <= unhandled
      ensures Entry(target, next, IsPhi, CombinedName) && (next == [] ==> target == phi)
      ensures |next| == 1 ==> unhandled == old(unhandled) + (if Known(handled, next[0].name) then {} else {next[0]})
      ensures (target == phi && phiStateExist) || target.name in PoolNames(handled + unhandled)
      ensures phiStateExist <==> old(phiStateExist) || next == []
    {
      if next != [] {
        if |next| == 1 {
          if !IsStateExist(handled, Some(next[0])) {
            unhandled := unhandled + {next[0]};
          }
          target := next[0];
        } else {
          target := CreateCombinedState(next);
        }
      } else {
        phiStateExist := true;
        target := phi;
      }
    }

    /**
     * The state of the loop over the alphabet in convert_to_dfa after the symbols of order:
     * x's transitions are filled for order, left holds the symbols still to come, and the dead
     * state is flagged when it was before the loop or some lookup found no target.
     */
    ghost predicate Filling(x: State<string>, phi: State<string>, flag: bool,
                            order: seq<string>, left: set<string>, targets: seq<seq<State<string>>>)
      reads this, nfa, nfa.fa, x, x.transitions
    {
      && phi.name == PHI
      && Enumerates(order, left, nfa.fa.alphabets)
      && Filled(x, phi, order, targets, PoolNames(handled + unhandled), phiStateExist, CombinedName)
      && (phiStateExist <==> flag || [] in targets)
    }

    /**
     * The loop over the alphabet in convert_to_dfa for the NFA state state: x, its new DFA
     * copy, gets one transition per symbol (taken in some order), to the target NextTarget
     * picks for the targets of state on that symbol.
     */
    method FillRow(x: State<string>, state: State<string>, phi: State<string>)
        returns (ghost order: seq<string>, ghost targets: seq<seq<State<string>>>)
      requires x.transitions == [] && x != state && phi.name == PHI
      modifies this, nfa.fa, x
      ensures nfa == old(nfa) && nfa.fa.states == old(nfa.fa.states) && nfa.fa.alphabets == old(nfa.fa.alphabets)
      ensures nfa.fa.initialState == old(nfa.fa.initialState)
      ensures old(nfa.fa.finalStates) <= nfa.fa.finalStates
      ensures forall f :: f in nfa.fa.finalStates && f !in old(nfa.fa.finalStates) ==> fresh(f)
      ensures handled == old(handled) && transitionTable == old(transitionTable) && old(unhandled) <= unhandled
      ensures Distinct(order) && |order| == |nfa.fa.alphabets| && forall a :: a in order <==> a in nfa.fa.alphabets
      ensures OnePerSymbol(x.transitions, order)
      ensures |targets| == |order| && forall j :: 0 <= j < |order| ==> targets[j] == old(NextStatesForAlphabet(Some(state), order[j]))
      ensures forall j :: 0 <= j < |order| ==>
        Entry(x.transitions[j].nextState, targets[j], IsPhi, CombinedName) && (targets[j] == [] ==> x.transitions[j].nextState == phi)
      ensures DfaRow(x, phi, nfa.fa.alphabets, PoolNames(handled + unhandled), phiStateExist)
      ensures phiStateExist <==> old(phiStateExist) || [] in targets
    {
      var left := nfa.fa.alphabets;
      order, targets := [], [];
      ghost var flag := phiStateExist;
      while left != {}
        invariant nfa == old(nfa) && nfa.fa.states == old(nfa.fa.states) && nfa.fa.alphabets == old(nfa.fa.alphabets)
        invariant nfa.fa.initialState == old(nfa.fa.initialState)
        invariant old(nfa.fa.finalStates) <= nfa.fa.finalStates
        invariant forall f :: f in nfa.fa.finalStates && f !in old(nfa.fa.finalStates) ==> fresh(f)
        invariant handled == old(handled) && transitionTable == old(transitionTable) && old(unhandled) <= unhandled
        invariant Filling(x, phi, flag, order, left, targets)
        invariant forall j :: 0 <= j < |order| ==> targets[j] == old(NextStatesForAlphabet(Some(state), order[j]))
        decreases left
      {
        var a :| a in left;
        var next := NextStatesForAlphabet(Some(state), a);
        assert next == old(NextStatesForAlphabet(Some(state), a));
        FillStep(x, phi, flag, a, next, order, left, targets);
        order, targets := order + [a], targets + [next];
        left := left - {a};
      }
      EnumeratesDone(order, nfa.fa.alphabets);
      OnePerSymbolOneEach(x.transitions, order, nfa.fa.alphabets);
    }

    /** One round of FillRow: the transition of x on symbol a, whose targets are next. */
    method FillStep(x: State<string>, phi: State<string>, ghost flag: bool, a: string, next: seq<State<string>>,
                    ghost order: seq<string>, ghost left: set<string>, ghost targets: seq<seq<State<string>>>)
      requires a in left && Filling(x, phi, flag, order, left, targets)
      modifies this, nfa.fa, x
      ensures Filling(x, phi, flag, order + [a], left - {a}, targets + [next])
      ensures nfa == old(nfa) && nfa.fa.states == old(nfa.fa.states) && nfa.fa.alphabets == old(nfa.fa.alphabets)
      ensures nfa.fa.initialState == old(nfa.fa.initialState)
      ensures old(nfa.fa.finalStates) <= nfa.fa.finalStates
      ensures forall f :: f in nfa.fa.finalStates && f !in old(nfa.fa.finalStates) ==> fresh(f)
      ensures handled == old(handled) && transitionTable == old(transitionTable) && old(unhandled) <= unhandled
    {
      ghost var names, seen := PoolNames(handled + unhandled), phiStateExist;
      var target := NextTarget(next, phi);
      PoolNamesGrow(old(handled + unhandled), handled + unhandled);
      FilledGrows(x, phi, order, targets, names, seen, PoolNames(handled + unhandled), phiStateExist, CombinedName);
      EnumeratesStep(order, left, nfa.fa.alphabets, a);
      AppendEdge(x, phi, a, target, order, targets, next, PoolNames(handled + unhandled), phiStateExist, CombinedName);
    }

    /**
     * The state of convert_to_dfa's worklist loop: the DFA starts with s0, the copy of the NFA's
     * initial state start, final exactly when start is; every DFA state but the dead one is
     * built (its targets named by handled or pending states); every handled state has a DFA
     * state of its name; and the DFA's final names are those of the handled final NFA states.
     */
    ghost predicate Building(dfa: PyDfa.DFA, phi: State<string>, s0: State<string>, start: State<string>, alph: set<string>,
                             frame: set<object>)
      reads this, nfa, nfa.fa, dfa.fa, phi, frame
    {
      && nfa.fa.initialState == Some(start) && nfa.fa.alphabets == alph && nfa.fa != dfa.fa
      && this !in frame && nfa.fa !in frame && dfa.fa !in frame && phi !in frame
      && phi.name == PHI && phi.transitions == []
      && |dfa.fa.states| > 0 && dfa.fa.states[0] == s0 && s0 != phi && dfa.fa.initialState == Some(s0)
      && s0.name == start.name
      && (s0 in dfa.fa.finalStates <==> start in nfa.fa.finalStates)
      && Built(frame, Others(dfa.fa.states, phi), phi, alph, PoolNames(handled + unhandled), phiStateExist)
      && PoolNames(handled) <= PoolNames(set x | x in dfa.fa.states)
      && PoolNames(dfa.fa.finalStates) == PoolNames(handled * nfa.fa.finalStates)
    }

    /**
     * One round of convert_to_dfa's worklist loop: some pending state is popped, its DFA copy
     * built, the state handled, the copy added to the DFA (by name), and made final when the
     * state is final and no final DFA state has its name yet.
     */
    method DfaStep(dfa: PyDfa.DFA, phi: State<string>, s0: State<string>, ghost start: State<string>, ghost alph: set<string>,
                   ghost frame: set<object>) returns (ghost frame': set<object>)
      requires unhandled != {} && Building(dfa, phi, s0, start, alph, frame)
      modifies this, nfa.fa, dfa.fa
      ensures Building(dfa, phi, s0, start, alph, frame')
      ensures nfa == old(nfa) && dfa.fa.alphabets == old(dfa.fa.alphabets)
    {
      ghost var names, flag, F0 := PoolNames(handled + unhandled), phiStateExist, nfa.fa.finalStates;
      var state :| state in unhandled;
      var x := HandleState(state, phi);
      PlaceCopy(dfa, phi, s0, start, alph, frame, state, x, names, flag, old(handled), F0);
      frame' := frame + RowFrame(x);
    }

    /** The second part of a worklist round, with the proof that it restores Building: the copy x of state joins the DFA. */
    method PlaceCopy(dfa: PyDfa.DFA, phi: State<string>, s0: State<string>, ghost start: State<string>, ghost alph: set<string>,
                     ghost frame: set<object>, state: State<string>, x: State<string>, ghost names: set<string>, ghost flag: bool,
                     ghost handled0: set<State<string>>, ghost F0: set<State<string>>)
      requires nfa.fa.initialState == Some(start) && nfa.fa.alphabets == alph && nfa.fa != dfa.fa
      requires this !in frame && nfa.fa !in frame && dfa.fa !in frame && phi !in frame && x != phi && x != s0
      requires phi.name == PHI && phi.transitions == []
      requires |dfa.fa.states| > 0 && dfa.fa.states[0] == s0 && s0 != phi && dfa.fa.initialState == Some(s0) && s0.name == start.name
      requires s0 in dfa.fa.finalStates <==> start in nfa.fa.finalStates
      requires Built(frame, Others(dfa.fa.states, phi), phi, alph, names, flag)
      requires DfaRow(x, phi, alph, PoolNames(handled + unhandled), phiStateExist)
      requires names <= PoolNames(handled + unhandled) && (flag ==> phiStateExist)
      requires PoolNames(handled0) <= PoolNames(set y | y in dfa.fa.states) && handled == handled0 + {state} && x.name == state.name
      requires PoolNames(dfa.fa.finalStates) == PoolNames(handled0 * F0)
      requires F0 <= nfa.fa.finalStates && forall f :: f in nfa.fa.finalStates && f !in F0 ==> f !in handled0 && f != state
      modifies dfa.fa
      ensures Building(dfa, phi, s0, start, alph, frame + RowFrame(x))
      ensures dfa.fa.alphabets == old(dfa.fa.alphabets)
    {
      ghost var B := Others(dfa.fa.states, phi);
      AddCopy(dfa, state, x);
      assert Built(frame, B, phi, alph, names, flag);
      FinalNamesStep(handled0, F0, nfa.fa.finalStates, old(dfa.fa.finalStates), dfa.fa.finalStates, state, x);
      BuildingAfter(dfa, phi, s0, start, alph, frame, B, x, state, old(dfa.fa.states), handled0, names, flag);
    }

    /** What a worklist round leaves: Building again, with the new copy's objects added to the frame. */
    lemma BuildingAfter(dfa: PyDfa.DFA, phi: State<string>, s0: State<string>, start: State<string>, alph: set<string>,
                        frame: set<object>, B: set<State<string>>, x: State<string>, state: State<string>,
                        states: seq<State<string>>, handled0: set<State<string>>, names: set<string>, flag: bool)
      requires nfa.fa.initialState == Some(start) && nfa.fa.alphabets == alph && nfa.fa != dfa.fa
      requires this !in frame && nfa.fa !in frame && dfa.fa !in frame && phi !in frame && x != phi
      requires phi.name == PHI && phi.transitions == []
      requires |states| > 0 && states[0] == s0 && s0 != phi && dfa.fa.initialState == Some(s0) && s0.name == start.name
      requires dfa.fa.states == if HasName(states, x.name) then states else states + [x]
      requires s0 in dfa.fa.finalStates <==> start in nfa.fa.finalStates
      requires B == Others(states, phi) && Built(frame, B, phi, alph, names, flag)
      requires DfaRow(x, phi, alph, PoolNames(handled + unhandled), phiStateExist)
      requires names <= PoolNames(handled + unhandled) && (flag ==> phiStateExist)
      requires PoolNames(handled0) <= PoolNames(set y | y in states) && handled == handled0 + {state} && x.name == state.name
      requires PoolNames(dfa.fa.finalStates) == PoolNames(handled * nfa.fa.finalStates)
      ensures Building(dfa, phi, s0, start, alph, frame + RowFrame(x))
    {
      BuiltGrows(frame, B, phi, alph, names, flag, PoolNames(handled + unhandled), phiStateExist);
      BuiltAdd(frame, B, x, phi, alph, PoolNames(handled + unhandled), phiStateExist);
      ghost var B' := Others(dfa.fa.states, phi);
      if x in dfa.fa.states {
        assert B' == B + {x};
      } else {
        assert B' == B;
        assert Built(frame + RowFrame(x), B', phi, alph, PoolNames(handled + unhandled), phiStateExist);
      }
      forall n | n in PoolNames(handled)
        ensures n in PoolNames(set y | y in dfa.fa.states)
      {
        ListNames(states, n);
        ListNames(dfa.fa.states, n);
        ListNames(dfa.fa.states, x.name);
      }
    }

    /** The first part of a worklist round: state leaves the pending pool, its copy x is built, and state is handled. */
    method HandleState(state: State<string>, phi: State<string>) returns (x: State<string>)
      requires state in unhandled && phi.name == PHI
      modifies this, nfa.fa
      ensures fresh(x) && x.name == state.name
      ensures nfa == old(nfa) && nfa.fa.states == old(nfa.fa.states) && nfa.fa.alphabets == old(nfa.fa.alphabets)
      ensures nfa.fa.initialState == old(nfa.fa.initialState)
      ensures old(nfa.fa.finalStates) <= nfa.fa.finalStates
      ensures forall f :: f in nfa.fa.finalStates && f !in old(nfa.fa.finalStates) ==> fresh(f)
      ensures handled == old(handled) + {state} && old(unhandled) - {state} <= unhandled
      ensures DfaRow(x, phi, nfa.fa.alphabets, PoolNames(handled + unhandled), phiStateExist)
      ensures old(phiStateExist) ==> phiStateExist
    {
      unhandled := unhandled - {state};
      x := BuildRow(state, phi);
      ghost var pool := handled + unhandled;
      ghost var names := PoolNames(pool);
      handled := handled + {state};
      PoolNamesGrow(pool, handled + unhandled);
      DfaRowGrows(x, phi, nfa.fa.alphabets, names, phiStateExist, PoolNames(handled + unhandled), phiStateExist);
    }

    /** The DFA copy x of state, with its transitions filled by FillRow. */
    method BuildRow(state: State<string>, phi: State<string>) returns (x: State<string>)
      requires phi.name == PHI
      modifies this, nfa.fa
      ensures fresh(x) && x.name == state.name
      ensures nfa == old(nfa) && nfa.fa.states == old(nfa.fa.states) && nfa.fa.alphabets == old(nfa.fa.alphabets)
      ensures nfa.fa.initialState == old(nfa.fa.initialState)
      ensures old(nfa.fa.finalStates) <= nfa.fa.finalStates
      ensures forall f :: f in nfa.fa.finalStates && f !in old(nfa.fa.finalStates) ==> fresh(f)
      ensures handled == old(handled) && old(unhandled) <= unhandled
      ensures DfaRow(x, phi, nfa.fa.alphabets, PoolNames(handled + unhandled), phiStateExist)
      ensures old(phiStateExist) ==> phiStateExist
    {
      x := new State(state.name);
      ghost var order, targets := FillRow(x, state, phi);
    }

    /**
     * The second part of a worklist round: the copy x of state joins the DFA unless a state of
     * its name is there, and becomes final when state is final in the NFA and no final DFA
     * state has its name.
     */
    method AddCopy(dfa: PyDfa.DFA, state: State<string>, x: State<string>)
      requires dfa.fa != nfa.fa && x.name == state.name
      modifies dfa.fa
      ensures dfa.fa.states == if HasName(old(dfa.fa.states), x.name) then old(dfa.fa.states) else old(dfa.fa.states) + [x]
      ensures dfa.fa.finalStates ==
        if state in nfa.fa.finalStates && !Known(old(dfa.fa.finalStates), x.name) then old(dfa.fa.finalStates) + {x}
        else old(dfa.fa.finalStates)
      ensures dfa.fa.alphabets == old(dfa.fa.alphabets) && dfa.fa.initialState == old(dfa.fa.initialState)
    {
      dfa.fa.AddState(x);
      if state in nfa.fa.finalStates {
        if !Known(dfa.fa.finalStates, state.name) {
          dfa.fa.AddFinalState(x);
        }
      }
    }

    /**
     * The first part of convert_to_dfa after epsilon elimination: the copy s0 of the initial
     * state start becomes the DFA's first and initial state, final when start is; start is
     * handled and s0 gets its transitions.
     */
    method StartDfa(dfa: PyDfa.DFA, phi: State<string>) returns (s0: State<string>, ghost start: State<string>, ghost frame: set<object>)
      requires nfa.fa.initialState.Some? && dfa.fa != nfa.fa && dfa.fa.states == [] && dfa.fa.finalStates == {}
      requires phi.name == PHI && phi.transitions == [] && handled == {}
      modifies this, nfa.fa, dfa.fa
      ensures Building(dfa, phi, s0, start, nfa.fa.alphabets, frame)
      ensures start == old(nfa.fa.initialState.value) && start in handled
      ensures nfa == old(nfa) && nfa.fa.alphabets == old(nfa.fa.alphabets) && dfa.fa.alphabets == old(dfa.fa.alphabets)
    {
      var st := nfa.fa.initialState.value;
      start := st;
      s0 := new State(st.name);
      SeedDfa(dfa, st, s0);
      handled := handled + {st};
      ghost var order, targets := FillRow(s0, st, phi);
      frame := RowFrame(s0);
      StartBuilding(dfa, phi, s0, start, frame);
    }

    /** The initial state's copy x becomes the DFA's only state, its initial state, and final when state is. */
    method SeedDfa(dfa: PyDfa.DFA, state: State<string>, x: State<string>)
      requires dfa.fa != nfa.fa && dfa.fa.states == [] && dfa.fa.finalStates == {}
      modifies dfa.fa
      ensures dfa.fa.states == [x] && dfa.fa.initialState == Some(x)
      ensures dfa.fa.finalStates == if state in nfa.fa.finalStates then {x} else {}
      ensures dfa.fa.alphabets == old(dfa.fa.alphabets)
    {
      dfa.fa.AddState(x);
      dfa.fa.SetInitialState(Some(x));
      if state in nfa.fa.finalStates {
        dfa.fa.AddFinalState(x);
      }
    }

    /** Building holds once the initial state is handled and its copy s0 has its row. */
    lemma StartBuilding(dfa: PyDfa.DFA, phi: State<string>, s0: State<string>, start: State<string>, frame: set<object>)
      requires nfa.fa.initialState == Some(start) && nfa.fa != dfa.fa && frame == RowFrame(s0)
      requires phi.name == PHI && phi.transitions == [] && s0 != phi && s0.name == start.name
      requires dfa.fa.states == [s0] && dfa.fa.initialState == Some(s0)
      requires dfa.fa.finalStates == if start in nfa.fa.finalStates then {s0} else {}
      requires handled == {start}
      requires DfaRow(s0, phi, nfa.fa.alphabets, PoolNames(handled + unhandled), phiStateExist)
      ensures Building(dfa, phi, s0, start, nfa.fa.alphabets, frame)
    {
      assert Others(dfa.fa.states, phi) == {} + {s0};
      BuiltAdd({}, {}, s0, phi, nfa.fa.alphabets, PoolNames(handled + unhandled), phiStateExist);
      assert handled * nfa.fa.finalStates == if start in nfa.fa.finalStates then {start} else {};
      assert s0 in (set y | y in dfa.fa.states);
    }

    /**
     * convert_to_dfa after epsilon elimination, with at most fuel rounds of the worklist loop:
     * the copy of the initial state, the copies of the pending states as they are handled, and
     * the dead state with its self-loops when some lookup found no target.
     */
    method BuildDfa(dfa: PyDfa.DFA, phi: State<string>, fuel: nat) returns (done: bool)
      requires nfa.fa.initialState.Some? && dfa.fa != nfa.fa && dfa.fa.states == [] && dfa.fa.finalStates == {}
      requires phi.name == PHI && phi.transitions == [] && handled == {}
      modifies this, nfa.fa, dfa.fa, phi
      ensures nfa == old(nfa) && nfa.fa.alphabets == old(nfa.fa.alphabets) && nfa.fa.initialState == old(nfa.fa.initialState)
      ensures done <==> unhandled == {}
      ensures |dfa.fa.states| > 0 && dfa.fa.initialState == Some(dfa.fa.states[0])
      ensures dfa.fa.states[0].name == nfa.fa.initialState.value.name
      ensures dfa.fa.states[0] in dfa.fa.finalStates <==> nfa.fa.initialState.value in nfa.fa.finalStates
      ensures forall x :: x in dfa.fa.states && x != phi ==> OneEach(x.transitions, nfa.fa.alphabets)
      ensures done ==> forall x, j :: x in dfa.fa.states && x != phi && 0 <= j < |x.transitions| ==>
        HasName(dfa.fa.states, x.transitions[j].nextState.name)
      ensures phiStateExist ==> HasName(dfa.fa.states, PHI)
      ensures phiStateExist ==> forall a :: a in nfa.fa.alphabets && a != EPSILON ==> HasEdge(phi.transitions, a, phi)
      ensures dfa.fa.alphabets == old(dfa.fa.alphabets) + (if phiStateExist then nfa.fa.alphabets - {EPSILON} else {})
      ensures PoolNames(dfa.fa.finalStates) == PoolNames(handled * nfa.fa.finalStates)
    {
      var s0;
      ghost var start, frame;
      s0, start, frame := StartDfa(dfa, phi);
      frame := RunWorklist(dfa, phi, s0, start, frame, fuel);
      done := unhandled == {};
      ghost var states := dfa.fa.states;
      AddPhi(dfa, phi);
      Finish(dfa, phi, frame, states, nfa.fa.alphabets);
    }

    /** The worklist loop of convert_to_dfa, for at most fuel rounds. */
    method RunWorklist(dfa: PyDfa.DFA, phi: State<string>, s0: State<string>, ghost start: State<string>,
                       ghost frame: set<object>, fuel: nat) returns (ghost frame': set<object>)
      requires Building(dfa, phi, s0, start, nfa.fa.alphabets, frame)
      modifies this, nfa.fa, dfa.fa
      ensures Building(dfa, phi, s0, start, nfa.fa.alphabets, frame')
      ensures nfa == old(nfa) && nfa.fa.alphabets == old(nfa.fa.alphabets) && dfa.fa.alphabets == old(dfa.fa.alphabets)
    {
      ghost var alph := nfa.fa.alphabets;
      frame' := frame;
      var f := fuel;
      while unhandled != {} && f > 0
        invariant Building(dfa, phi, s0, start, alph, frame')
        invariant nfa == old(nfa) && dfa.fa.alphabets == old(dfa.fa.alphabets)
        decreases f
      {
        frame' := DfaStep(dfa, phi, s0, start, alph, frame');
        f := f - 1;
      }
    }

    /** The dead state, when some lookup found no target: it joins the DFA with a self-loop on every symbol but 'e'. */
    method AddPhi(dfa: PyDfa.DFA, phi: State<string>)
      modifies dfa.fa, phi
      ensures dfa.fa.states == if phiStateExist then (if HasName(old(dfa.fa.states), phi.name) then old(dfa.fa.states) else old(dfa.fa.states) + [phi]) else old(dfa.fa.states)
      ensures phiStateExist ==> forall a :: a in nfa.fa.alphabets && a != EPSILON ==> HasEdge(phi.transitions, a, phi)
      ensures dfa.fa.alphabets == old(dfa.fa.alphabets) + (if phiStateExist then nfa.fa.alphabets - {EPSILON} else {})
      ensures dfa.fa.initialState == old(dfa.fa.initialState) && dfa.fa.finalStates == old(dfa.fa.finalStates)
    {
      if phiStateExist {
        dfa.fa.AddState(phi);
        AddLoops(dfa, phi, nfa.fa.alphabets);
      }
    }

    /** The guarantees of BuildDfa, from Building before the dead state is added. */
    lemma Finish(dfa: PyDfa.DFA, phi: State<string>, frame: set<object>, states: seq<State<string>>, alph: set<string>)
      requires Built(frame, Others(states, phi), phi, alph, PoolNames(handled + unhandled), phiStateExist)
      requires PoolNames(handled) <= PoolNames(set y | y in states)
      requires dfa.fa.states == if phiStateExist then (if HasName(states, phi.name) then states else states + [phi]) else states
      requires phi.name == PHI
      ensures forall x :: x in dfa.fa.states && x != phi ==> OneEach(x.transitions, alph)
      ensures unhandled == {} ==> forall x, j :: x in dfa.fa.states && x != phi && 0 <= j < |x.transitions| ==>
        HasName(dfa.fa.states, x.transitions[j].nextState.name)
      ensures phiStateExist ==> HasName(dfa.fa.states, PHI)
    {
      assert Others(dfa.fa.states, phi) == Others(states, phi);
      if phiStateExist {
        ListNames(dfa.fa.states, phi.name);
        if !HasName(states, phi.name) {
          assert dfa.fa.states[|states|] == phi;
        }
      }
      forall x, j | x in dfa.fa.states && x != phi && 0 <= j < |x.transitions| && unhandled == {}
        ensures HasName(dfa.fa.states, x.transitions[j].nextState.name)
      {
        assert DfaRow(x, phi, alph, PoolNames(handled + unhandled), phiStateExist);
        var n := x.transitions[j].nextState.name;
        if n in PoolNames(handled) {
          ListNames(states, n);
          var i :| 0 <= i < |states| && states[i].name == n;
          assert dfa.fa.states[i] == states[i];
        } else {
          assert x.transitions[j].nextState == phi;
          ListNames(dfa.fa.states, phi.name);
        }
      }
    }

    /**
     * convert_to_dfa: a DFA whose alphabet is the NFA's, taken before epsilon elimination; an
     * NFA with epsilon moves is first replaced by convert_to_nfa's result; then the subset
     * construction of BuildDfa, run for at most fuel rounds.  A missing initial state raises
     * AttributeError, in convert_to_nfa or at the initial state's name.
     */
    method ConvertToDfa(fuel: nat, ghost U: set<State<string>>) returns (r: Result<PyDfa.DFA, Error>, done: bool, phi: State<string>)
      requires nfa.hasEpsilon ==> (forall x :: x in nfa.fa.states ==> x in U) && Closed(U)
      modifies this, nfa.fa
      ensures r.Failure? <==> old(nfa.fa.initialState).None?
      ensures r.Failure? ==> r.error == AttributeError
      ensures !old(nfa.hasEpsilon) ==> nfa == old(nfa)
      ensures r.Success? ==> fresh(r.value) && fresh(r.value.fa) && nfa.fa.initialState.Some?
      ensures r.Success? ==> (done <==> unhandled == {})
      ensures r.Success? ==> var dfa := r.value;
        && |dfa.fa.states| > 0 && dfa.fa.initialState == Some(dfa.fa.states[0])
        && dfa.fa.states[0].name == old(nfa.fa.initialState).value.name
        && (dfa.fa.states[0] in dfa.fa.finalStates <==> nfa.fa.initialState.value in nfa.fa.finalStates)
        && (forall x :: x in dfa.fa.states && x != phi ==> OneEach(x.transitions, nfa.fa.alphabets))
        && (done ==> forall x, j :: x in dfa.fa.states && x != phi && 0 <= j < |x.transitions| ==>
              HasName(dfa.fa.states, x.transitions[j].nextState.name))
        && (phiStateExist ==> HasName(dfa.fa.states, PHI))
        && (phiStateExist ==> forall a :: a in nfa.fa.alphabets && a != EPSILON ==> HasEdge(phi.transitions, a, phi))
        && dfa.fa.alphabets == old(nfa.fa.alphabets) + (if phiStateExist then nfa.fa.alphabets - {EPSILON} else {})
        && PoolNames(dfa.fa.finalStates) == PoolNames(handled * nfa.fa.finalStates)
    {
      handled := {};
      var dfa := new PyDfa.DFA();
      dfa.fa.SetAlphabets(nfa.fa.alphabets);
      phi := new State(PHI);
      var ok := EliminateEpsilon(U);
      if !ok || nfa.fa.initialState.None? {
        return Failure(AttributeError), false, phi;
      }
      done := BuildDfa(dfa, phi, fuel);
      r := Success(dfa);
    }

    /** The first loop of create_combined_state: whether some constituent is FINAL in the NFA. */
    method AnyFinal(next: seq<State<string>>) returns (isFinal: bool)
      ensures isFinal <==> exists k :: 0 <= k < |next| && nfa.GetStateType(next[k]) == Some(FINAL)
    {
      isFinal := false;
      var k := 0;
      while k < |next|
        invariant 0 <= k <= |next|
        invariant isFinal <==> exists j :: 0 <= j < k && nfa.GetStateType(next[j]) == Some(FINAL)
      {
        if nfa.GetStateType(next[k]) == Some(FINAL) {
          isFinal := true;
        }
        k := k + 1;
      }
    }

    /**
     * create_combined_state: the state named by the sorted, concatenated names of next.  A
     * handled, else a pending, state of that name is returned as it is; otherwise a new state
     * holding all the constituents' transitions is made pending, and final in the NFA when a
     * constituent is FINAL (an initial constituent does not count).
     */
    method CreateCombinedState(next: seq<State<string>>) returns (r: State<string>)
      modifies this, nfa.fa
      ensures nfa == old(nfa) && handled == old(handled) && transitionTable == old(transitionTable)
      ensures phiStateExist == old(phiStateExist)
      ensures nfa.fa.states == old(nfa.fa.states) && nfa.fa.alphabets == old(nfa.fa.alphabets)
      ensures nfa.fa.initialState == old(nfa.fa.initialState)
      ensures r.name == CombinedName(NamesOf(next))
      ensures Known(old(handled), r.name) ==>
        r in old(handled) && unhandled == old(unhandled) && nfa.fa.finalStates == old(nfa.fa.finalStates)
      ensures !Known(old(handled), r.name) && Known(old(unhandled), r.name) ==>
        r in old(unhandled) && unhandled == old(unhandled) && nfa.fa.finalStates == old(nfa.fa.finalStates)
      ensures !Known(old(handled), r.name) && !Known(old(unhandled), r.name) ==>
        && fresh(r)
        && unhandled == old(unhandled) + {r}
        && nfa.fa.finalStates - {r} == old(nfa.fa.finalStates)
        && (r in nfa.fa.finalStates <==> exists k :: 0 <= k < |next| && old(nfa.GetStateType(next[k])) == Some(FINAL))
        && Unites(r, next) && NoDuplicateEdges(r.transitions)
    {
      var name := CombinedName(NamesOf(next));
      var isFinal := AnyFinal(next);
      if Known(handled, name) {
        r :| r in handled && r.name == name;
        return;
      }
      if Known(unhandled, name) {
        r :| r in unhandled && r.name == name;
        return;
      }
      r := NewCombined(name, next, isFinal);
    }

    /** The last part of create_combined_state: a new state of that name, final when asked, holding next's transitions, made pending. */
    method NewCombined(name: string, next: seq<State<string>>, isFinal: bool) returns (r: State<string>)
      modifies this, nfa.fa
      ensures nfa == old(nfa) && handled == old(handled) && transitionTable == old(transitionTable)
      ensures phiStateExist == old(phiStateExist)
      ensures nfa.fa.states == old(nfa.fa.states) && nfa.fa.alphabets == old(nfa.fa.alphabets)
      ensures nfa.fa.initialState == old(nfa.fa.initialState)
      ensures fresh(r) && r.name == name && unhandled == old(unhandled) + {r}
      ensures nfa.fa.finalStates == old(nfa.fa.finalStates) + (if isFinal then {r} else {})
      ensures Unites(r, next) && NoDuplicateEdges(r.transitions)
    {
      r := new State(name);
      if isFinal {
        nfa.fa.AddFinalState(r);
      }
      Combine(r, next);
      unhandled := unhandled + {r};
    }
  }
}
