/**
 * The parts of the subset construction that automata_converter.py and AutomataConverter.java
 * share, for any symbol type: the pools of handled and pending states known by name, the
 * table cell or DFA target picked for the targets of a lookup (the dead state "?", the one
 * target, or a combined state), combined states that unite their constituents' transitions,
 * and the rows of DFA states built so far.
 */
module Subset {
  import opened Wrappers
  import opened Names
  import opened Graph

  /** The converter's name for the dead state. */
  const PHI: string := "?"

  /** Some member of the pool has name n. */
  predicate Known<A>(pool: set<State<A>>, n: string) {
    exists s :: s in pool && s.name == n
  }

  /**
   * What one cell of a row, or the target of a new transition, is for the targets T of a
   * lookup: the dead state when there are none, the one target itself, or a state named by
   * join applied to all their names (the combined-name rule of the converter).
   */
  predicate Entry<A>(e: State<A>, T: seq<State<A>>, dead: string -> bool, join: seq<string> -> string) {
    && (T == [] ==> dead(e.name))
    && (|T| == 1 ==> e == T[0])
    && (|T| > 1 ==> e.name == join(NamesOf(T)))
  }

  /** r's transitions are its constituents' transitions: each of theirs is matched, and each of r's is one of theirs. */
  ghost predicate Unites<A>(r: State<A>, parts: seq<State<A>>)
    reads *
  {
    && (forall k, i :: 0 <= k < |parts| && 0 <= i < |parts[k].transitions| ==>
          HasEdge(r.transitions, parts[k].transitions[i].alphabet, parts[k].transitions[i].nextState))
    && (forall t :: t in r.transitions ==> exists k :: 0 <= k < |parts| && t in parts[k].transitions)
  }

  lemma HasEdgeGrows<A>(ts: seq<Transition<A>>, more: seq<Transition<A>>, a: A, s: State<A>)
    requires HasEdge(ts, a, s)
    ensures HasEdge(ts + more, a, s)
  {
    var i :| 0 <= i < |ts| && ts[i].alphabet == a && ts[i].nextState == s;
    assert (ts + more)[i] == ts[i];
  }

  /** The inner loop of create_combined_state: every transition of part is offered to r in list order. */
  method Absorb<A>(r: State<A>, part: State<A>)
    requires r != part
    modifies r
    ensures forall i :: 0 <= i < |part.transitions| ==>
      HasEdge(r.transitions, part.transitions[i].alphabet, part.transitions[i].nextState)
    ensures |old(r.transitions)| <= |r.transitions| && r.transitions[..|old(r.transitions)|] == old(r.transitions)
    ensures forall t :: t in r.transitions ==> t in old(r.transitions) || t in part.transitions
    ensures old(NoDuplicateEdges(r.transitions)) ==> NoDuplicateEdges(r.transitions)
  {
    var i := 0;
    while i < |part.transitions|
      invariant 0 <= i <= |part.transitions|
      invariant forall j :: 0 <= j < i ==>
        HasEdge(r.transitions, part.transitions[j].alphabet, part.transitions[j].nextState)
      invariant |old(r.transitions)| <= |r.transitions| && r.transitions[..|old(r.transitions)|] == old(r.transitions)
      invariant forall t :: t in r.transitions ==> t in old(r.transitions) || t in part.transitions
      invariant old(NoDuplicateEdges(r.transitions)) ==> NoDuplicateEdges(r.transitions)
    {
      ghost var before := r.transitions;
      r.AddTransition(part.transitions[i]);
      forall j | 0 <= j < i
        ensures HasEdge(r.transitions, part.transitions[j].alphabet, part.transitions[j].nextState)
      {
        if r.transitions != before {
          HasEdgeGrows(before, [part.transitions[i]], part.transitions[j].alphabet, part.transitions[j].nextState);
        }
      }
      i := i + 1;
    }
  }

  /** The second loop of create_combined_state: the new state r takes every transition of every constituent. */
  method Combine<A>(r: State<A>, next: seq<State<A>>)
    requires r.transitions == [] && r !in next
    modifies r
    ensures Unites(r, next) && NoDuplicateEdges(r.transitions)
  {
    var k := 0;
    while k < |next|
      invariant 0 <= k <= |next|
      invariant forall j, i :: 0 <= j < k && 0 <= i < |next[j].transitions| ==>
        HasEdge(r.transitions, next[j].transitions[i].alphabet, next[j].transitions[i].nextState)
      invariant forall t :: t in r.transitions ==> exists j :: 0 <= j < k && t in next[j].transitions
      invariant NoDuplicateEdges(r.transitions)
    {
      ghost var before := r.transitions;
      Absorb(r, next[k]);
      forall j, i | 0 <= j < k && 0 <= i < |next[j].transitions|
        ensures HasEdge(r.transitions, next[j].transitions[i].alphabet, next[j].transitions[i].nextState)
      {
        assert r.transitions == before + r.transitions[|before|..];
        HasEdgeGrows(before, r.transitions[|before|..], next[j].transitions[i].alphabet, next[j].transitions[i].nextState);
      }
      k := k + 1;
    }
  }

  /** A transition list whose symbols are the distinct symbols of order, one each, in that order. */
  predicate OnePerSymbol<A>(ts: seq<Transition<A>>, order: seq<A>)
    reads ts
  {
    |ts| == |order| && Distinct(order) && forall j :: 0 <= j < |ts| ==> ts[j].alphabet == order[j]
  }

  /** In such a list each symbol of order has exactly the one target, and any other symbol none. */
  lemma {:induction false} OnePerSymbolTargets<A>(ts: seq<Transition<A>>, order: seq<A>, a: A)
    requires OnePerSymbol(ts, order)
    ensures a !in order ==> Targets(ts, a) == []
    ensures forall j :: 0 <= j < |order| && order[j] == a ==> Targets(ts, a) == [ts[j].nextState]
    decreases |ts|
  {
    if ts != [] {
      assert OnePerSymbol(ts[1..], order[1..]) by {
        forall j | 0 <= j < |ts[1..]| ensures ts[1..][j].alphabet == order[1..][j] {
          assert ts[1..][j] == ts[j + 1];
        }
      }
      OnePerSymbolTargets(ts[1..], order[1..], a);
      if a == order[0] {
        assert a !in order[1..] by {
          forall j | 0 <= j < |order[1..]| ensures order[1..][j] != a {
            assert order[1..][j] == order[j + 1];
          }
        }
      } else {
        forall j | 0 <= j < |order| && order[j] == a ensures Targets(ts, a) == [ts[j].nextState] {
          assert j > 0 && order[1..][j - 1] == a && ts[1..][j - 1] == ts[j];
        }
      }
    }
  }

  /** order lists, without repetition, the symbols of alph already taken; left holds the rest. */
  ghost predicate Enumerates<A>(order: seq<A>, left: set<A>, alph: set<A>) {
    && left <= alph && |order| + |left| == |alph| && Distinct(order)
    && (forall a :: a in order ==> a in alph && a !in left)
    && (forall a :: a in alph && a !in left ==> a in order)
  }

  lemma EnumeratesStep<A>(order: seq<A>, left: set<A>, alph: set<A>, a: A)
    requires Enumerates(order, left, alph) && a in left
    ensures Enumerates(order + [a], left - {a}, alph)
  {
  }

  lemma EnumeratesDone<A>(order: seq<A>, alph: set<A>)
    requires Enumerates(order, {}, alph)
    ensures Distinct(order) && |order| == |alph| && forall a :: a in order <==> a in alph
  {
  }

  /** The dead state's name. */
  predicate IsPhi(n: string) {
    n == PHI
  }

  /**
   * The cells of a table row against the targets looked up for each symbol: each cell is the
   * entry for its targets, a single target not yet handled by name is pending, and a combined
   * cell is handled or pending.
   */
  predicate Cells<A>(cells: seq<State<A>>, targets: seq<seq<State<A>>>, handled: set<State<A>>, unhandled: set<State<A>>,
                     join: seq<string> -> string) {
    && |cells| == |targets|
    && forall j :: 0 <= j < |targets| ==>
      && Entry(cells[j], targets[j], IsPhi, join)
      && (|targets[j]| == 1 && !Known(handled, targets[j][0].name) ==> targets[j][0] in unhandled)
      && (|targets[j]| > 1 ==> cells[j] in handled + unhandled)
  }

  /** Cells survives a growing pending pool and extends by one cell made for the next symbol. */
  lemma CellsAppend<A>(cells: seq<State<A>>, targets: seq<seq<State<A>>>, handled: set<State<A>>,
                    pending: set<State<A>>, unhandled: set<State<A>>, cell: State<A>, next: seq<State<A>>,
                       join: seq<string> -> string)
    requires Cells(cells, targets, handled, pending, join) && pending <= unhandled
    requires Entry(cell, next, IsPhi, join)
    requires |next| == 1 && !Known(handled, next[0].name) ==> next[0] in unhandled
    requires |next| > 1 ==> cell in handled + unhandled
    ensures Cells(cells + [cell], targets + [next], handled, unhandled, join)
  {
    var c, t := cells + [cell], targets + [next];
    forall j | 0 <= j < |t|
      ensures Entry(c[j], t[j], IsPhi, join)
      ensures |t[j]| == 1 && !Known(handled, t[j][0].name) ==> t[j][0] in unhandled
      ensures |t[j]| > 1 ==> c[j] in handled + unhandled
    {
      if j < |targets| {
        assert c[j] == cells[j] && t[j] == targets[j];
      }
    }
  }

  /** The names of the states in a pool. */
  function PoolNames<A>(pool: set<State<A>>): (r: set<string>)
    ensures forall n :: n in r <==> Known(pool, n)
  {
    set s | s in pool :: s.name
  }

  lemma PoolNamesGrow<A>(P: set<State<A>>, Q: set<State<A>>)
    requires P <= Q
    ensures PoolNames(P) <= PoolNames(Q)
  {
  }

  /** Every symbol of alph has exactly one transition in ts, and no other symbol has any. */
  predicate OneEach<A>(ts: seq<Transition<A>>, alph: set<A>)
    reads ts
  {
    && (forall a :: a in alph ==> |Targets(ts, a)| == 1)
    && (forall j :: 0 <= j < |ts| ==> ts[j].alphabet in alph)
  }

  /** A list with one transition per symbol of an enumeration of alph has one transition per symbol of alph. */
  lemma OnePerSymbolOneEach<A>(ts: seq<Transition<A>>, order: seq<A>, alph: set<A>)
    requires OnePerSymbol(ts, order) && forall a :: a in order <==> a in alph
    ensures OneEach(ts, alph)
  {
    forall a | a in alph
      ensures |Targets(ts, a)| == 1
    {
      var j :| 0 <= j < |order| && order[j] == a;
      OnePerSymbolTargets(ts, order, a);
    }
  }

  /**
   * x has one transition per symbol of order, to the target picked for the targets looked up
   * on that symbol; each leads to phi (once flag is set) or to a state whose name is in names.
   */
  predicate Filled<A>(x: State<A>, phi: State<A>, order: seq<A>, targets: seq<seq<State<A>>>,
                   names: set<string>, flag: bool, join: seq<string> -> string)
    reads x, x.transitions
  {
    FilledSeq(x.transitions, phi, order, targets, names, flag, join)
  }

  /** Filled, stated on the transition list itself. */
  predicate FilledSeq<A>(ts: seq<Transition<A>>, phi: State<A>, order: seq<A>, targets: seq<seq<State<A>>>,
                      names: set<string>, flag: bool, join: seq<string> -> string)
    reads ts
  {
    && OnePerSymbol(ts, order)
    && |targets| == |order|
    && (forall j :: 0 <= j < |order| ==>
          Entry(ts[j].nextState, targets[j], IsPhi, join) && (targets[j] == [] ==> ts[j].nextState == phi))
    && (forall j :: 0 <= j < |ts| ==> (ts[j].nextState == phi && flag) || ts[j].nextState.name in names)
  }

  /** Appending the transition t on a fresh symbol a, whose targets were next, keeps the list filled. */
  lemma FilledAppend<A>(ts: seq<Transition<A>>, t: Transition<A>, phi: State<A>, a: A, order: seq<A>,
                     targets: seq<seq<State<A>>>, next: seq<State<A>>, names: set<string>, flag: bool,
                     join: seq<string> -> string)
    requires FilledSeq(ts, phi, order, targets, names, flag, join) && a !in order && t.alphabet == a
    requires Entry(t.nextState, next, IsPhi, join) && (next == [] ==> t.nextState == phi)
    requires (t.nextState == phi && flag) || t.nextState.name in names
    ensures FilledSeq(ts + [t], phi, order + [a], targets + [next], names, flag, join)
  {
    var ts', order', targets' := ts + [t], order + [a], targets + [next];
    forall j | 0 <= j < |order'|
      ensures ts'[j].alphabet == order'[j]
      ensures Entry(ts'[j].nextState, targets'[j], IsPhi, join)
      ensures targets'[j] == [] ==> ts'[j].nextState == phi
      ensures (ts'[j].nextState == phi && flag) || ts'[j].nextState.name in names
    {
      if j < |order| {
        assert targets'[j] == targets[j] && ts'[j] == ts[j] && order'[j] == order[j];
      }
    }
  }

  lemma FilledGrows<A>(x: State<A>, phi: State<A>, order: seq<A>, targets: seq<seq<State<A>>>,
                    names: set<string>, flag: bool, names': set<string>, flag': bool, join: seq<string> -> string)
    requires Filled(x, phi, order, targets, names, flag, join) && names <= names' && (flag ==> flag')
    ensures Filled(x, phi, order, targets, names', flag', join)
  {
  }

  /** The add_transition of the alphabet loop: a new edge on a symbol x has no edge for yet is appended. */
  method AppendEdge<A>(x: State<A>, phi: State<A>, a: A, target: State<A>,
                    ghost order: seq<A>, ghost targets: seq<seq<State<A>>>, ghost next: seq<State<A>>,
                    ghost names: set<string>, ghost flag: bool, ghost join: seq<string> -> string)
    requires Filled(x, phi, order, targets, names, flag, join) && a !in order
    requires Entry(target, next, IsPhi, join) && (next == [] ==> target == phi)
    requires (target == phi && flag) || target.name in names
    modifies x
    ensures Filled(x, phi, order + [a], targets + [next], names, flag, join)
  {
    var t := new Transition(a, target);
    ghost var before := x.transitions;
    assert FilledSeq(before, phi, order, targets, names, flag, join);
    assert !HasEdge(before, a, target);
    x.AddTransition(t);
    FilledAppend(before, t, phi, a, order, targets, next, names, flag, join);
  }

  /**
   * A state convert_to_dfa has built: one transition per symbol of alph, each leading to the
   * dead state phi (once the flag says it exists) or to a state whose name is in names.
   */
  predicate DfaRow<A>(x: State<A>, phi: State<A>, alph: set<A>, names: set<string>, flag: bool)
    reads x, x.transitions
  {
    && OneEach(x.transitions, alph)
    && forall j :: 0 <= j < |x.transitions| ==>
         (x.transitions[j].nextState == phi && flag) || x.transitions[j].nextState.name in names
  }

  /**
   * Every state of B is such a built state; frame holds the states of B and their
   * transitions, the objects this depends on.
   */
  ghost predicate Built<A>(frame: set<object>, B: set<State<A>>, phi: State<A>, alph: set<A>, names: set<string>, flag: bool)
    reads frame
  {
    forall x :: x in B ==>
      && x in frame && (forall j :: 0 <= j < |x.transitions| ==> x.transitions[j] in frame)
      && DfaRow(x, phi, alph, names, flag)
  }

  /** More names and a set flag keep a built row built. */
  lemma DfaRowGrows<A>(x: State<A>, phi: State<A>, alph: set<A>, names: set<string>, flag: bool, names': set<string>, flag': bool)
    requires DfaRow(x, phi, alph, names, flag) && names <= names' && (flag ==> flag')
    ensures DfaRow(x, phi, alph, names', flag')
  {}

  /** More names and a set flag keep every built state built. */
  lemma BuiltGrows<A>(frame: set<object>, B: set<State<A>>, phi: State<A>, alph: set<A>, names: set<string>, flag: bool,
                   names': set<string>, flag': bool)
    requires Built(frame, B, phi, alph, names, flag) && names <= names' && (flag ==> flag')
    ensures Built(frame, B, phi, alph, names', flag')
  {
    forall x | x in B
      ensures DfaRow(x, phi, alph, names', flag')
    {
      assert DfaRow(x, phi, alph, names, flag);
    }
  }

  /** The states of a list other than phi. */
  function Others<A>(states: seq<State<A>>, phi: State<A>): (r: set<State<A>>)
    ensures forall x :: x in r ==> x in states && x != phi
    ensures forall i :: 0 <= i < |states| && states[i] != phi ==> states[i] in r
  {
    set x | x in states && x != phi
  }

  /** A built state added to B, with its transitions added to the frame, keeps every state of B built. */
  lemma BuiltAdd<A>(frame: set<object>, B: set<State<A>>, x: State<A>, phi: State<A>, alph: set<A>,
                 names: set<string>, flag: bool)
    requires Built(frame, B, phi, alph, names, flag) && DfaRow(x, phi, alph, names, flag)
    ensures Built(frame + RowFrame(x), B + {x}, phi, alph, names, flag)
  {
  }

  /** A state and its transitions. */
  ghost function RowFrame<A>(x: State<A>): set<object>
    reads x
  {
    {x} + set j | 0 <= j < |x.transitions| :: x.transitions[j] as object
  }

  /**
   * The final names after a worklist round: state is handled, the DFA finals D gain its copy x
   * when state is final and no final has its name; new NFA finals are not handled.
   */
  lemma FinalNamesStep<A>(H: set<State<A>>, F: set<State<A>>, F': set<State<A>>,
                       D: set<State<A>>, D': set<State<A>>, state: State<A>, x: State<A>)
    requires PoolNames(D) == PoolNames(H * F)
    requires F <= F' && forall f :: f in F' && f !in F ==> f !in H && f != state
    requires x.name == state.name
    requires D' == if state in F && !Known(D, x.name) then D + {x} else D
    ensures PoolNames(D') == PoolNames((H + {state}) * F')
  {
    assert (H + {state}) * F' == H * F + (if state in F then {state} else {});
    PoolNamesUnion(H * F, if state in F then {state} else {});
    PoolNamesUnion(D, {x});
  }

  lemma PoolNamesUnion<A>(P: set<State<A>>, Q: set<State<A>>)
    ensures PoolNames(P + Q) == PoolNames(P) + PoolNames(Q)
  {
  }

  /** The names of a list of states, as a set. */
  lemma ListNames<A>(states: seq<State<A>>, n: string)
    ensures n in PoolNames(set x | x in states) <==> HasName(states, n)
  {
    if HasName(states, n) {
      var i :| 0 <= i < |states| && states[i].name == n;
      assert states[i] in (set x | x in states);
    }
  }

  /** One row of the transition table: the state it is for (None for a missing initial state), then one cell per symbol. */
  datatype TableRow<A> = TableRow(head: Option<State<A>>, cells: seq<State<A>>)
}
