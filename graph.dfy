/**
 * The mutable state graph shared by both code bases: a named State owns a list of
 * Transitions, and a Transition holds a symbol and a (mutable) target.  The symbol
 * type A is a one-character string in the Python package and a char in the Java port.
 * State identity is object identity, as neither language overrides equality.
 */
module Graph {
  import opened Wrappers
  import opened Names

  /** The exceptions the modelled code can raise. */
  datatype Error =
    | AttributeError   // a method looked up on None, or one a class does not define
    | TypeError        // a bool attribute called as a method
    | IndexError       // a list read past its end
    | NullPointer      // Java: a method called on null

  /** The kinds get_state_type reports. */
  datatype StateType = INITIAL | FINAL

  /**
   * get_state_type / getStateType: INITIAL for the initial state (even when it is also final),
   * else FINAL for a final state, else nothing (None / null).
   */
  function StateTypeOf<T(==)>(initial: Option<T>, finals: set<T>, s: T): (r: Option<StateType>)
    ensures r == Some(INITIAL) <==> initial == Some(s)
    ensures r == Some(FINAL) <==> initial != Some(s) && s in finals
    ensures r == None <==> initial != Some(s) && s !in finals
  {
    if initial == Some(s) then Some(INITIAL)
    else if s in finals then Some(FINAL)
    else None
  }

  class Transition<A(==)> {
    const alphabet: A
    var nextState: State<A>

    constructor(alphabet: A, nextState: State<A>)
      ensures this.alphabet == alphabet && this.nextState == nextState
    {
      this.alphabet := alphabet;
      this.nextState := nextState;
    }

    /** Redirects the edge; the symbol is a constant and stays. */
    method SetNextState(next: State<A>)
      modifies this
      ensures nextState == next
    {
      nextState := next;
    }
  }

  class State<A(==)> {
    const name: string
    var transitions: seq<Transition<A>>

    constructor(name: string)
      ensures this.name == name && transitions == []
    {
      this.name := name;
      transitions := [];
    }

    /** Some stored transition has the same symbol and the same target object as t. */
    predicate IsTransitionExist(t: Transition<A>)
      reads this, transitions, t
    {
      HasEdge(transitions, t.alphabet, t.nextState)
    }

    /** Appends t unless an equal (symbol, target) edge is already stored. */
    method AddTransition(t: Transition<A>)
      modifies this
      ensures old(IsTransitionExist(t)) ==> transitions == old(transitions)
      ensures !old(IsTransitionExist(t)) ==> transitions == old(transitions) + [t]
      ensures old(NoDuplicateEdges(transitions)) ==> NoDuplicateEdges(transitions)
      ensures HasEdge(transitions, t.alphabet, t.nextState)
    {
      if !IsTransitionExist(t) {
        ghost var before := transitions;
        transitions := transitions + [t];
        assert forall i :: 0 <= i < |before| ==> transitions[i] == before[i];
        assert transitions[|before|] == t;
      }
    }
  }

  /** The names of a list of states, in order (a name is fixed when the state is made). */
  function NamesOf<A>(states: seq<State<A>>): (r: seq<string>)
    ensures |r| == |states|
    ensures forall i :: 0 <= i < |states| ==> r[i] == states[i].name
  {
    if states == [] then [] else [states[0].name] + NamesOf(states[1..])
  }

  /** No two states of the list share a name. */
  predicate NamesUnique<A>(states: seq<State<A>>) {
    forall i, j :: 0 <= i < j < |states| ==> states[i].name != states[j].name
  }

  /** Some state of the list has name n. */
  predicate HasName<A>(states: seq<State<A>>, n: string) {
    exists i :: 0 <= i < |states| && states[i].name == n
  }

  /** get_state_by_name / getStateByName: the first state of the list with that name, or None (null). */
  function FirstNamed<A>(states: seq<State<A>>, n: string): (r: Option<State<A>>)
    ensures r.None? <==> !HasName(states, n)
    ensures r.Some? ==> exists i :: (0 <= i < |states| && states[i] == r.value && r.value.name == n
      && forall k :: 0 <= k < i ==> states[k].name != n)
    decreases |states|
  {
    if states == [] then None
    else if states[0].name == n then Some(states[0])
    else
      var r := FirstNamed(states[1..], n);
      assert HasName(states, n) ==> HasName(states[1..], n) by {
        if HasName(states, n) {
          var i :| 0 <= i < |states| && states[i].name == n;
          assert states[1..][i - 1].name == n;
        }
      }
      assert r.Some? ==> exists i :: (0 <= i < |states| && states[i] == r.value && r.value.name == n
        && forall k :: 0 <= k < i ==> states[k].name != n) by {
        if r.Some? {
          var i :| 0 <= i < |states[1..]| && states[1..][i] == r.value && r.value.name == n
            && forall k :: 0 <= k < i ==> states[1..][k].name != n;
          assert states[i + 1] == r.value;
          assert forall k :: 0 <= k < i + 1 ==> states[k].name != n by {
            forall k | 0 <= k < i + 1 ensures states[k].name != n {
              if k > 0 {
                assert states[k] == states[1..][k - 1];
              }
            }
          }
        }
      }
      r
  }

  /** Some transition in ts goes on symbol a to s. */
  predicate HasEdge<A(==)>(ts: seq<Transition<A>>, a: A, s: State<A>)
    reads ts
  {
    exists i :: 0 <= i < |ts| && ts[i].alphabet == a && ts[i].nextState == s
  }

  /** No two transitions share both symbol and target: what State.add_transition maintains. */
  predicate NoDuplicateEdges<A(==)>(ts: seq<Transition<A>>)
    reads ts
  {
    forall i, j :: 0 <= i < j < |ts| ==>
      !(ts[i].alphabet == ts[j].alphabet && ts[i].nextState == ts[j].nextState)
  }

  /** The targets of the transitions on symbol a, in list order. */
  function Targets<A(==)>(ts: seq<Transition<A>>, a: A): (r: seq<State<A>>)
    reads ts
    ensures |r| <= |ts|
  {
    if ts == [] then []
    else (if ts[0].alphabet == a then [ts[0].nextState] else []) + Targets(ts[1..], a)
  }

  /** The target of the first transition on symbol a, or None. */
  function FirstTarget<A(==)>(ts: seq<Transition<A>>, a: A): (r: Option<State<A>>)
    reads ts
    ensures r.None? <==> Targets(ts, a) == []
    ensures r.Some? ==> r.value == Targets(ts, a)[0] && HasEdge(ts, a, r.value)
  {
    if ts == [] then None
    else if ts[0].alphabet == a then Some(ts[0].nextState)
    else
      var r := FirstTarget(ts[1..], a);
      assert r.Some? ==> HasEdge(ts, a, r.value) by {
        if r.Some? {
          var i :| 0 <= i < |ts[1..]| && ts[1..][i].alphabet == a && ts[1..][i].nextState == r.value;
          assert ts[i + 1].alphabet == a && ts[i + 1].nextState == r.value;
        }
      }
      r
  }

  /** FirstTarget is the target of the earliest transition on a; None when no transition has symbol a. */
  lemma {:induction false} FirstTargetIsFirst<A>(ts: seq<Transition<A>>, a: A)
    ensures FirstTarget(ts, a).None? <==> forall i :: 0 <= i < |ts| ==> ts[i].alphabet != a
    ensures FirstTarget(ts, a).Some? ==> exists i :: (0 <= i < |ts| && ts[i].alphabet == a &&
      ts[i].nextState == FirstTarget(ts, a).value && forall j :: 0 <= j < i ==> ts[j].alphabet != a)
    decreases |ts|
  {
    if ts != [] && ts[0].alphabet != a {
      FirstTargetIsFirst(ts[1..], a);
      if FirstTarget(ts, a).Some? {
        var i :| 0 <= i < |ts[1..]| && ts[1..][i].alphabet == a &&
          ts[1..][i].nextState == FirstTarget(ts, a).value && forall j :: 0 <= j < i ==> ts[1..][j].alphabet != a;
        assert forall j :: 0 <= j < i + 1 ==> ts[j].alphabet != a by {
          forall j | 0 <= j < i + 1 ensures ts[j].alphabet != a {
            if j > 0 { assert ts[j] == ts[1..][j - 1]; }
          }
        }
        assert ts[i + 1] == ts[1..][i];
      } else {
        forall i | 0 <= i < |ts| ensures ts[i].alphabet != a {
          if i > 0 { assert ts[i] == ts[1..][i - 1]; }
        }
      }
    }
  }

  lemma {:induction false} TargetsMember<A>(ts: seq<Transition<A>>, a: A, s: State<A>)
    ensures s in Targets(ts, a) <==> HasEdge(ts, a, s)
    decreases |ts|
  {
    if ts != [] {
      TargetsMember(ts[1..], a, s);
      if HasEdge(ts[1..], a, s) {
        var i :| 0 <= i < |ts[1..]| && ts[1..][i].alphabet == a && ts[1..][i].nextState == s;
        assert ts[i + 1] == ts[1..][i];
      }
      if HasEdge(ts, a, s) {
        var i :| 0 <= i < |ts| && ts[i].alphabet == a && ts[i].nextState == s;
        if i > 0 {
          assert ts[1..][i - 1] == ts[i];
        }
      }
    }
  }

  lemma {:induction false} TargetsAppend<A>(ts: seq<Transition<A>>, t: Transition<A>, a: A)
    ensures Targets(ts + [t], a) == Targets(ts, a) + (if t.alphabet == a then [t.nextState] else [])
    decreases |ts|
  {
    if ts != [] {
      assert (ts + [t])[1..] == ts[1..] + [t];
      TargetsAppend(ts[1..], t, a);
    }
  }

  /** Duplicate-free edges give duplicate-free targets per symbol. */
  lemma {:induction false} TargetsDistinct<A>(ts: seq<Transition<A>>, a: A)
    requires NoDuplicateEdges(ts)
    ensures Distinct(Targets(ts, a))
    decreases |ts|
  {
    if ts != [] {
      TargetsDistinct(ts[1..], a);
      if ts[0].alphabet == a {
        forall i | 0 <= i < |ts[1..]|
          ensures !(ts[1..][i].alphabet == a && ts[1..][i].nextState == ts[0].nextState)
        {
          assert ts[1..][i] == ts[i + 1];
        }
        TargetsMember(ts[1..], a, ts[0].nextState);
      }
    }
  }

  /** The (symbol, target name) pairs of a transition list. */
  function EdgeNames<A>(ts: seq<Transition<A>>): set<(A, string)>
    reads ts
  {
    set i | 0 <= i < |ts| :: (ts[i].alphabet, ts[i].nextState.name)
  }

  lemma EdgeNamesAppend<A>(ts: seq<Transition<A>>, t: Transition<A>)
    ensures EdgeNames(ts + [t]) == EdgeNames(ts) + {(t.alphabet, t.nextState.name)}
  {
    var r := ts + [t];
    assert r[|ts|] == t;
    forall e | e in EdgeNames(ts) ensures e in EdgeNames(r) {
      var i :| 0 <= i < |ts| && e == (ts[i].alphabet, ts[i].nextState.name);
      assert r[i] == ts[i];
    }
    forall e | e in EdgeNames(r) ensures e in EdgeNames(ts) + {(t.alphabet, t.nextState.name)} {
      var i :| 0 <= i < |r| && e == (r[i].alphabet, r[i].nextState.name);
      if i < |ts| {
        assert r[i] == ts[i];
      }
    }
  }

  lemma EdgeNamesHas<A>(ts: seq<Transition<A>>, a: A, s: State<A>)
    requires HasEdge(ts, a, s)
    ensures (a, s.name) in EdgeNames(ts)
  {
    var i :| 0 <= i < |ts| && ts[i].alphabet == a && ts[i].nextState == s;
    assert (ts[i].alphabet, ts[i].nextState.name) in EdgeNames(ts);
  }

  /** The objects a set of states and their transition lists occupy. */
  ghost function Frame<A>(U: set<State<A>>): set<object>
    reads U
  {
    U + set x: State<A>, i | x in U && 0 <= i < |x.transitions| :: x.transitions[i] as object
  }

  /** Every transition of a state in U leads to a state in U. */
  ghost predicate Closed<A>(U: set<State<A>>)
    reads Frame(U)
  {
    forall x, i :: x in U && 0 <= i < |x.transitions| ==> x.transitions[i].nextState in U
  }

  /** Every state in U keeps at most one edge per (symbol, target). */
  ghost predicate EdgesDistinct<A>(U: set<State<A>>)
    reads Frame(U)
  {
    forall x :: x in U ==> NoDuplicateEdges(x.transitions)
  }

  /** Python Transition.__str__: both branches produce "symbol -> target". */
  function TransitionText(t: Transition<string>): (r: string)
    reads t
    ensures r == t.alphabet + " -> " + t.nextState.name
  {
    if t.alphabet == "e" then "e -> " + t.nextState.name
    else t.alphabet + " -> " + t.nextState.name
  }

  /**
   * Following the first transition on each symbol in turn, from q.  Reaching None with
   * symbols still to read raises (AttributeError in Python, a NullPointerException in Java).
   */
  function Walk<A(==)>(q: Option<State<A>>, syms: seq<A>, fault: Error): (r: Result<Option<State<A>>, Error>)
    reads *
    decreases |syms|
  {
    if syms == [] then Success(q)
    else if q.None? then Failure(fault)
    else Walk(FirstTarget(q.value.transitions, syms[0]), syms[1..], fault)
  }

  /** Continues a walk from where a previous one stopped; a fault stays a fault. */
  function Resume<A(==)>(w: Result<Option<State<A>>, Error>, syms: seq<A>, fault: Error): Result<Option<State<A>>, Error>
    reads *
  {
    if w.Failure? then w else Walk(w.value, syms, fault)
  }

  /** Walking s then t is walking s + t; a fault in s stops the walk. */
  lemma {:induction false} WalkConcat<A>(q: Option<State<A>>, s: seq<A>, t: seq<A>, fault: Error)
    ensures Walk(q, s + t, fault) == Resume(Walk(q, s, fault), t, fault)
    decreases |s|
  {
    if s == [] {
      assert s + t == t;
    } else {
      assert (s + t)[0] == s[0] && (s + t)[1..] == s[1..] + t;
      if q.Some? {
        var next := FirstTarget(q.value.transitions, s[0]);
        WalkConcat(next, s[1..], t, fault);
      }
    }
  }

  /** Acceptance: the walk ends on a state in finals; None is never final. */
  function Accepts<A(==)>(q: Option<State<A>>, syms: seq<A>, finals: set<State<A>>, fault: Error): (r: Result<bool, Error>)
    reads *
    ensures syms == [] ==> r == Success(q.Some? && q.value in finals)
    ensures r.Failure? <==> Walk(q, syms, fault).Failure?
  {
    match Walk(q, syms, fault)
    case Failure(e) => Failure(e)
    case Success(p) => Success(p.Some? && p.value in finals)
  }
}
