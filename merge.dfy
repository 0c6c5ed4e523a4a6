/**
 * convert_minimization_to_DFA (automata/dfa.py:120-167) on a value view of the automaton:
 * index i stands for a state object, with name names[i] and transition list edges[i].  A
 * group of one keeps its state object; any other group becomes one new state named by its
 * members' names, whose transitions are its members' transitions, and a transition into a
 * merged member is redirected.
 *
 * As written, the redirect goes to the merged state holding the name of the state the
 * transition comes FROM (get_equivalent_state(str(state), ...)), so it always loops back;
 * and a kept single state with a transition into a merged member calls remove_transition,
 * which State does not define.  The intended quotient sends a class's transition to the class
 * of the target; QuotientRun proves that it then follows the original automaton.
 */
module Merge {
  import opened Wrappers
  import opened Names
  import opened Graph

  /** A state of the new automaton: an original state object, or the state made for group g. */
  datatype Node = Orig(i: nat) | Merged(g: nat)

  datatype Edge<T> = Edge(symbol: string, target: T)

  /** The automaton being converted, as values. */
  datatype Source = Source(names: seq<string>, edges: seq<seq<Edge<nat>>>, alphabet: set<string>, initial: Option<nat>, finals: set<nat>)

  /**
   * The new automaton: its state list, the transition lists of the merged states (an original
   * state keeps its own list), its alphabet, initial state and final states.
   */
  datatype Built = Built(states: seq<Node>, merged: map<nat, seq<Edge<Node>>>, alphabet: set<string>, initial: Option<Node>, finals: set<Node>)

  function Name(src: Source, x: nat): string {
    if x < |src.names| then src.names[x] else ""
  }

  function Out(src: Source, x: nat): seq<Edge<nat>> {
    if x < |src.edges| then src.edges[x] else []
  }

  /** get_state_type of the automaton being converted. */
  function Kind(src: Source, x: nat): Option<StateType> {
    StateTypeOf(src.initial, src.finals, x)
  }

  /** `map(str, group)`. */
  function GroupNames(src: Source, group: seq<nat>): (r: seq<string>)
    ensures |r| == |group| && forall k :: 0 <= k < |group| ==> r[k] == Name(src, group[k])
  {
    seq(|group|, k requires 0 <= k < |group| => Name(src, group[k]))
  }

  /** removed_states: the names of the members of the groups of two or more. */
  function Removed(src: Source, groups: seq<seq<nat>>): set<string> {
    set g, k | 0 <= g < |groups| && |groups[g]| > 1 && 0 <= k < |groups[g]| :: Name(src, groups[g][k])
  }

  /** The name of a state of the new automaton: a merged state joins its members' names. */
  function NodeName(src: Source, groups: seq<seq<nat>>, n: Node): string {
    match n
    case Orig(i) => Name(src, i)
    case Merged(g) => if g < |groups| then Concat(GroupNames(src, groups[g])) else ""
  }

  function MergedEdges(b: Built, g: nat): seq<Edge<Node>> {
    if g in b.merged then b.merged[g] else []
  }

  /** add_state: appended unless a state of the same name is listed. */
  function AddNode(src: Source, groups: seq<seq<nat>>, b: Built, n: Node): Built {
    if exists m :: m in b.states && NodeName(src, groups, m) == NodeName(src, groups, n) then b
    else b.(states := b.states + [n])
  }

  /** set_initial_state / add_final_state for n, as the member's state type asks. */
  function Mark(b: Built, kind: Option<StateType>, n: Node): Built {
    if kind == Some(INITIAL) then b.(initial := Some(n))
    else if kind == Some(FINAL) then b.(finals := b.finals + {n})
    else b
  }

  /** State.add_transition: appended unless the same symbol and target are listed. */
  function AddEdge(es: seq<Edge<Node>>, e: Edge<Node>): seq<Edge<Node>> {
    if e in es then es else es + [e]
  }

  /**
   * get_equivalent_state(name): the first merged state, in group order, whose group has a
   * member of that name; called while group i is processed, group i itself has it.
   */
  function Holder(src: Source, groups: seq<seq<nat>>, name: string, j: nat, i: nat): (r: nat)
    requires j <= i < |groups|
    ensures j <= r <= i
    ensures r < i ==> |groups[r]| > 1 && name in GroupNames(src, groups[r])
    ensures forall h :: j <= h < r ==> !(|groups[h]| > 1 && name in GroupNames(src, groups[h]))
    decreases i - j
  {
    if j == i then i
    else if |groups[j]| > 1 && name in GroupNames(src, groups[j]) then j
    else Holder(src, groups, name, j + 1, i)
  }

  /** Where the merged state of group i sends member m's transition t. */
  function Redirect(src: Source, groups: seq<seq<nat>>, removed: set<string>, i: nat, m: nat, t: Edge<nat>): Edge<Node>
    requires i < |groups|
  {
    if Name(src, t.target) in removed then Edge(t.symbol, Merged(Holder(src, groups, Name(src, m), 0, i)))
    else Edge(t.symbol, Orig(t.target))
  }

  /** The loop over member m's transitions from index k, adding them to the merged state's list es. */
  function MemberEdges(src: Source, groups: seq<seq<nat>>, removed: set<string>, i: nat, m: nat, k: nat, es: seq<Edge<Node>>)
    : seq<Edge<Node>>
    requires i < |groups|
    decreases |Out(src, m)| - k
  {
    if k >= |Out(src, m)| then es
    else MemberEdges(src, groups, removed, i, m, k + 1, AddEdge(es, Redirect(src, groups, removed, i, m, Out(src, m)[k])))
  }

  /** The loop over group i's members from index k: each marks the merged state and adds its transitions. */
  function MergeMembers(src: Source, groups: seq<seq<nat>>, removed: set<string>, i: nat, k: nat, b: Built): Built
    requires i < |groups|
    decreases |groups[i]| - k
  {
    if k >= |groups[i]| then b
    else
      var m := groups[i][k];
      var b1 := Mark(b, Kind(src, m), Merged(i));
      var es := MemberEdges(src, groups, removed, i, m, 0, MergedEdges(b1, i));
      MergeMembers(src, groups, removed, i, k + 1, b1.(merged := b1.merged[i := es]))
  }

  /** A kept single state fails when one of its transitions leads to a merged member. */
  predicate Crashes(src: Source, groups: seq<seq<nat>>, removed: set<string>, i: nat)
    requires i < |groups|
  {
    && |groups[i]| == 1
    && Name(src, groups[i][0]) !in removed
    && exists k :: 0 <= k < |Out(src, groups[i][0])| && Name(src, Out(src, groups[i][0])[k].target) in removed
  }

  /** One group of the outer loop. */
  function GroupOut(src: Source, groups: seq<seq<nat>>, removed: set<string>, i: nat, b: Built): Result<Built, Error>
    requires i < |groups|
  {
    if |groups[i]| == 1 then
      var x := groups[i][0];
      if Name(src, x) in removed then Success(b)
      else if Crashes(src, groups, removed, i) then Failure(AttributeError)
      else Success(Mark(AddNode(src, groups, b, Orig(x)), Kind(src, x), Orig(x)))
    else
      Success(AddNode(src, groups, MergeMembers(src, groups, removed, i, 0, b), Merged(i)))
  }

  function ConvertFrom(src: Source, groups: seq<seq<nat>>, removed: set<string>, i: nat, b: Built): Result<Built, Error>
    decreases |groups| - i
  {
    if i >= |groups| then Success(b)
    else
      match GroupOut(src, groups, removed, i, b)
      case Failure(e) => Failure(e)
      case Success(b1) => ConvertFrom(src, groups, removed, i + 1, b1)
  }

  /** convert_minimization_to_DFA as written; the new automaton starts with the old alphabet. */
  function ConvertAsWritten(src: Source, groups: seq<seq<nat>>): Result<Built, Error> {
    ConvertFrom(src, groups, Removed(src, groups), 0, Built([], map[], src.alphabet, None, {}))
  }
  /** The conversion fails, always with AttributeError, exactly when some kept single state crashes. */
  lemma {:induction false} ConvertFromFails(src: Source, groups: seq<seq<nat>>, removed: set<string>, i: nat, b: Built)
    ensures ConvertFrom(src, groups, removed, i, b).Failure? <==>
      exists j :: i <= j < |groups| && Crashes(src, groups, removed, j)
    ensures ConvertFrom(src, groups, removed, i, b).Failure? ==> ConvertFrom(src, groups, removed, i, b).error == AttributeError
    decreases |groups| - i
  {
    if i < |groups| {
      var r := GroupOut(src, groups, removed, i, b);
      assert r.Failure? <==> Crashes(src, groups, removed, i);
      if r.Success? {
        ConvertFromFails(src, groups, removed, i + 1, r.value);
      }
    }
  }

  lemma ConvertFails(src: Source, groups: seq<seq<nat>>)
    ensures ConvertAsWritten(src, groups).Failure? <==>
      exists j :: 0 <= j < |groups| && Crashes(src, groups, Removed(src, groups), j)
    ensures ConvertAsWritten(src, groups).Failure? ==> ConvertAsWritten(src, groups).error == AttributeError
  {
    ConvertFromFails(src, groups, Removed(src, groups), 0, Built([], map[], src.alphabet, None, {}));
  }

  /** No name belongs to members of two different groups (a partition of uniquely named states). */
  predicate DisjointNames(src: Source, groups: seq<seq<nat>>) {
    forall g, h, k, l :: 0 <= g < h < |groups| && 0 <= k < |groups[g]| && 0 <= l < |groups[h]| ==>
      Name(src, groups[g][k]) != Name(src, groups[h][l])
  }

  /**
   * Every transition of a merged state into a merged state loops back to itself, and one into
   * an original state object leads to a state whose name was not removed.
   */
  ghost predicate LoopsBack(src: Source, removed: set<string>, b: Built) {
    forall g, e :: e in MergedEdges(b, g) ==> EdgeBack(src, removed, g, e)
  }

  predicate EdgeBack(src: Source, removed: set<string>, g: nat, e: Edge<Node>) {
    match e.target
    case Merged(h) => h == g
    case Orig(x) => Name(src, x) !in removed
  }

  lemma HolderIsOwn(src: Source, groups: seq<seq<nat>>, i: nat, m: nat)
    requires DisjointNames(src, groups) && i < |groups| && |groups[i]| > 1 && m in groups[i]
    ensures Holder(src, groups, Name(src, m), 0, i) == i
  {
    var r := Holder(src, groups, Name(src, m), 0, i);
    if r < i {
      assert false;
    }
  }

  lemma {:induction false} MemberEdgesLoop(src: Source, groups: seq<seq<nat>>, i: nat, m: nat, k: nat, es: seq<Edge<Node>>)
    requires DisjointNames(src, groups) && i < |groups| && |groups[i]| > 1 && m in groups[i]
    requires forall e :: e in es ==> EdgeBack(src, Removed(src, groups), i, e)
    ensures forall e :: e in MemberEdges(src, groups, Removed(src, groups), i, m, k, es) ==> EdgeBack(src, Removed(src, groups), i, e)
    decreases |Out(src, m)| - k
  {
    if k < |Out(src, m)| {
      HolderIsOwn(src, groups, i, m);
      var e := Redirect(src, groups, Removed(src, groups), i, m, Out(src, m)[k]);
      assert EdgeBack(src, Removed(src, groups), i, e);
      MemberEdgesLoop(src, groups, i, m, k + 1, AddEdge(es, e));
    }
  }

  lemma {:induction false} MergeMembersLoop(src: Source, groups: seq<seq<nat>>, i: nat, k: nat, b: Built)
    requires DisjointNames(src, groups) && i < |groups| && |groups[i]| != 1
    requires LoopsBack(src, Removed(src, groups), b)
    ensures LoopsBack(src, Removed(src, groups), MergeMembers(src, groups, Removed(src, groups), i, k, b))
    decreases |groups[i]| - k
  {
    if k < |groups[i]| {
      var m := groups[i][k];
      var b1 := Mark(b, Kind(src, m), Merged(i));
      assert MergedEdges(b1, i) == MergedEdges(b, i);
      MemberEdgesLoop(src, groups, i, m, 0, MergedEdges(b1, i));
      var b2 := b1.(merged := b1.merged[i := MemberEdges(src, groups, Removed(src, groups), i, m, 0, MergedEdges(b1, i))]);
      assert LoopsBack(src, Removed(src, groups), b2) by {
        forall g, e | e in MergedEdges(b2, g) ensures EdgeBack(src, Removed(src, groups), g, e) {
          if g != i {
            assert MergedEdges(b2, g) == MergedEdges(b, g);
          }
        }
      }
      MergeMembersLoop(src, groups, i, k + 1, b2);
    }
  }

  lemma {:induction false} ConvertFromLoops(src: Source, groups: seq<seq<nat>>, i: nat, b: Built)
    requires DisjointNames(src, groups) && LoopsBack(src, Removed(src, groups), b)
    requires ConvertFrom(src, groups, Removed(src, groups), i, b).Success?
    ensures LoopsBack(src, Removed(src, groups), ConvertFrom(src, groups, Removed(src, groups), i, b).value)
    decreases |groups| - i
  {
    if i < |groups| {
      var removed := Removed(src, groups);
      var b1 := GroupOut(src, groups, removed, i, b).value;
      if |groups[i]| == 1 {
        assert b1.merged == b.merged;
        assert forall g :: MergedEdges(b1, g) == MergedEdges(b, g);
      } else {
        MergeMembersLoop(src, groups, i, 0, b);
        var b2 := MergeMembers(src, groups, removed, i, 0, b);
        assert b1.merged == b2.merged;
        assert forall g :: MergedEdges(b1, g) == MergedEdges(b2, g);
      }
      ConvertFromLoops(src, groups, i + 1, b1);
    }
  }

  /**
   * The defect: on a partition of uniquely named states, every transition the conversion
   * redirects to a merged state goes back to the merged state it leaves (and the others keep
   * their target, whose name was not removed).
   */
  lemma AsWrittenLoopsBack(src: Source, groups: seq<seq<nat>>)
    requires DisjointNames(src, groups)
    requires ConvertAsWritten(src, groups).Success?
    ensures forall g, e :: e in MergedEdges(ConvertAsWritten(src, groups).value, g) ==>
      match e.target
      case Merged(h) => h == g
      case Orig(x) => Name(src, x) !in Removed(src, groups)
  {
    ConvertFromLoops(src, groups, 0, Built([], map[], src.alphabet, None, {}));
  }
  /** Some member of the group is final and not initial (get_state_type says FINAL). */
  predicate HasFinal(src: Source, group: seq<nat>) {
    exists k :: 0 <= k < |group| && Kind(src, group[k]) == Some(FINAL)
  }

  /** The state a group becomes: its own state object when it is a single state, else a merged one. */
  function NodeFor(groups: seq<seq<nat>>, j: nat): Node
    requires j < |groups|
  {
    if |groups[j]| == 1 then Orig(groups[j][0]) else Merged(j)
  }

  lemma {:induction false} MergeMembersMarks(src: Source, groups: seq<seq<nat>>, removed: set<string>, i: nat, k: nat, b: Built)
    requires i < |groups|
    ensures MergeMembers(src, groups, removed, i, k, b).finals ==
      b.finals + (if AnyKind(src, groups[i], k, Some(FINAL)) then {Merged(i)} else {})
    ensures MergeMembers(src, groups, removed, i, k, b).initial ==
      (if AnyKind(src, groups[i], k, Some(INITIAL)) then Some(Merged(i)) else b.initial)
    decreases |groups[i]| - k
  {
    if k < |groups[i]| {
      var m := groups[i][k];
      var b1 := Mark(b, Kind(src, m), Merged(i));
      var es := MemberEdges(src, groups, removed, i, m, 0, MergedEdges(b1, i));
      var b2 := b1.(merged := b1.merged[i := es]);
      assert MergeMembers(src, groups, removed, i, k, b) == MergeMembers(src, groups, removed, i, k + 1, b2);
      MergeMembersMarks(src, groups, removed, i, k + 1, b2);
      KindFrom(src, groups[i], k, Some(FINAL));
      KindFrom(src, groups[i], k, Some(INITIAL));
    }
  }

  /** Some member of g from the k-th on has that kind. */
  predicate AnyKind(src: Source, g: seq<nat>, k: nat, kind: Option<StateType>) {
    exists j :: k <= j < |g| && Kind(src, g[j]) == kind
  }

  /** Some member from the k-th on has the kind: the k-th, or one after it. */
  lemma KindFrom(src: Source, g: seq<nat>, k: nat, kind: Option<StateType>)
    requires k < |g|
    ensures AnyKind(src, g, k, kind) <==> Kind(src, g[k]) == kind || AnyKind(src, g, k + 1, kind)
  {
    if AnyKind(src, g, k, kind) {
      var j :| k <= j < |g| && Kind(src, g[j]) == kind;
      if j != k {
        assert k + 1 <= j;
      }
    }
  }

  /**
   * What the outer loop from group i does to the initial and final states: a merged state is
   * made final exactly when a member is FINAL; the initial state is left alone unless a later
   * group holds the initial state, and it is then that group's state.
   */
  lemma {:induction false} ConvertFromMarks(src: Source, groups: seq<seq<nat>>, removed: set<string>, i: nat, b: Built)
    requires ConvertFrom(src, groups, removed, i, b).Success?
    ensures forall g: nat :: Merged(g) in ConvertFrom(src, groups, removed, i, b).value.finals <==>
      Merged(g) in b.finals || (i <= g < |groups| && |groups[g]| != 1 && HasFinal(src, groups[g]))
    ensures (forall j :: i <= j < |groups| && src.initial.Some? ==> src.initial.value !in groups[j]) ==>
      ConvertFrom(src, groups, removed, i, b).value.initial == b.initial
    ensures forall x: nat :: Orig(x) in ConvertFrom(src, groups, removed, i, b).value.finals ==>
      Orig(x) in b.finals || exists j :: i <= j < |groups| && groups[j] == [x]
    ensures ConvertFrom(src, groups, removed, i, b).value.initial == b.initial ||
      exists j :: i <= j < |groups| && src.initial.Some? && src.initial.value in groups[j] &&
        ConvertFrom(src, groups, removed, i, b).value.initial == Some(NodeFor(groups, j))
    decreases |groups| - i
  {
    if i < |groups| {
      var b1 := GroupOut(src, groups, removed, i, b).value;
      ConvertFromMarks(src, groups, removed, i + 1, b1);
      if |groups[i]| == 1 {
        var x := groups[i][0];
        assert forall g: nat :: Merged(g) in b1.finals <==> Merged(g) in b.finals;
        assert forall y: nat :: Orig(y) in b1.finals ==> Orig(y) in b.finals || groups[i] == [y];
        assert b1.initial == b.initial || (b1.initial == Some(Orig(x)) && src.initial == Some(x));
      } else {
        MergeMembersMarks(src, groups, removed, i, 0, b);
        if HasFinal(src, groups[i]) {
          var k :| 0 <= k < |groups[i]| && Kind(src, groups[i][k]) == Some(FINAL);
        }
        if src.initial.Some? && src.initial.value in groups[i] {
          var k :| 0 <= k < |groups[i]| && groups[i][k] == src.initial.value;
          assert Kind(src, groups[i][k]) == Some(INITIAL);
        }
        assert forall g: nat :: Merged(g) in b1.finals <==> Merged(g) in b.finals || (g == i && HasFinal(src, groups[i]));
        assert forall y: nat :: Orig(y) in b1.finals ==> Orig(y) in b.finals;
        assert b1.initial == b.initial || (b1.initial == Some(Merged(i)) && src.initial.Some? && src.initial.value in groups[i]);
      }
    }
  }

  /**
   * The as-written conversion's initial and final states: a merged state is final exactly when
   * a member is FINAL; the initial state, when there is one, is the state of a group holding the
   * original initial state; and when exactly one group holds the original initial state, that
   * group's merged state is the initial state.
   */
  lemma AsWrittenMarks(src: Source, groups: seq<seq<nat>>)
    requires ConvertAsWritten(src, groups).Success?
    ensures forall g :: 0 <= g < |groups| ==>
      (Merged(g) in ConvertAsWritten(src, groups).value.finals <==> |groups[g]| != 1 && HasFinal(src, groups[g]))
    ensures forall x: nat :: Orig(x) in ConvertAsWritten(src, groups).value.finals ==> exists j :: 0 <= j < |groups| && groups[j] == [x]
    ensures ConvertAsWritten(src, groups).value.initial.Some? ==>
      exists j :: 0 <= j < |groups| && src.initial.Some? && src.initial.value in groups[j] &&
        ConvertAsWritten(src, groups).value.initial == Some(NodeFor(groups, j))
    ensures forall j :: (0 <= j < |groups| && |groups[j]| > 1 && src.initial.Some? && src.initial.value in groups[j] &&
      (forall h :: 0 <= h < |groups| && src.initial.value in groups[h] ==> h == j)) ==>
        ConvertAsWritten(src, groups).value.initial == Some(Merged(j))
  {
    var removed := Removed(src, groups);
    var b0 := Built([], map[], src.alphabet, None, {});
    ConvertFromMarks(src, groups, removed, 0, b0);
    forall j | 0 <= j < |groups| && |groups[j]| > 1 && src.initial.Some? && src.initial.value in groups[j] &&
      (forall h :: 0 <= h < |groups| && src.initial.value in groups[h] ==> h == j)
      ensures ConvertAsWritten(src, groups).value.initial == Some(Merged(j))
    {
      InitialFromGroup(src, groups, removed, 0, b0, j);
    }
  }

  lemma {:induction false} InitialFromGroup(src: Source, groups: seq<seq<nat>>, removed: set<string>, i: nat, b: Built, j: nat)
    requires i <= j < |groups| && |groups[j]| > 1 && src.initial.Some? && src.initial.value in groups[j]
    requires forall h :: 0 <= h < |groups| && src.initial.value in groups[h] ==> h == j
    requires ConvertFrom(src, groups, removed, i, b).Success?
    ensures ConvertFrom(src, groups, removed, i, b).value.initial == Some(Merged(j))
    decreases |groups| - i
  {
    var b1 := GroupOut(src, groups, removed, i, b).value;
    if i == j {
      MergeMembersMarks(src, groups, removed, i, 0, b);
      var k :| 0 <= k < |groups[i]| && groups[i][k] == src.initial.value;
      assert Kind(src, groups[i][k]) == Some(INITIAL);
      assert b1.initial == Some(Merged(j));
      ConvertFromMarks(src, groups, removed, i + 1, b1);
    } else {
      InitialFromGroup(src, groups, removed, i + 1, b1, j);
    }
  }
  /** The first transition on symbol a in a transition list, as get_next_state_for_symbol finds it. */
  function FirstEdge<T>(es: seq<Edge<T>>, a: string): (r: Option<T>)
    ensures r.Some? ==> Edge(a, r.value) in es
    ensures r.None? <==> forall e :: e in es ==> e.symbol != a
  {
    if es == [] then None
    else if es[0].symbol == a then Some(es[0].target)
    else FirstEdge(es[1..], a)
  }

  /** A step of the automaton being converted. */
  function Next(src: Source, x: nat, a: string): Option<nat> {
    FirstEdge(Out(src, x), a)
  }

  /** The state a word leads to in the automaton being converted; None once a step has none. */
  function Run(src: Source, q: Option<nat>, w: seq<string>): Option<nat>
    decreases |w|
  {
    if w == [] then q
    else if q.None? then None
    else Run(src, Next(src, q.value, w[0]), w[1..])
  }

  /** A step of the converted automaton: a kept state object keeps its own transitions. */
  function BuiltNext(src: Source, b: Built, n: Node, a: string): Option<Node> {
    match n
    case Orig(x) => if Next(src, x, a).Some? then Some(Orig(Next(src, x, a).value)) else None
    case Merged(g) => FirstEdge(MergedEdges(b, g), a)
  }

  function BuiltRun(src: Source, b: Built, q: Option<Node>, w: seq<string>): Option<Node>
    decreases |w|
  {
    if w == [] then q
    else if q.None? then None
    else BuiltRun(src, b, BuiltNext(src, b, q.value, w[0]), w[1..])
  }

  /** Four states A, B, C, D, each with one transition on "a": A to C, B to D, C to C, D to D. */
  function Example(): Source {
    Source(["A", "B", "C", "D"], [[Edge("a", 2)], [Edge("a", 3)], [Edge("a", 2)], [Edge("a", 3)]], {"a"}, Some(0), {2, 3})
  }

  /** The partition minimize returns for Example: {A, B} and {C, D}. */
  function ExampleGroups(): seq<seq<nat>> {
    [[0, 1], [2, 3]]
  }

  /**
   * When no group is a single state, a merged state that is initial and not final accepts no
   * word of one symbol in the as-written conversion: its transitions loop back to it.
   */
  lemma AsWrittenRejectsStep(src: Source, groups: seq<seq<nat>>, g: nat, a: string)
    requires DisjointNames(src, groups) && forall j :: 0 <= j < |groups| ==> |groups[j]| != 1
    requires ConvertAsWritten(src, groups).Success?
    requires Merged(g) !in ConvertAsWritten(src, groups).value.finals
    ensures var b := ConvertAsWritten(src, groups).value;
      BuiltRun(src, b, Some(Merged(g)), [a]).None? || BuiltRun(src, b, Some(Merged(g)), [a]).value !in b.finals
  {
    var b := ConvertAsWritten(src, groups).value;
    AsWrittenMarks(src, groups);
    AsWrittenLoopsBack(src, groups);
    var r := BuiltNext(src, b, Merged(g), a);
    assert BuiltRun(src, b, Some(Merged(g)), [a]) == r;
    if r.Some? {
      assert Edge(a, r.value) in MergedEdges(b, g);
    }
  }

  /**
   * When no group is a single state and one group of two or more holds the initial state, that
   * group's merged state is initial; when none of its members is FINAL it accepts no word of
   * one symbol.
   */
  lemma AsWrittenLosesStep(src: Source, groups: seq<seq<nat>>, g: nat, a: string)
    requires DisjointNames(src, groups) && forall j :: 0 <= j < |groups| ==> |groups[j]| != 1
    requires g < |groups| && src.initial.Some? && src.initial.value in groups[g]
    requires forall h :: 0 <= h < |groups| && src.initial.value in groups[h] ==> h == g
    requires !HasFinal(src, groups[g])
    ensures ConvertAsWritten(src, groups).Success?
    ensures var b := ConvertAsWritten(src, groups).value;
      && b.initial == Some(Merged(g))
      && (BuiltRun(src, b, b.initial, [a]).None? || BuiltRun(src, b, b.initial, [a]).value !in b.finals)
  {
    ConvertFails(src, groups);
    AsWrittenMarks(src, groups);
    AsWrittenRejectsStep(src, groups, g, a);
  }

  lemma ExamplePremises()
    ensures DisjointNames(Example(), ExampleGroups())
    ensures forall j :: 0 <= j < |ExampleGroups()| ==> |ExampleGroups()[j]| != 1
    ensures forall h :: 0 <= h < |ExampleGroups()| && 0 in ExampleGroups()[h] ==> h == 0
    ensures !HasFinal(Example(), ExampleGroups()[0])
  {
    assert Kind(Example(), 0) == Some(INITIAL) && Kind(Example(), 1) == None;
  }

  /**
   * The as-written conversion of Example: the merged state AB is initial and not final, and its
   * transition on "a" loops back to AB instead of reaching CD, so the word "a" that Example
   * accepts (A to C) is not accepted any more.
   */
  lemma AsWrittenLosesWord()
    ensures Run(Example(), Example().initial, ["a"]) == Some(2) && 2 in Example().finals
    ensures ConvertAsWritten(Example(), ExampleGroups()).Success?
    ensures var b := ConvertAsWritten(Example(), ExampleGroups()).value;
      && b.initial == Some(Merged(0))
      && (BuiltRun(Example(), b, b.initial, ["a"]).None? || BuiltRun(Example(), b, b.initial, ["a"]).value !in b.finals)
  {
    assert Next(Example(), 0, "a") == Some(2);
    ExamplePremises();
    AsWrittenLosesStep(Example(), ExampleGroups(), 0, "a");
  }

  /** The group holding x, the first one from index j on. */
  function ClassFrom(groups: seq<seq<nat>>, x: nat, j: nat): (r: Option<nat>)
    ensures r.Some? ==> j <= r.value < |groups| && x in groups[r.value]
    ensures r.None? <==> forall g :: j <= g < |groups| ==> x !in groups[g]
    decreases |groups| - j
  {
    if j >= |groups| then None
    else if x in groups[j] then Some(j)
    else ClassFrom(groups, x, j + 1)
  }

  /** The group of the minimised partition that holds x: the state of the quotient x becomes. */
  function ClassOf(groups: seq<seq<nat>>, q: Option<nat>): Option<nat> {
    if q.None? then None else ClassFrom(groups, q.value, 0)
  }

  /** Members of a group step, on every symbol, into the same group (or all have no step). */
  ghost predicate Stable(src: Source, groups: seq<seq<nat>>) {
    forall g, k, a :: 0 <= g < |groups| && 0 <= k < |groups[g]| ==>
      ClassOf(groups, Next(src, groups[g][k], a)) == ClassOf(groups, Next(src, groups[g][0], a))
  }

  /** Every transition out of a member of a group leads to a member of a group. */
  predicate Covers(src: Source, groups: seq<seq<nat>>) {
    forall g, k, e :: 0 <= g < |groups| && 0 <= k < |groups[g]| && e in Out(src, groups[g][k]) ==>
      ClassOf(groups, Some(e.target)).Some?
  }

  /** The members of a group are all final or all not final. */
  predicate RespectsFinals(src: Source, groups: seq<seq<nat>>) {
    forall g, k :: 0 <= g < |groups| && 0 <= k < |groups[g]| ==> (groups[g][k] in src.finals <==> groups[g][0] in src.finals)
  }

  /**
   * The intended conversion's step: the merged state of group c goes, on symbol a, to the
   * group of its members' target (not to the group of the state the transition comes from).
   */
  function QuotientNext(src: Source, groups: seq<seq<nat>>, c: nat, a: string): Option<nat> {
    if c < |groups| && |groups[c]| > 0 then ClassOf(groups, Next(src, groups[c][0], a)) else None
  }

  function QuotientRun(src: Source, groups: seq<seq<nat>>, c: Option<nat>, w: seq<string>): Option<nat>
    decreases |w|
  {
    if w == [] then c
    else if c.None? then None
    else QuotientRun(src, groups, QuotientNext(src, groups, c.value, w[0]), w[1..])
  }

  predicate QuotientFinal(src: Source, groups: seq<seq<nat>>, c: nat) {
    c < |groups| && |groups[c]| > 0 && groups[c][0] in src.finals
  }

  /** The intended quotient follows the original automaton: a word leads to the group of the state it leads to. */
  lemma {:induction false} QuotientFollows(src: Source, groups: seq<seq<nat>>, x: nat, w: seq<string>)
    requires Stable(src, groups) && Covers(src, groups)
    requires ClassOf(groups, Some(x)).Some?
    ensures ClassOf(groups, Run(src, Some(x), w)) == QuotientRun(src, groups, ClassOf(groups, Some(x)), w)
    ensures Run(src, Some(x), w).Some? ==> ClassOf(groups, Run(src, Some(x), w)).Some?
    decreases |w|
  {
    if w != [] {
      var c := ClassOf(groups, Some(x)).value;
      var k :| 0 <= k < |groups[c]| && groups[c][k] == x;
      var a := w[0];
      assert ClassOf(groups, Next(src, x, a)) == QuotientNext(src, groups, c, a);
      var y := Next(src, x, a);
      if y.Some? {
        assert Edge(a, y.value) in Out(src, groups[c][k]);
        QuotientFollows(src, groups, y.value, w[1..]);
      }
    }
  }

  /**
   * The intended quotient accepts exactly the words the original automaton accepts from a
   * grouped state, when the groups are stable, closed under transitions and respect finality.
   */
  lemma QuotientAccepts(src: Source, groups: seq<seq<nat>>, x: nat, w: seq<string>)
    requires Stable(src, groups) && Covers(src, groups) && RespectsFinals(src, groups)
    requires ClassOf(groups, Some(x)).Some?
    ensures (Run(src, Some(x), w).Some? && Run(src, Some(x), w).value in src.finals) <==>
      (QuotientRun(src, groups, ClassOf(groups, Some(x)), w).Some? &&
       QuotientFinal(src, groups, QuotientRun(src, groups, ClassOf(groups, Some(x)), w).value))
  {
    QuotientFollows(src, groups, x, w);
    var z := Run(src, Some(x), w);
    if z.Some? {
      var c := ClassOf(groups, z).value;
      var k :| 0 <= k < |groups[c]| && groups[c][k] == z.value;
    }
  }

  lemma ExampleStable()
    ensures Stable(Example(), ExampleGroups())
  {
    var src, groups := Example(), ExampleGroups();
    forall g, k, a | 0 <= g < |groups| && 0 <= k < |groups[g]|
      ensures ClassOf(groups, Next(src, groups[g][k], a)) == ClassOf(groups, Next(src, groups[g][0], a))
    {
      if a == "a" {
        assert ClassOf(groups, Some(2)) == Some(1) && ClassOf(groups, Some(3)) == Some(1);
      }
    }
  }

  /** On Example the intended quotient keeps the word "a": AB goes to CD, which is final. */
  lemma QuotientKeepsWord()
    ensures Stable(Example(), ExampleGroups()) && Covers(Example(), ExampleGroups()) && RespectsFinals(Example(), ExampleGroups())
    ensures QuotientRun(Example(), ExampleGroups(), ClassOf(ExampleGroups(), Example().initial), ["a"]) == Some(1)
    ensures QuotientFinal(Example(), ExampleGroups(), 1)
  {
    ExampleStable();
    var src, groups := Example(), ExampleGroups();
    assert ClassOf(groups, Some(2)) == Some(1) && ClassOf(groups, Some(3)) == Some(1);
    assert ClassOf(groups, Some(0)) == Some(0);
    assert Next(src, 0, "a") == Some(2);
  }
}
