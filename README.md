# NFA to DFA converter, modelled in Dafny

This project models the core of a small automata toolkit that exists twice: in Python (`automata/`)
and in Java (`src/`). It also models the Python reader for the NFA text format (`nfa_text_handler.py`).
The modelled pipeline is:

- **Heap model.** States own lists of transitions, and transitions point at other state objects.
  Both code bases mutate these objects in place. Here they are Dafny classes: `Graph.State`,
  `Graph.Transition`, `PyAutomata.FiniteAutomata`/`NFA`, `PyDfa.DFA`, `JavaAutomata.FiniteAutomata`/`NFA`,
  `JavaDfa.DFA`, and the two `AutomataConverter`s. The state and transition classes are generic in the
  symbol type: `string` for Python, `char` for Java.
- **Epsilon closure and epsilon elimination.** The closure is a stack search. `EpsilonClosure.GetEpsilonClosure`
  is proved equal to the least epsilon-closed set holding the start state. `convert_to_nfa` / `convertToNFA`
  builds a new automaton whose state named like a source state gets, on each symbol, the closures of the
  symbol-successors of that state's closure (`Closure.Step`).
- **Subset construction.** It has two forms:
  - the table form: `convert_to_dfa_table`, `add_table_row`, `process_unhandled_states`, `add_phi_row`;
  - the automaton form: `convert_to_dfa`.

  Combined states are named by their constituents' names, sorted and concatenated. Python sorts by code
  point. Java's `TreeSet<String>` sorts by UTF-16 code unit and drops duplicates. Missing moves go to a
  dead state that loops on every symbol.
- **Minimisation.** The equivalence refinement and its aliasing of carried singleton groups (one step on
  values: `Refinement.Refine`; the loops: `Partition`). Also the minimisation loop (`Partition.Minimize`,
  `JavaDfa.MinimizeLines`), the corrected Moore refinement (`Moore`), and the Python conversion of a partition
  back to a DFA (`Merge`).
- **Text reader.** `NfaText` covers the reader's `str.split`, `str.strip`, `str.replace`, `sorted` and
  `','.join` behaviour. The transition dictionary is proved to hold, for each state and symbol, the sorted,
  duplicate-free targets of the lines "from, symbol, to" from line 4 on.

Where the design of the system and the code disagree, the model follows the code:

- **Python closure symbol.** The closure follows transitions labelled "ε", although the automaton's EPSILON is
  "e" (automata/automata_converter.py:190, automata/finite_automata.py:11). Only the text reader's `'e'` to
  `'ε'` rewrite makes the two meet.
- **Epsilon elimination.** It loops over every symbol of the source alphabet, the epsilon symbol included.
- **Acceptance off a missing move.** A word that continues past a missing move raises AttributeError in
  Python and NullPointerException in Java instead of being rejected. A missing move on the last symbol
  ends the walk on None (null), which is not final, so that word is rejected.
- **Minimisation loop.** The loop need not end (see Findings).

## Model

| member | source | states |
|---|---|---|
| Graph.StateTypeOf | automata/nfa.py:20-25 | INITIAL exactly for the initial state (even when final), FINAL exactly for another final state, otherwise none |
| Graph.Transition.constructor | automata/transition.py:2-4 | the new transition holds the given symbol and target |
| Graph.Transition.SetNextState | automata/transition.py:12-13 | only the target changes; the symbol stays |
| Graph.State.constructor | automata/state.py:3-5 | a fresh state with that name and no transitions |
| Graph.State.AddTransition | automata/state.py:10-22 | t is appended exactly when no stored transition has its symbol and target object; otherwise the list is unchanged |
| Graph.FirstNamed | automata/finite_automata.py:52-53 | the result is a listed state of that name with no earlier state of that name, or none exactly when no state has it |
| Graph.FirstTarget | automata/nfa.py:40-48 | the target of some transition on the symbol, or none exactly when no transition has it |
| Graph.FirstTargetIsFirst | automata/dfa.py:20-29 | FirstTarget is the target of the earliest transition on the symbol |
| Graph.TargetsMember | automata/automata_converter.py:120 | a state is among the targets on a exactly when some transition on a leads to it |
| Graph.TargetsDistinct | automata/state.py:10-12 | a list kept free of duplicate (symbol, target) edges has duplicate-free targets per symbol |
| Graph.TransitionText | automata/transition.py:15-18 | both branches of `__str__` give "symbol -> target name" |
| Graph.WalkConcat | automata/dfa.py:48-53 | walking s and then t is walking s + t, and a fault while reading s stays a fault |
| Graph.Accepts | automata/dfa.py:53 | the empty word is accepted exactly from a final state (never from none); the answer is a failure exactly when the walk faults |
| PyAutomata.AddAllNames | automata/finite_automata.py:24-27 | add_states keeps names unique, and the resulting names are exactly those of both lists |
| PyAutomata.AddAllPrefix | automata/finite_automata.py:24-27 | add_states only appends: the existing states keep their positions |
| PyAutomata.StateRows | automata/nfa.py:53-56 | the entries of one state: one per alphabet symbol with a move, each naming the first target |
| PyAutomata.TransitionRows | automata/nfa.py:50-57 | the entries of all states in list order; with unique names, no (state, symbol) pair twice |
| PyAutomata.FiniteAutomata.constructor | automata/finite_automata.py:6-11 | no states, no symbols, no initial state, no final states |
| PyAutomata.FiniteAutomata.IsStateExist | automata/finite_automata.py:13-18 | true exactly when a State or a name is given and some stored state has that name |
| PyAutomata.FiniteAutomata.AddState | automata/finite_automata.py:20-22 | the state is appended exactly when its name is new; nothing else changes |
| PyAutomata.FiniteAutomata.AddStates | automata/finite_automata.py:24-27 | the states become AddAll of the old states and the list |
| PyAutomata.FiniteAutomata.SetInitialState | automata/finite_automata.py:42-43 | only the initial state changes |
| PyAutomata.FiniteAutomata.AddFinalState | automata/finite_automata.py:48-50 | the final set gains the state; adding it twice changes nothing |
| PyAutomata.FiniteAutomata.SetAlphabets | automata/finite_automata.py:36-37 | only the alphabet is replaced |
| PyAutomata.FiniteAutomata.GetStateByName | automata/finite_automata.py:52-53 | a listed state with that name, or none exactly when no state has it |
| PyAutomata.NFA.constructor | automata/nfa.py:8-10 | an empty automaton with has_epsilon false |
| PyAutomata.NFA.AddTransition | automata/nfa.py:12-18 | the symbol joins the alphabet, has_epsilon becomes true for "e" and is never reset, and the edge is added to the source state as AddTransition does |
| PyAutomata.NFA.GetStateType | automata/nfa.py:20-25 | StateTypeOf for this automaton's initial and final states |
| PyAutomata.NFA.GetNextStateForAlphabet | automata/nfa.py:40-48 | the first target on the symbol, or none |
| PyAutomata.NFA.GetTransitions | automata/nfa.py:50-57 | the rows of TransitionRows over the whole alphabet |
| PyAutomata.NFA.GetStateByName | automata/nfa.py:27-35 | an existing state of that name, or a fresh state of that name appended to the states |
| PyDfa.Chars | automata/dfa.py:51 | one one-character string per character, in order |
| PyDfa.NextStateForSymbol | automata/dfa.py:20-29 | the first target on the symbol; AttributeError when asked of none |
| PyDfa.StatesInSameGroup | automata/dfa.py:55-60 | true exactly when some group's member names include both names |
| PyDfa.SuccTable | automata/dfa.py:66-68 | the successor name of every state on every symbol, "None" for a missing move |
| PyDfa.DFA.constructor | automata/dfa.py:8-10 | an empty automaton |
| PyDfa.DFA.AddTransition | automata/dfa.py:12-15 | an epsilon edge changes nothing; any other symbol joins the alphabet and its edge is added |
| PyDfa.DFA.IsStringAccepted | automata/dfa.py:48-53 | Accepts on the walk from the initial state; AttributeError when the walk steps from none |
| PyDfa.DFA.IsEquivalent | automata/dfa.py:62-71 | none when no group has two or more members; otherwise whether, on every symbol, some group holds both successor names |
| PyDfa.DFA.GetNextEquivalence | automata/dfa.py:73-93 | Refinement.Refine with is_equivalent: the same states, in non-empty groups |
| PyDfa.DFA.Minimize | automata/dfa.py:95-111 | the partitions from StartPartition up to the first whose successor has as many groups (Recorded) |
| PyDfa.DFA.GetTransitions | automata/dfa.py:172-180 | the NFA's rows with the epsilon symbol skipped |
| Refinement.FindGroup | automata/dfa.py:85-89 | the first next group from j on whose head is equivalent to x, or -1 when none is |
| Refinement.Place | automata/dfa.py:84-91 | x joins at most one group or opens one; carried previous groups not touched keep their value |
| Refinement.PlaceElements | automata/dfa.py:84-91 | placing x adds exactly x to the new partition's members |
| Refinement.SplitGroup | automata/dfa.py:80-91 | splitting a group only extends the accumulator and keeps uncarried groups |
| Refinement.SplitGroupElements | automata/dfa.py:80-91 | splitting adds exactly the group's remaining members |
| Refinement.GroupStep | automata/dfa.py:76-91 | a singleton group is appended as the same list; a larger group is split |
| Refinement.GroupStepElements | automata/dfa.py:76-91 | one group's step adds exactly that group's members |
| Refinement.RefineFrom | automata/dfa.py:76-93 | every singleton group from i on is carried, and earlier origins are kept |
| Refinement.RefineFromElements | automata/dfa.py:76-93 | the outer loop adds exactly the members of the remaining groups |
| Refinement.RefineSpec | automata/dfa.py:73-93 | one step keeps exactly the members, in non-empty groups; each singleton is carried as the same (possibly grown) list |
| Refinement.SplitMembers | automata/dfa.py:98-103 | a state is on one side exactly when it is listed, not skipped, and its finality matches |
| Refinement.InitialPartitionMembers | automata/dfa.py:96-103 | group 0 holds exactly the non-final and group 1 exactly the final states outside the skipped one |
| Partition.FindHead | automata/dfa.py:85-89 | the scan returns FindGroup |
| Partition.PlaceMember | automata/dfa.py:80-91 | the first member starts an empty partition; any other member is placed by Place |
| Partition.SplitInto | automata/dfa.py:80-91 | the inner loop computes SplitGroup |
| Partition.GroupInto | automata/dfa.py:76-91 | the loop body computes GroupStep and leaves the later groups uncarried |
| Partition.GetNextEquivalence | automata/dfa.py:73-93 | the loops compute Refine: the next partition and the previous one as its aliases leave it |
| Partition.Minimize | automata/dfa.py:95-111 | Recorded: p0, step(p0), ... up to the first partition whose step keeps the group count; consecutive entries differ in count |
| Partition.Iterates | automata/dfa.py:104-109 | the k-th entry is the partition after k steps |
| Moore.AddTo | automata/dfa.py:84-91 | x joins a group whose head it is equivalent to, or opens a new group; the heads stay |
| Moore.SplitBlock | automata/dfa.py:80-91 | the classes of one group hold its members; a group kept whole is all equivalent to its head |
| Moore.MooreFrom | automata/dfa.py:76-93 | the classes of the remaining groups hold their members, with at least one class per group |
| Moore.MooreFromWithin | automata/dfa.py:76-93 | each class lies inside one group of the previous partition |
| Moore.MooreStep | automata/dfa.py:73-93 | the corrected step keeps the members, in non-empty groups, and never lowers the group count |
| Moore.MooreStepRefines | automata/dfa.py:73-93 | every new class lies inside one previous group |
| Moore.Stable | automata/dfa.py:106 | when a step keeps the group count, every member is equivalent to its group's head |
| Moore.StepMeasure | automata/dfa.py:106-109 | a step keeps the states and leaves between the old count and the number of states in groups |
| Moore.MooreChain | automata/dfa.py:105-111 | the chain of steps ends on a partition the step keeps, within states minus groups plus one entries |
| Moore.DropEmpty | automata/dfa.py:97 | the same members, with no empty group |
| Moore.MinimizeCorrected | automata/dfa.py:95-111 | corrected minimize: from the non-final/final split, at most states + 1 partitions, each the step of the one before, ending on a stable one |
| MooreFinding.EqvEval | automata/dfa.py:62-71 | is_equivalent on the counterexample reduces to two group lookups |
| MooreFinding.StepFromP0 | automata/dfa.py:73-93 | the step from P0 splits 0, 2 and 3 apart and joins 1 and 4 to them |
| MooreFinding.StepFromP1 | automata/dfa.py:73-93 | the step from P1 joins 2 and 3 to the carried [0] and reunites 1 and 4 |
| MooreFinding.Alternates | automata/dfa.py:73-93 | on the counterexample, get_next_equivalence maps P0 to P1 and P1 back to P0 |
| MooreFinding.StartsAtP0 | automata/dfa.py:96-103 | minimize's starting partition for the counterexample is P0 |
| MooreFinding.Cycle | automata/dfa.py:106-109 | a step that maps p to q and back alternates between them for ever |
| MooreFinding.NeverStops | automata/dfa.py:106 | alternating partitions of different sizes never meet the exit test |
| MooreFinding.AsWrittenNeverReturns | automata/dfa.py:106 | the as-written minimize on the counterexample starts at P0 and never leaves its loop |
| MooreFinding.JavaEqvAgrees | src/DFA.java:51-67 | once a group has two or more members, Java's is_equivalent (no size gate) answers as Python's |
| MooreFinding.JavaAlternates | src/DFA.java:70-102 | on the counterexample, Java's getNextEquivalence also maps P0 to P1 and P1 back to P0 |
| MooreFinding.JavaAsWrittenNeverReturns | src/DFA.java:105-130 | the Java minimize on the counterexample starts at P0 and its loop never exits |
| Merge.GroupNames | automata/dfa.py:132 | the names of a group's members, in order |
| Merge.Holder | automata/dfa.py:121-124 | the first merged group, from j on, with a member of that name; i itself when none before it has one |
| Merge.ConvertFromFails | automata/dfa.py:133-148 | the loop from group i fails, always with AttributeError, exactly when a kept single state crashes |
| Merge.ConvertFails | automata/dfa.py:137-139 | convert_minimization_to_DFA fails with AttributeError exactly when a kept single state has a transition into a merged state |
| Merge.HolderIsOwn | automata/dfa.py:162 | with disjoint names, a member's own group is the one found by name |
| Merge.MemberEdgesLoop | automata/dfa.py:159-164 | a member's redirected transitions all loop back to its own merged state |
| Merge.MergeMembersLoop | automata/dfa.py:152-164 | merging a group keeps LoopsBack |
| Merge.ConvertFromLoops | automata/dfa.py:130-165 | the outer loop keeps LoopsBack |
| Merge.AsWrittenLoopsBack | automata/dfa.py:159-162 | every redirected transition of a merged state leads back to that merged state |
| Merge.MergeMembersMarks | automata/dfa.py:152-157 | merging a group makes it final exactly when a member is FINAL, and initial when a member is INITIAL |
| Merge.ConvertFromMarks | automata/dfa.py:133-157 | the loop from group i makes a merged state final exactly when a member is FINAL, and sets the initial state only from a group holding it |
| Merge.AsWrittenMarks | automata/dfa.py:145-157 | a merged state is final exactly when a member is FINAL; the initial state is the state of the group holding the old one |
| Merge.InitialFromGroup | automata/dfa.py:154-155 | the merged group holding the initial state becomes initial |
| Merge.FirstEdge | automata/dfa.py:20-29 | a listed transition on the symbol, or none exactly when no transition has it |
| Merge.AsWrittenRejectsStep | automata/dfa.py:159-162 | with no single-state groups, a non-final merged state accepts no one-symbol word |
| Merge.AsWrittenLosesStep | automata/dfa.py:154-162 | the merged state holding the initial state is initial and, if not final, accepts no one-symbol word |
| Merge.AsWrittenLosesWord | automata/dfa.py:159-162 | on the example, "a" is accepted by the original but not by the as-written conversion |
| Merge.ClassFrom | automata/dfa.py:121-124 | the first group from j on that holds x, or none exactly when no such group holds x |
| Merge.QuotientFollows | automata/dfa.py:120-167 | the intended quotient's run of a word ends in the group of the original run's end |
| Merge.QuotientAccepts | automata/dfa.py:120-167 | for stable, closed, final-respecting groups, the quotient accepts exactly the original's words |
| Merge.QuotientKeepsWord | automata/dfa.py:120-167 | on the example, the intended quotient keeps "a": AB goes to CD, which is final |
| EpsilonClosure.ClosureContainsStart | automata/automata_converter.py:178-193 | the closure holds the start state |
| EpsilonClosure.ClosureClosed | automata/automata_converter.py:178-193 | the closure is closed under epsilon edges |
| EpsilonClosure.ClosureLeast | automata/automata_converter.py:178-193 | any epsilon-closed subset holding the start state contains the closure |
| EpsilonClosure.GetEpsilonClosure | automata/automata_converter.py:178-193 | the search returns exactly Closure: the least epsilon-closed set holding the state |
| EpsilonClosure.Search | automata/automata_converter.py:183-191 | the stack loop visits exactly the closure, within any closed set holding the start state |
| EpsilonClosure.PushEpsTargets | automata/automata_converter.py:189-191 | the stack grows by the epsilon targets of the state, in list order |
| EpsilonClosure.StepInside | automata/automata_converter.py:163-167 | every state a step reaches lies in the automaton |
| EpsilonClosure.CloseSetAdd | automata/automata_converter.py:166-167 | adding a state to the set adds exactly its closure |
| Elimination.NextStatesForAlphabet | automata/automata_converter.py:118-120 | the targets on the symbol, in list order; nothing for none |
| Elimination.MovesOf | automata/automata_converter.py:163-164 | exactly the symbol-successors of the closure's members |
| Elimination.CloseAll | automata/automata_converter.py:166-167 | exactly the union of the closures of the states |
| Elimination.StepTargets | automata/automata_converter.py:160-167 | exactly Step: the closures of the symbol-successors of the state's closure |
| Elimination.LinkInvStep | automata/automata_converter.py:169-174 | linking one more state keeps the linking invariant |
| Elimination.LinkedStep | automata/automata_converter.py:169-174 | one linking round adds its state's name to Linked |
| Elimination.ElimInvStep | automata/automata_converter.py:159-174 | one more symbol keeps ElimInv |
| Elimination.ShapeStart | automata/automata_converter.py:152-155 | the converted automaton starts with its initial state alone: no final state, symbol or edge |
| Elimination.EdgesNamedNone | automata/automata_converter.py:158 | a name no handled source state has carries no edges |
| Elimination.ConvertStepProof | automata/automata_converter.py:157-174 | Shape holds after one more source state |
| PyEpsilon.LinkTargets | automata/automata_converter.py:169-174 | the state has an edge on the symbol to the converted state of each name in the set; the states with a FINAL original become final |
| PyEpsilon.LinkStep | automata/automata_converter.py:169-174 | one round keeps LinkInv |
| PyEpsilon.LinkOne | automata/automata_converter.py:170-174 | the edge to the converted state is added, and it becomes final when its original is FINAL |
| PyEpsilon.EliminateSymbol | automata/automata_converter.py:160-174 | the set linked is exactly Step of the source state on the symbol |
| PyEpsilon.EliminateStep | automata/automata_converter.py:159-174 | one symbol keeps ElimInv and leaves the source graph unchanged |
| PyEpsilon.LinkSymbol | automata/automata_converter.py:160-174 | EliminateSymbol keeps ElimInv and Untouched |
| PyEpsilon.EliminateState | automata/automata_converter.py:159-174 | every symbol's step set is linked from the converted state |
| PyEpsilon.Start | automata/automata_converter.py:152-155 | a new automaton holding only its initial state, named like the source's |
| PyEpsilon.ConvertStep | automata/automata_converter.py:157-174 | the converted state named like the k-th source state gets that state's step sets |
| PyEpsilon.Advance | automata/automata_converter.py:158-174 | get_state_by_name and then the alphabet loop keep Converted |
| PyEpsilon.Lookup | automata/automata_converter.py:158 | a state get_state_by_name makes has no edges and a name no handled state has |
| PyEpsilon.EliminateInto | automata/automata_converter.py:159-174 | every converted state carries the edges of the first k + 1 source states of its name |
| PyEpsilon.ConvertToNfa | automata/automata_converter.py:151-176 | AttributeError exactly without an initial state; otherwise each converted state has exactly the step-set edges of the source states of its name, and final states are the FINAL ones reached |
| PyEpsilon.ConvertFrom | automata/automata_converter.py:153-176 | the same, past the initial-state lookup |
| Subset.Absorb | automata/automata_converter.py:145-146 | every transition of the constituent is offered to the new state, which keeps no duplicate edge |
| Subset.Combine | automata/automata_converter.py:144-146 | the new state's transitions are exactly its constituents' transitions (Unites) |
| Subset.OnePerSymbolTargets | automata/automata_converter.py:67-79 | a row with one transition per listed symbol has exactly one target on each and none on others |
| Subset.OnePerSymbolOneEach | automata/automata_converter.py:67-79 | one transition per symbol of an enumeration of the alphabet is one per alphabet symbol |
| Subset.EnumeratesDone | automata/automata_converter.py:67 | once nothing is left, the enumeration covers the whole alphabet |
| Subset.CellsAppend | automata/automata_converter.py:100-114 | a row stays valid as the pending pool grows and one more cell is made |
| Subset.FilledAppend | automata/automata_converter.py:71-79 | a fresh symbol's transition keeps the row filled |
| Subset.AppendEdge | automata/automata_converter.py:71 | a transition on a symbol not yet used is appended |
| Subset.BuiltAdd | automata/automata_converter.py:81-82 | a built state added to the DFA keeps every DFA state built |
| Subset.FinalNamesStep | automata/automata_converter.py:84-87 | after a round, the DFA's final names gain the copy's name exactly when the state is final and no final has its name |
| PyConverter.IsStateExist | automata/automata_converter.py:200-203 | true exactly when a State is given and some pool member has its name |
| PyConverter.IsStateExistByName | automata/automata_converter.py:200-203 | a pool member, or a state of the same name, is always found |
| PyConverter.AddLoops | automata/automata_converter.py:89-92 | the dead state loops on every symbol but "e", and those symbols join the DFA alphabet |
| PyConverter.AutomataConverter.constructor | automata/automata_converter.py:8-15 | an empty table, empty pools, no dead state |
| PyConverter.AutomataConverter.AddTableRow | automata/automata_converter.py:96-116 | the state is handled and one row is appended: the state, then one cell per symbol (dead, the one target, or the combined state) |
| PyConverter.AutomataConverter.RowCells | automata/automata_converter.py:100-114 | one cell per symbol, each valid for its targets |
| PyConverter.AutomataConverter.RowStep | automata/automata_converter.py:100-114 | one more cell keeps the row valid |
| PyConverter.AutomataConverter.NextCell | automata/automata_converter.py:101-114 | the cell is a new dead state (setting the flag), the one target (queued unless handled by name), or CreateCombinedState |
| PyConverter.AutomataConverter.ProcessUnhandledStates | automata/automata_converter.py:195-198 | rows are added until nothing is pending, or fuel runs out; the result reports which |
| PyConverter.AutomataConverter.HandleNext | automata/automata_converter.py:196-198 | some pending state is popped and its row appended |
| PyConverter.AutomataConverter.AddPhiRow | automata/automata_converter.py:205-208 | a row of alphabet size + 1 cells, all the same new dead state |
| PyConverter.AutomataConverter.ConvertToDfaTable | automata/automata_converter.py:17-19 | as written: TypeError, nothing changed |
| PyConverter.AutomataConverter.EliminateEpsilon | automata/automata_converter.py:34-35 | an NFA with has_epsilon set is replaced by ConvertToNfa's result; false when that fails |
| PyConverter.AutomataConverter.ConvertToDfaTableIntended | automata/automata_converter.py:17-26 | AttributeError exactly when an epsilon NFA has no initial state; otherwise the table, first the initial state's row, every row with one cell per symbol, the dead row last when the flag is set, and nothing pending when done |
| PyConverter.AutomataConverter.BuildTable | automata/automata_converter.py:21-26 | the table body after epsilon elimination |
| PyConverter.AutomataConverter.NextTarget | automata/automata_converter.py:68-79 | the target is the dead state (setting the flag), the one target (queued unless handled), or CreateCombinedState |
| PyConverter.AutomataConverter.FillRow | automata/automata_converter.py:67-79 | the DFA copy gets exactly one transition per symbol, to the target chosen for that symbol |
| PyConverter.AutomataConverter.FillStep | automata/automata_converter.py:68-79 | one more symbol keeps Filling |
| PyConverter.AutomataConverter.DfaStep | automata/automata_converter.py:62-87 | one worklist round keeps Building and moves one state from pending to handled |
| PyConverter.AutomataConverter.PlaceCopy | automata/automata_converter.py:81-87 | the copy joins the DFA and Building holds again |
| PyConverter.AutomataConverter.BuildingAfter | automata/automata_converter.py:62-87 | a round leaves Building, with the copy's objects in the frame |
| PyConverter.AutomataConverter.HandleState | automata/automata_converter.py:63-81 | the state leaves the pool, its copy is built, and it is handled |
| PyConverter.AutomataConverter.BuildRow | automata/automata_converter.py:64-79 | a fresh copy named like the state, filled by FillRow |
| PyConverter.AutomataConverter.AddCopy | automata/automata_converter.py:82-87 | the copy is added by name, and becomes final when the state is final and no final has its name |
| PyConverter.AutomataConverter.StartDfa | automata/automata_converter.py:37-60 | the initial copy is the DFA's first and initial state, final exactly when the start is, with its row filled |
| PyConverter.AutomataConverter.SeedDfa | automata/automata_converter.py:37-43 | the copy is the only state, initial, and final when the start is |
| PyConverter.AutomataConverter.StartBuilding | automata/automata_converter.py:45-60 | Building holds after the initial row |
| PyConverter.AutomataConverter.BuildDfa | automata/automata_converter.py:37-94 | the DFA after at most fuel rounds, with the guarantees of Finish |
| PyConverter.AutomataConverter.RunWorklist | automata/automata_converter.py:62-87 | the rounds keep Building and leave the NFA and the alphabets as they were |
| PyConverter.AutomataConverter.AddPhi | automata/automata_converter.py:89-92 | the dead state joins the DFA with a self-loop on every symbol but "e" |
| PyConverter.AutomataConverter.Finish | automata/automata_converter.py:89-94 | every non-dead state has one transition per symbol, and when done, every target is named by a DFA state |
| PyConverter.AutomataConverter.ConvertToDfa | automata/automata_converter.py:28-94 | AttributeError exactly without an initial state; otherwise the initial copy is first and initial, final exactly when the start is; every non-dead state has one transition per symbol; the final names are those of the final handled states |
| PyConverter.AutomataConverter.AnyFinal | automata/automata_converter.py:128-130 | true exactly when some constituent is FINAL in the NFA |
| PyConverter.AutomataConverter.CreateCombinedState | automata/automata_converter.py:123-149 | named CombinedName; a handled, else a pending, state of that name is returned unchanged; otherwise a fresh pending state uniting the constituents' transitions, final exactly when one of them is FINAL |
| PyConverter.AutomataConverter.NewCombined | automata/automata_converter.py:140-149 | a fresh pending state of that name, final when asked, uniting the constituents' transitions |
| Names.Unit | src/AutomataConverter.java:166-175 | a character is compared on its code point (Python) or on its UTF-16 code units (Java): one unit up to U+FFFF, else a high then a low surrogate that encode it |
| Names.UnitsInjective | src/AutomataConverter.java:166-175 | different strings have different units under either order, so each order is total |
| Names.Insert | automata/automata_converter.py:124 | inserting into a sorted list keeps it sorted and adds exactly that name |
| Names.Sort | automata/automata_converter.py:124 | `sorted`: a sorted permutation of the names |
| Names.SortedUnique | automata/automata_converter.py:124 | two sorted arrangements of the same names are equal |
| Names.SortPermutationInvariant | automata/automata_converter.py:124 | the sort depends only on the multiset of names |
| Names.CombinedNameOrderIndependent | automata/automata_converter.py:124-125 | the combined name does not depend on discovery order |
| Names.CombinedNameInUniverse | automata/automata_converter.py:124-125 | every combined name of known states is in the finite name universe |
| Names.Dedup | src/AutomataConverter.java:166-170 | the names a TreeSet keeps: each once, exactly those given |
| Names.TreeSetNameAgrees | src/AutomataConverter.java:166-175 | on distinct names of characters up to U+FFFF, the TreeSet name equals the Python sorted name |
| Names.OrdersDiffer | src/AutomataConverter.java:166-175 | above U+FFFF the two differ: Python names {U+1F600, U+FF41} "U+FF41 U+1F600", Java "U+1F600 U+FF41" |
| Names.TreeSetNameInUniverse | src/AutomataConverter.java:175 | every TreeSet name of known states is in the finite name universe |
| NfaText.Split | nfa_text_handler.py:5 | `str.split` on one separator: at least one piece, none holding the separator |
| NfaText.SplitJoin | nfa_text_handler.py:5 | joining the pieces with the separator gives the line back |
| NfaText.JoinSplit | nfa_text_handler.py:59 | separator-free pieces, joined and split, come back unchanged |
| NfaText.SplitWhole | nfa_text_handler.py:22 | a line without the separator is one piece |
| NfaText.SplitFirst | nfa_text_handler.py:37 | a separator-free prefix followed by the separator is the first piece |
| NfaText.SplitReplaceCount | nfa_text_handler.py:14 | the piece count depends only on where the separators are, so replacing 'e' keeps it |
| NfaText.SplitAvoids | nfa_text_handler.py:14 | a character missing from the line is missing from every piece |
| NfaText.StripLeft | nfa_text_handler.py:6 | no longer than the input and not starting with whitespace |
| NfaText.StripRight | nfa_text_handler.py:6 | no longer than the input and not ending with whitespace |
| NfaText.StripLeftCuts | nfa_text_handler.py:6 | a suffix of the input, and what is cut off is whitespace |
| NfaText.StripRightCuts | nfa_text_handler.py:6 | a prefix of the input, and what is cut off is whitespace |
| NfaText.StripTrimmed | nfa_text_handler.py:22 | `str.strip` neither starts nor ends with whitespace |
| NfaText.StripAvoids | nfa_text_handler.py:15 | stripping adds no character |
| NfaText.StripIdempotent | nfa_text_handler.py:22 | stripping twice strips nothing more |
| NfaText.Replace | nfa_text_handler.py:14 | same length; every 'e' becomes 'ε' and every other character stays |
| NfaText.StripEach | nfa_text_handler.py:15 | one stripped field per piece |
| NfaText.FieldsShape | nfa_text_handler.py:37 | one field per comma-separated piece; no field holds a comma or edge whitespace |
| NfaText.FieldsAvoid | nfa_text_handler.py:37 | a character missing from a line is missing from its fields |
| NfaText.GetStates | nfa_text_handler.py:1-7 | IndexError exactly when there is no line 0; otherwise the fields of line 0 |
| NfaText.GetAlphabets | nfa_text_handler.py:9-16 | IndexError exactly when there is no line 1; otherwise the i-th symbol is the i-th stripped piece of line 1 after every 'e' became 'ε', so none holds 'e' or ',' |
| NfaText.GetInitialState | nfa_text_handler.py:18-22 | IndexError exactly when there is no line 2; otherwise line 2 stripped |
| NfaText.GetAcceptingStates | nfa_text_handler.py:24-30 | IndexError exactly when there is no line 3; otherwise the fields of line 3 |
| NfaText.Recorded | nfa_text_handler.py:51-52 | the target is in the list afterwards, the list stays duplicate-free, and nothing is lost |
| NfaText.AddEdgeAt | nfa_text_handler.py:40-52 | a three-field line records its target under its state and symbol |
| NfaText.AddEdgeTargets | nfa_text_handler.py:40-52 | one line adds target t to (f, a) exactly when its fields are f, a, t |
| NfaText.AddEdgeKeys | nfa_text_handler.py:44-49 | one line adds exactly its state and its symbol under that state |
| NfaText.GatheredTargets | nfa_text_handler.py:36-52 | a target is recorded for (f, a) exactly when some row read is f, a, t |
| NfaText.GatheredDistinct | nfa_text_handler.py:47-52 | no target is recorded twice for one state and symbol |
| NfaText.GatheredKeys | nfa_text_handler.py:36-52 | the keys are exactly the states and symbols of three-field rows, each with a target |
| NfaText.CollectedTargets | nfa_text_handler.py:36-52 | a target is recorded for (f, a) exactly when some line read has the fields f, a, t |
| NfaText.Record | nfa_text_handler.py:40-52 | the loop body computes one AddEdge step |
| NfaText.ReadTransitions | nfa_text_handler.py:36-52 | the loop leaves the dictionary read from all lines |
| NfaText.JoinSymbols | nfa_text_handler.py:58-59 | every list of one state is joined with ',' |
| NfaText.JoinStates | nfa_text_handler.py:57-59 | every list of every state is joined with ',' |
| NfaText.GetTransitions | nfa_text_handler.py:33-60 | the lines from index 4 on read, every list sorted, then joined with ',' |
| NfaText.TextTargets | nfa_text_handler.py:36-52 | the recorded targets are exactly the t of the lines "f, a, t" from index 4 on |
| NfaText.TargetsNoComma | nfa_text_handler.py:37 | no recorded target holds a comma |
| NfaText.TransitionValue | nfa_text_handler.py:54-59 | a value, split at ',', is the sorted, duplicate-free list of exactly the t of the lines "f, a, t" from index 4 on |
| NfaText.TransitionKeys | nfa_text_handler.py:36-55 | the keys are exactly the first fields, and the symbols under a state exactly the second fields, of three-field lines from index 4 on |
| NfaText.DistinctPermutation | nfa_text_handler.py:55 | a rearrangement (such as the sorted list) of a duplicate-free list has no duplicates |
| NfaText.CountDistinct | nfa_text_handler.py:51-52 | a list in which every member occurs at most once has no repeats |
| JavaAutomata.CharSet.constructor | src/FiniteAutomata.java:14 | an empty set object |
| JavaAutomata.CharSet.Add | src/NFA.java:15-24 | the set gains the symbol |
| JavaAutomata.CharSet.Remove | src/AutomataConverter.java:41-42 | the set loses the symbol |
| JavaAutomata.AddNamesSpec | src/FiniteAutomata.java:40-47 | addStates keeps names unique, keeps the old names, and ends with exactly the names of both lists |
| JavaAutomata.AddEdge | src/NFA.java:22 | the edge is stored once |
| JavaAutomata.FiniteAutomata.constructor | src/FiniteAutomata.java:12-17 | no states, a fresh empty alphabet object, no initial state, no final states |
| JavaAutomata.FiniteAutomata.IsStateExistName | src/FiniteAutomata.java:26-31 | true exactly when some state has that name |
| JavaAutomata.FiniteAutomata.IsStateExist | src/FiniteAutomata.java:19-24 | true exactly when some state has the name of s |
| JavaAutomata.FiniteAutomata.AddState | src/FiniteAutomata.java:33-38 | the state is inserted exactly when its name is new |
| JavaAutomata.FiniteAutomata.AddStates | src/FiniteAutomata.java:40-47 | a fresh state for each new name, in order; the old states stay |
| JavaAutomata.FiniteAutomata.SetAlphabets | src/FiniteAutomata.java:57-59 | the automaton now holds the given set object itself |
| JavaAutomata.FiniteAutomata.SetInitialState | src/FiniteAutomata.java:65-67 | only the initial state changes |
| JavaAutomata.FiniteAutomata.AddFinalState | src/FiniteAutomata.java:73-75 | the final set gains the state |
| JavaAutomata.FiniteAutomata.GetStateByName | src/FiniteAutomata.java:77-83 | the first state of that name, or null |
| JavaAutomata.NFA.constructor | src/NFA.java:7-10 | an empty automaton with hasEpsilon false |
| JavaAutomata.NFA.AddTransition | src/NFA.java:15-24 | the symbol joins the alphabet object, hasEpsilon is set for 'e' and never reset, and the edge is added |
| JavaAutomata.NFA.GetStateType | src/NFA.java:26-34 | INITIAL for the initial state by identity, FINAL for another final state, else null |
| JavaAutomata.NFA.GetStateByName | src/NFA.java:36-47 | an existing state of that name, or a fresh one added; never null |
| JavaDfa.SuccTable | src/DFA.java:53-56 | the successors of the states on the symbols, null for a missing move |
| JavaDfa.GetNextStateForSymbol | src/DFA.java:13-20 | the first target on the symbol, or null; NullPointerException when asked of null |
| JavaDfa.InSameList | src/DFA.java:54-60 | true exactly when some list contains both successors; null is in none |
| JavaDfa.SuccessorsTogether | src/DFA.java:53-65 | true exactly when on every symbol some list holds both successors |
| JavaDfa.MinimizeLines | src/DFA.java:119-129 | the lines minimize prints, as Printed describes, or none when fuel runs out |
| JavaDfa.ProgressStep | src/DFA.java:123-128 | a refinement that changes the group count is printed and the loop goes on |
| JavaDfa.ProgressNone | src/DFA.java:123-128 | out of fuel, no refinement so far has kept the group count |
| JavaDfa.ProgressSome | src/DFA.java:129 | the refinement that keeps the group count is printed last |
| JavaDfa.DFA.constructor | src/DFA.java:5-7 | an empty automaton |
| JavaDfa.DFA.AddTransition | src/DFA.java:8-11 | every symbol, 'e' included, joins the alphabet object, and the edge is added |
| JavaDfa.DFA.GetNextStatesForAlphabet | src/DFA.java:32-39 | the first target on the symbol, or null |
| JavaDfa.DFA.GetStateType | src/DFA.java:22-30 | INITIAL for the initial state by identity, FINAL for another final state, else null |
| JavaDfa.DFA.IsStringAccepted | src/DFA.java:41-48 | Accepts on the walk from the initial state; NullPointerException when a step starts from null |
| JavaDfa.DFA.IsEquivalent | src/DFA.java:51-68 | true exactly when on every symbol some list holds both successors; true for an empty alphabet |
| JavaDfa.DFA.EqvAgrees | src/DFA.java:51-68 | the table form of is_equivalent agrees with the scans |
| JavaDfa.DFA.GetNextEquivalence | src/DFA.java:70-103 | Refinement.Refine with is_equivalent: the same states, in non-empty groups |
| JavaDfa.DFA.Minimize | src/DFA.java:105-133 | the numbered lines from [non-final, final] without "?", refined until the group count repeats |
| JavaEpsilon.GetEpsilonClosure | src/AutomataConverter.java:255-278 | the least 'e'-closed set holding the state |
| JavaEpsilon.LinkTargets | src/AutomataConverter.java:243-249 | an edge on the symbol to the converted state of each name in the set; FINAL originals become final |
| JavaEpsilon.LinkStep | src/AutomataConverter.java:243-249 | one round keeps LinkInv |
| JavaEpsilon.LinkOne | src/AutomataConverter.java:244-248 | the edge to the converted state is added |
| JavaEpsilon.MarkFinal | src/AutomataConverter.java:247-248 | the converted state becomes final exactly when its original is FINAL |
| JavaEpsilon.EliminateSymbol | src/AutomataConverter.java:229-249 | the set linked is exactly Step of the source state on the symbol |
| JavaEpsilon.EliminateStep | src/AutomataConverter.java:229-250 | one symbol keeps ElimInv and leaves the source graph unchanged |
| JavaEpsilon.LinkSymbol | src/AutomataConverter.java:230-249 | EliminateSymbol keeps ElimInv and Untouched |
| JavaEpsilon.EliminateState | src/AutomataConverter.java:229-250 | every symbol's step set is linked from the converted state |
| JavaEpsilon.Start | src/AutomataConverter.java:223-226 | a new automaton holding only its initial state, named like the source's |
| JavaEpsilon.ConvertStep | src/AutomataConverter.java:227-251 | the converted state named like the k-th source state gets its step sets |
| JavaEpsilon.Advance | src/AutomataConverter.java:228-250 | getStateByName and then the alphabet loop keep Converted |
| JavaEpsilon.Lookup | src/AutomataConverter.java:228 | a state getStateByName makes has no edges and a new name |
| JavaEpsilon.EliminateInto | src/AutomataConverter.java:229-250 | every converted state carries the edges of the first k + 1 source states of its name |
| JavaEpsilon.ConvertToNfa | src/AutomataConverter.java:222-253 | NullPointerException exactly without an initial state; otherwise each converted state has exactly the step-set edges of the source states of its name |
| JavaEpsilon.ConvertFrom | src/AutomataConverter.java:224-252 | the same, past the initial-state lookup |
| JavaEpsilon.ConvertAll | src/AutomataConverter.java:227-251 | every source state, in list order, handled by ConvertStep |
| JavaConverter.Without | src/AutomataConverter.java:99 | LinkedHashSet.remove: the others kept, in order |
| JavaConverter.WithoutHead | src/AutomataConverter.java:293 | a duplicate-free list loses exactly its head |
| JavaConverter.WithoutAbsent | src/AutomataConverter.java:99 | removing an absent state changes nothing |
| JavaConverter.MembersGrow | src/AutomataConverter.java:89 | appending keeps the members |
| JavaConverter.IsStateExist | src/AutomataConverter.java:298-304 | true exactly when some pool member has the name of s |
| JavaConverter.AddLoops | src/AutomataConverter.java:106-110 | the dead state loops on every symbol, and each joins the DFA's alphabet object |
| JavaConverter.SharingDfa | src/AutomataConverter.java:38-42 | the DFA shares the NFA's alphabet object, which loses 'e' for both |
| JavaConverter.CopyFinalNames | src/AutomataConverter.java:99-103 | after a round, the DFA finals gain the copy exactly when the state is final |
| JavaConverter.AutomataConverter.constructor | src/AutomataConverter.java:13-20 | an empty table, empty pools, no dead state |
| JavaConverter.AutomataConverter.AddTableRow | src/AutomataConverter.java:114-141 | the state is handled and one row is appended: the state, then one cell per symbol |
| JavaConverter.AutomataConverter.RowCells | src/AutomataConverter.java:119-138 | one cell per symbol, each valid for its targets |
| JavaConverter.AutomataConverter.RowStep | src/AutomataConverter.java:120-137 | one more cell keeps the row valid |
| JavaConverter.AutomataConverter.NextCell | src/AutomataConverter.java:121-137 | a new dead state (setting the flag), the one target (appended unless handled or pending), or CreateCombinedState |
| JavaConverter.AutomataConverter.ProcessUnhandledStates | src/AutomataConverter.java:280-296 | the row of the first pending state is added before it leaves the list, until none is pending or fuel runs out |
| JavaConverter.AutomataConverter.HandleNext | src/AutomataConverter.java:282-293 | the first pending state's row is appended, and then it leaves the list |
| JavaConverter.AutomataConverter.AddPhiRow | src/AutomataConverter.java:306-313 | a row of alphabet size + 1 cells, all one new dead state |
| JavaConverter.AutomataConverter.EliminateEpsilon | src/AutomataConverter.java:23-26 | with hasEpsilon set, the NFA is replaced by ConvertToNfa's result; false when that throws |
| JavaConverter.AutomataConverter.ConvertToDfaTable | src/AutomataConverter.java:22-35 | NullPointerException exactly when there is no initial state and the NFA has epsilon moves or any symbol; otherwise the table, first the initial state's row, every row with one cell per symbol, the dead row last when the flag is set |
| JavaConverter.AutomataConverter.BuildTable | src/AutomataConverter.java:27-34 | the table body after epsilon elimination |
| JavaConverter.AutomataConverter.NextTarget | src/AutomataConverter.java:83-97 | the dead state (setting the flag), the one target (appended unless handled), or CreateCombinedState |
| JavaConverter.AutomataConverter.FillRow | src/AutomataConverter.java:82-98 | the DFA copy gets exactly one transition per symbol, to the chosen target |
| JavaConverter.AutomataConverter.FillStep | src/AutomataConverter.java:83-97 | one more symbol keeps Filling |
| JavaConverter.AutomataConverter.DfaStep | src/AutomataConverter.java:77-104 | one round keeps Building and moves the first pending state to handled |
| JavaConverter.AutomataConverter.PlaceCopy | src/AutomataConverter.java:99-103 | the copy joins the DFA and Building holds again |
| JavaConverter.AutomataConverter.BuildingAfter | src/AutomataConverter.java:77-104 | a round leaves Building, with the copy's objects in the frame |
| JavaConverter.AutomataConverter.HandleState | src/AutomataConverter.java:78-100 | the copy is built while the state is pending; then it leaves the list and is handled |
| JavaConverter.AutomataConverter.BuildRow | src/AutomataConverter.java:80-98 | a fresh copy named like the state, filled by FillRow |
| JavaConverter.AutomataConverter.AddCopy | src/AutomataConverter.java:101-103 | the copy is added by name, and becomes final whenever the state is final |
| JavaConverter.AutomataConverter.StartDfa | src/AutomataConverter.java:49-75 | the initial copy is the DFA's first and initial state, final exactly when the start is, with its row filled |
| JavaConverter.AutomataConverter.SeedDfa | src/AutomataConverter.java:49-54 | the copy is the only state, initial, and final when the start is |
| JavaConverter.AutomataConverter.StartBuilding | src/AutomataConverter.java:55-75 | Building holds after the initial row |
| JavaConverter.AutomataConverter.BuildDfa | src/AutomataConverter.java:49-111 | the DFA after at most fuel rounds, with the guarantees of Finish |
| JavaConverter.AutomataConverter.Explore | src/AutomataConverter.java:49-104 | the initial copy, then the worklist, keeping Building |
| JavaConverter.AutomataConverter.RunWorklist | src/AutomataConverter.java:77-104 | the rounds keep Building and leave the NFA and the alphabet objects as they were |
| JavaConverter.AutomataConverter.AddPhi | src/AutomataConverter.java:106-110 | the dead state joins the DFA with a self-loop on every symbol |
| JavaConverter.AutomataConverter.Finish | src/AutomataConverter.java:106-111 | every non-dead state has one transition per symbol, and when done every target is named by a DFA state |
| JavaConverter.AutomataConverter.ConvertToDfa | src/AutomataConverter.java:37-112 | the DFA shares the NFA's alphabet object, from which 'e' is removed; NullPointerException exactly without an initial state; otherwise one transition per symbol in every non-dead state, and the initial copy is final exactly when the start is |
| JavaConverter.AutomataConverter.AnyFinal | src/AutomataConverter.java:169-174 | true exactly when some constituent is FINAL |
| JavaConverter.AutomataConverter.FindHandled | src/AutomataConverter.java:193-196 | a handled state of that name, or none exactly when there is none |
| JavaConverter.AutomataConverter.FindPending | src/AutomataConverter.java:197-200 | the first pending state of that name, or none exactly when there is none |
| JavaConverter.AutomataConverter.CreateCombinedState | src/AutomataConverter.java:162-212 | named TreeSetName; a handled, else a pending, state of that name is returned unchanged; otherwise a fresh pending state uniting the constituents' transitions, final exactly when one is FINAL |
| JavaConverter.AutomataConverter.NewCombined | src/AutomataConverter.java:202-211 | a fresh pending state of that name, final when asked, uniting the constituents' transitions |

## Left out

- `ConvertToDfa` (Python and Java), `BuildDfa`, `RunWorklist`, `Explore` and both `ProcessUnhandledStates`
  run the worklist for at most `fuel` rounds and report whether it emptied. No lemma proves that enough fuel
  always empties it. The guarantee that every target is a DFA state is therefore stated only under `done`.
- `Minimize` (PyDfa.DFA, Partition) and `JavaDfa.MinimizeLines` (with `JavaDfa.DFA.Minimize`) also run for at
  most `fuel` rounds and return `None` exactly when the exit test was not met within them. No fuel bound
  suffices in general: both loops can cycle for ever (see Findings). Their results are stated for the rounds
  that ran.
- `Minimize` (Partition and PyDfa) records each partition as the step built it. A carried singleton group is
  the same Python list in both partitions, and a later append grows the earlier copy too. The returned list
  can hold such grown groups; the model does not show this. `Refinement.Refine` does model the alias
  (its `cur`), and `JavaDfa.Printed` does use it.
- Python set and Java HashSet iteration order: the model leaves it as an unspecified choice.
  - It covers the alphabet loops, the pending pool's `pop()`, and the loop over the epsilon set.
  - The contracts hold for every order.
- Printing and string forms are left out. This covers `__str__`, `toString`, `print_minimization`, and the
  "already exist" messages of the Java `addState`/`addStates`. `Graph.TransitionText` is the one exception.
- The Java `removeAllTransitionsForAlphabet` and `getRemainingStates`: no caller reaches them.
- The `minimized` flag of both converters: nothing reads it.
- `State.java` and `Transition.java` are not part of this model. The Java model assumes they behave like the
  Python classes: `addTransition` skips an equal edge, and states are compared by identity.
- `convert_minimization_to_DFA` is modelled on values in `Merge` (state indices and edge lists). It is not
  modelled on the heap classes. Its corrected form is given only as the abstract quotient (`QuotientNext`).
- `get_alphabets` returns a copy of the set. The model reads the set itself.
- Epsilon elimination and the closure are stated within a caller-supplied set of states `U`. `U` must be
  closed under transitions and hold the automaton's states; every automaton built by the public operations
  has one.
- The callers, `main.py`, the Java `Main`/`NFAText`, the graph drawing, the DFA text reader, and file reading
  are not part of this model. The text reader receives its lines as a value.
- `NfaText.GetTransitions` builds a new dictionary rather than reassigning the values in place, and it does
  not model dictionary insertion order. The keys and values are the same.

## Findings

| source | as written | input that shows it | evidently intended | confidence | as-written member | corrected member |
|---|---|---|---|---|---|---|
| automata/dfa.py:106 | The loop stops only when a step keeps the group count. A carried singleton list is shared, and appending to it lets the refinement undo its own splits. | states 0..4, finals {1, 4}, successors on (0, 1): 0→(4,4), 1→(2,3), 2→(3,3), 3→(4,3), 4→(1,3). The partitions alternate P0 → P1 → P0 with 2 and 3 groups. | Moore refinement on fresh lists: every class lies inside a previous group, and the loop ends within \|states\| steps on a stable partition. | not executed | MooreFinding.AsWrittenNeverReturns | Moore.MinimizeCorrected |
| src/DFA.java:123 | The Java loop has the same exit test. It carries singleton lists into the next partition just as Python does. | the same five-state DFA. The Java step also alternates P0 → P1 → P0. | as for automata/dfa.py:106 | not executed | MooreFinding.JavaAsWrittenNeverReturns | Moore.MinimizeCorrected |
| automata/dfa.py:162 | A merged member's transition into a merged state is sent to the group of `state`, the member itself. It should go to the group of its target. | A→C, B→D, C→C, D→D on "a", finals {C, D}, groups {A, B}, {C, D}. AB loops to itself on "a", so "a" is lost. | Send the edge to the group of the transition's target: the quotient accepts exactly the original language. | not executed | Merge.AsWrittenLosesWord | Merge.QuotientAccepts |
| automata/dfa.py:139 | A kept single state calls `state.remove_transition`, and State has no such method. | any partition with a single-state group whose state has a transition into a merged group: AttributeError. | Redirect the edge. Only the abstract quotient step `QuotientNext` is given; no crash-free conversion on the heap is modelled. | not executed | Merge.ConvertFails | Merge.QuotientFollows |
| automata/automata_converter.py:18 | `self.nfa.has_epsilon()` calls the bool attribute the NFA constructor set over the method. | any NFA: TypeError before anything is built. | Read `has_epsilon` as a flag, as `convert_to_dfa` does at line 34. | not executed | PyConverter.AutomataConverter.ConvertToDfaTable | PyConverter.AutomataConverter.ConvertToDfaTableIntended |
