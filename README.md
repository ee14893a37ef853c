# Finite automata of `tp1.automatas`, modelled in Dafny

This project models the core of the finite-automaton library in `tp1.automatas`. It has three parts:

- **`Alphabet`.** A mutable set of characters with add, remove, membership, search and union. Union shares its set with the alphabet it returns.
- **`DFA`.** A deterministic automaton. It covers:
  - construction from (source, symbol, destination) triples;
  - cloning;
  - acceptance by following the unique arcs;
  - the representation invariant `repOk`;
  - the complement, which flips every final flag;
  - `union`, which builds an ε-automaton and hands it to `toDFA`;
  - `intersection`, the complement of the union of the complements.
- **`NFALambda`.** An automaton with ε-moves. It covers:
  - construction;
  - acceptance by a depth-first search over (state, position) configurations;
  - `repOk`;
  - the ε-closure computed with a work queue;
  - `toDFA`, the subset construction. In the source it is a stub that returns null; the model follows its documentation.

The modules are:

- `States` (`states.dfy`). A `State` is a record of a name and the initial and final flags. A `StateSet` is a sequence of states with unique names.
- `Automata` (`automata.dfy`). Holds what both automata share through their base class `FA`:
  - the transition relation, a map from a state name to a map from `Option<char>` to a `StateSet`, where `None` is ε;
  - triples;
  - error kinds;
  - the `delta` lookup.
- `DFAs` (`dfa.dfy`).
- `NFALambdas` (`nfa.dfy`).
- `DFAUnion` (`union.dfy`), the ε-automaton `union` builds.
- `SubsetConstruction` (`todfa.dfy`), `toDFA` and `buildTransitions`: a worklist of ε-closed subsets of states, one DFA state per subset.
- `DFAOperations` (`operations.dfy`), `union` and `intersection` end to end, and the completion of a partial DFA that makes complement and intersection exact.
- `Alphabets` (`alphabet.dfy`), a class whose methods update a shared `CharSet` object in place.

The two automata are values, since their fields are only assigned in the constructors. The constructors and the other loops that build sets or maps are methods, with loop invariants. Each loop is proved against a predicate or function that states what it builds. Language membership has an independent definition for each automaton:

- for a DFA, the run from the initial state;
- for an ε-automaton, reachability of an accepting configuration.

The main results are:

- `accepts` decides membership in that language, for both automata;
- `repOk` is exactly the representation invariant;
- the complement of a well-formed DFA accepts exactly the defined runs the original rejects;
- the ε-automaton built by `union` recognises the union of the operands' languages;
- the ε-closure is the least ε-closed set above its queue;
- the subset construction yields a well-formed DFA with the ε-automaton's language;
- `union` yields a well-formed DFA for the union of the languages;
- `intersection` as written is exact only when both operands are total over the joined alphabet. With the operands completed over that alphabet first, it yields exactly the intersection of the languages.

## Model

| member | source | states |
|---|---|---|
| States.BelongTo | src/main/java/tp1/automatas/DFA.java:27 | the state found has the requested name and is a member; none is found exactly when no member has that name |
| States.BelongToUnique | src/main/java/tp1/automatas/DFA.java:27 | when names are unique, looking a member up by its name finds that very member |
| States.AddState | src/main/java/tp1/automatas/NFALambda.java:39 | adding keeps names unique, adds the state's name, and adds the state itself only when its name was absent |
| States.InitialState | src/main/java/tp1/automatas/DFA.java:89 | the state found is a member flagged initial; none is found exactly when no state is flagged initial |
| States.CountInitialOne | src/main/java/tp1/automatas/DFA.java:118-128 | counting initial flags gives one exactly when a single state is initial |
| States.CountInitials | src/main/java/tp1/automatas/DFA.java:118-128 | the counting loop returns the number of initial states, which is one exactly when a single state is initial |
| States.AllMembers | src/main/java/tp1/automatas/DFA.java:146-149 | the loop returns true exactly when every destination is a member of the state set |
| States.InitialStateOfOne | src/main/java/tp1/automatas/DFA.java:89 | with exactly one initial state, the initial-state lookup finds it |
| States.NatToStringInjective | src/main/java/tp1/automatas/DFA.java:261 | different numbers have different decimal texts |
| States.IndexNameInjective | src/main/java/tp1/automatas/DFA.java:258-282 | the names "q" + i given by union are distinct for distinct i, and none is the fresh initial name q' |
| Automata.Lookup | src/main/java/tp1/automatas/DFA.java:92-96 | a lookup returns stored destinations only for a stored (state, symbol) pair; a missing entry is empty, not an exception |
| Alphabets.CharSet.constructor | src/main/java/tp1/automatas/Alphabet.java:17 | a new symbol set is empty |
| Alphabets.Alphabet.Empty | src/main/java/tp1/automatas/Alphabet.java:16-18 | the no-argument constructor wraps a fresh, empty set |
| Alphabets.Alphabet.Of | src/main/java/tp1/automatas/Alphabet.java:20-22 | the set constructor wraps the given set itself, not a copy |
| Alphabets.Alphabet.AddSymbol | src/main/java/tp1/automatas/Alphabet.java:24-32 | returns true iff the symbol was absent; afterwards it is present, nothing else changed, and adding a present symbol changes nothing |
| Alphabets.Alphabet.RemoveSymbol | src/main/java/tp1/automatas/Alphabet.java:34-41 | returns true iff the symbol was present; afterwards it is absent, nothing else changed |
| Alphabets.Alphabet.BelongTo | src/main/java/tp1/automatas/Alphabet.java:43-50 | exactly set membership, with no change |
| Alphabets.Alphabet.Union | src/main/java/tp1/automatas/Alphabet.java:52-57 | the receiver's set becomes the old set joined with the other's, and the returned alphabet shares that same set |
| Alphabets.Alphabet.Contains | src/main/java/tp1/automatas/Alphabet.java:64-68 | the search loop returns true iff some stored symbol equals the argument |
| Alphabets.AddRemove | src/main/java/tp1/automatas/Alphabet.java:24-41 | adding then removing a symbol removes it from the set, and both calls return true exactly when it was absent at first |
| DFAs.NewDFA | src/main/java/tp1/automatas/DFA.java:14-52 | construction succeeds iff every triple has a known source, a non-ε symbol and no other triple with the same (source, symbol); then each triple's pair stores exactly the singleton of its destination and no other pair is stored; a failure names a violation some triple commits |
| DFAs.AddDeterministic | src/main/java/tp1/automatas/DFA.java:38-45 | a triple whose (source, symbol) pair is not stored yet keeps the accepted triples deterministic |
| DFAs.AddSingleton | src/main/java/tp1/automatas/DFA.java:38-45 | storing the singleton of a new pair keeps the relation exactly the arcs of the accepted triples |
| DFAs.Accepts | src/main/java/tp1/automatas/DFA.java:82-104 | fails on characters outside the alphabet or without an initial state; otherwise returns whether the run from the initial state is defined on the whole string and ends in a final state |
| DFAs.RunAppend | src/main/java/tp1/automatas/DFA.java:90-102 | running u + v is running u and then v from where u ends; a stuck run stays stuck |
| DFAs.RunStaysIn | src/main/java/tp1/automatas/DFA.java:97-98 | in a well-formed DFA every state a run reaches is a member |
| DFAs.StuckPrefixRejects | src/main/java/tp1/automatas/DFA.java:92-101 | once a prefix reaches an undefined transition, no extension of it is defined or accepted |
| DFAs.EmptyString | src/main/java/tp1/automatas/DFA.java:89-103 | the empty string is accepted exactly when the initial state is final |
| DFAs.CheckArcs | src/main/java/tp1/automatas/DFA.java:134-152 | the inner repOk loop returns true iff every label stored for the state is a non-ε alphabet symbol with at most one destination, all of them members |
| DFAs.RepOk | src/main/java/tp1/automatas/DFA.java:112-157 | returns true iff the fields are null, or there is exactly one initial state, every source is a member and every stored arc passes the checks above |
| DFAs.CloneDelta | src/main/java/tp1/automatas/DFA.java:62-80 | the triples returned are exactly, for each member state and alphabet symbol with a stored arc, the arc to its first destination |
| DFAs.SameMovesSameRun | src/main/java/tp1/automatas/DFA.java:90-102 | two relations that make the same single moves make the same runs |
| DFAs.CloneMoves | src/main/java/tp1/automatas/DFA.java:54-80 | on a well-formed DFA, the relation rebuilt from the cloned triples makes the same moves as the original |
| DFAs.CloneDFA | src/main/java/tp1/automatas/DFA.java:54-60 | with unique names the clone is built; it keeps states and alphabet, and on a well-formed DFA it makes the same moves |
| DFAs.FlippedInitial | src/main/java/tp1/automatas/DFA.java:173-180 | flipping final flags keeps the number of initial states and flips the initial state found |
| DFAs.FlippedNames | src/main/java/tp1/automatas/DFA.java:173-180 | flipping final flags keeps the names and their uniqueness, and maps members to members |
| DFAs.FlippedRun | src/main/java/tp1/automatas/DFA.java:185-210 | if each move of the new relation is the flipped move of the old, so is each run |
| DFAs.ComplementMoves | src/main/java/tp1/automatas/DFA.java:185-212 | the relation built from the complement's triples moves, between flipped states, exactly as the original moves |
| DFAs.ComplementArcOk | src/main/java/tp1/automatas/DFA.java:185-212 | every arc the complement stores passes the repOk checks |
| DFAs.ComplementValid | src/main/java/tp1/automatas/DFA.java:165-213 | the complement of a well-formed DFA is well formed |
| DFAs.Complement | src/main/java/tp1/automatas/DFA.java:165-213 | with unique names the result is built and has the same alphabet; its states are the originals with final flags negated; on a well-formed DFA it is well formed, moves as the original does, is defined on the same strings, and accepts exactly the defined strings the original rejects; the argument is a value and so is untouched |
| DFAs.FlipArcsFrom | src/main/java/tp1/automatas/DFA.java:192-209 | the inner loop adds, for one state, the flipped copy of each of its arcs and nothing else |
| DFAs.ComplementDeterministic | src/main/java/tp1/automatas/DFA.java:185-210 | with unique names, the flipped arcs leave each state at most once per symbol, so the constructor accepts them |
| NFALambdas.TargetOf | src/main/java/tp1/automatas/NFALambda.java:39 | each triple's destination is among the destinations of its (source, symbol) pair |
| NFALambdas.AddArc | src/main/java/tp1/automatas/NFALambda.java:30-41 | adding one triple's destination to the set of its pair keeps the relation exactly the destinations of the accepted triples |
| NFALambdas.NewNFALambda | src/main/java/tp1/automatas/NFALambda.java:15-49 | construction succeeds iff every triple's source is a known state; then the set stored for each (source, symbol) pair, ε included, holds one destination per name the triples reach, each a destination of such a triple, and the stored pairs are exactly the triples' pairs |
| NFALambdas.StoredExactly | src/main/java/tp1/automatas/NFALambda.java:30-41 | when destinations of one pair have distinct names, the stored set is exactly the triples' destinations |
| NFALambdas.LookupExactly | src/main/java/tp1/automatas/NFALambda.java:30-41 | under the same condition, a lookup yields exactly the triples' destinations, and nothing for a pair no triple has |
| NFALambdas.At | src/main/java/tp1/automatas/NFALambda.java:77-79 | the configurations for a set of destinations at a position are exactly those states at that position |
| NFALambdas.StepCases | src/main/java/tp1/automatas/NFALambda.java:70-90 | a move either follows an ε-arc and keeps the position, or follows an arc on the next character and advances by one |
| NFALambdas.EpsilonMove | src/main/java/tp1/automatas/NFALambda.java:70-79 | every ε-destination is a move at the same position |
| NFALambdas.SymbolMove | src/main/java/tp1/automatas/NFALambda.java:81-90 | every destination on the next character is a move to the next position |
| NFALambdas.ReachStaysIn | src/main/java/tp1/automatas/NFALambda.java:61-91 | a run never leaves a set of configurations that no move leaves |
| NFALambdas.PushAll | src/main/java/tp1/automatas/NFALambda.java:77-79 | a push loop marks the destination configurations visited and pushes exactly the ones not visited before, on top of the old stack |
| NFALambdas.InSpace | src/main/java/tp1/automatas/NFALambda.java:66-67 | the search space is the configurations of the known states at positions up to the input's length |
| NFALambdas.StepInSpace | src/main/java/tp1/automatas/NFALambda.java:82-90 | a move from a position within the input stays within the input: no configuration past the end is pushed |
| NFALambdas.Expand | src/main/java/tp1/automatas/NFALambda.java:70-90 | one expansion marks every move from the popped configuration visited and pushes exactly the new ones |
| NFALambdas.ExpandKeeps | src/main/java/tp1/automatas/NFALambda.java:61-91 | expanding a non-accepting configuration keeps the search invariant: visited configurations are reachable and are expanded or still on the stack |
| NFALambdas.Shrinks | src/main/java/tp1/automatas/NFALambda.java:61-91 | the search terminates: each new visit shrinks the unvisited part of the finite space |
| NFALambdas.Accepts | src/main/java/tp1/automatas/NFALambda.java:51-94 | fails on characters outside the alphabet or without an initial state; otherwise returns true iff a run of ε-moves and symbol moves from the initial state reads the whole string and ends in a final state |
| NFALambdas.Pushes | src/main/java/tp1/automatas/NFALambda.java:77-79 | the loop as written pushes one configuration per destination, in order |
| NFALambdas.SearchAsWrittenDiverges | src/main/java/tp1/automatas/NFALambda.java:61-91 | the loop as written, on an ε-self-loop and the empty input, runs for any number of iterations, though the string is not in the language |
| NFALambdas.CheckArcs | src/main/java/tp1/automatas/NFALambda.java:127-138 | the inner repOk loop returns true iff every non-ε label stored for the state is in the alphabet and every destination is a member |
| NFALambdas.RepOk | src/main/java/tp1/automatas/NFALambda.java:101-144 | returns true iff the fields are null, or there is exactly one initial state, every source is a member, every non-ε label is in the alphabet and every destination is a member |
| NFALambdas.ConstructedValid | src/main/java/tp1/automatas/NFALambda.java:15-49 | the constructor yields a well-formed automaton when there is one initial state and every triple joins member states on an alphabet symbol or ε |
| NFALambdas.SkipKeeps | src/main/java/tp1/automatas/NFALambda.java:181-184 | polling a state already in the result keeps the closure invariant |
| NFALambdas.AddKeeps | src/main/java/tp1/automatas/NFALambda.java:181-191 | polling a new state, adding it and enqueueing its ε-destinations keeps the closure invariant and shrinks the names left to add |
| NFALambdas.Closure | src/main/java/tp1/automatas/NFALambda.java:171-198 | the result has unique names, holds every queued state's name, is closed under ε-arcs, and lies within every ε-closed set above the queue |
| NFALambdas.ClosureReachable | src/main/java/tp1/automatas/NFALambda.java:171-198 | the closure holds only names of states ε-reachable from the queue |
| NFALambdas.ReachedIsLeast | src/main/java/tp1/automatas/NFALambda.java:171-198 | every ε-closed set above the queue holds every ε-reachable name, so closure and reachability agree |
| NFALambdas.ClosureAsWrittenDiverges | src/main/java/tp1/automatas/NFALambda.java:180-194 | the loop as written, from an ε-self-loop, polls and re-enqueues the same state for any number of iterations |
| DFAUnion.IndexNaming | src/main/java/tp1/automatas/DFA.java:258-282 | the names "q" + i are a good naming: distinct numbers get distinct names, none of them q' |
| DFAUnion.CopiesNames | src/main/java/tp1/automatas/DFA.java:258-282 | no copy numbered outside an operand's range carries the name of a number outside it |
| DFAUnion.CopyStates | src/main/java/tp1/automatas/DFA.java:258-282 | the state loop appends each state's copy, with initial cleared and final kept, and keeps names unique; it adds an ε-arc from q' to the copy of each initial state; it records each state's new name |
| DFAUnion.CopyArcs | src/main/java/tp1/automatas/DFA.java:284-304 | the arc loops add, for every state and alphabet symbol with a defined move, the arc between the copies of its ends, and nothing else |
| DFAUnion.CopyArcsFrom | src/main/java/tp1/automatas/DFA.java:285-292 | the inner arc loop adds exactly the copied arcs leaving one state |
| DFAUnion.UnionNamesUnique | src/main/java/tp1/automatas/DFA.java:249-282 | q' and the copies of both operands have unique names |
| DFAUnion.UnionTriplesFit | src/main/java/tp1/automatas/DFA.java:284-305 | every union triple leaves a union state, enters one, and is labelled ε or by a symbol of the joint alphabet |
| DFAUnion.UnionNFA | src/main/java/tp1/automatas/DFA.java:236-305 | the ε-automaton built has q' and the renamed copies as states and the joined alphabet, and stores exactly the ε-arcs and copied arcs; it is well formed; for well-formed operands it accepts exactly the strings either operand accepts |
| DFAUnion.UnionLookup | src/main/java/tp1/automatas/DFA.java:284-305 | a lookup in the union automaton yields exactly the destinations of the union triples |
| DFAUnion.UnionBuilt | src/main/java/tp1/automatas/DFA.java:284-305 | the same for every lookup at once |
| DFAUnion.InitTargets | src/main/java/tp1/automatas/DFA.java:265-267 | from q' the only moves are ε-arcs to copies of the operands' initial states |
| DFAUnion.CopyTargets | src/main/java/tp1/automatas/DFA.java:284-304 | from a copied state the only moves are the copies of the operand's own moves |
| DFAUnion.LeavingCopy | src/main/java/tp1/automatas/DFA.java:284-304 | a copied arc leaving the copy of an operand's state is labelled by a symbol, and leads to the copy of the state that symbol moves it to |
| DFAUnion.StepFromInit | src/main/java/tp1/automatas/DFA.java:265-267 | every move of the union automaton from its start keeps tracking an operand's run |
| DFAUnion.StepFromCopy | src/main/java/tp1/automatas/DFA.java:284-304 | every move from a copy of an operand's state keeps tracking that operand's run |
| DFAUnion.TrackedAccepts | src/main/java/tp1/automatas/DFA.java:262-264 | an accepting configuration that tracks an operand's run shows that the operand accepts |
| DFAUnion.UnionOnlyOperands | src/main/java/tp1/automatas/DFA.java:241-305 | every string the union automaton accepts is accepted by one of the operands |
| DFAUnion.ArcCopied | src/main/java/tp1/automatas/DFA.java:284-304 | every arc of an operand appears, between the copies of its ends, among the union triples |
| DFAUnion.ReachStart | src/main/java/tp1/automatas/DFA.java:265-267 | the union automaton reaches the copy of each operand's initial state without reading |
| DFAUnion.ReachCopy | src/main/java/tp1/automatas/DFA.java:284-304 | after the first p characters, the union automaton reaches the copy of the state the operand's run reaches |
| DFAUnion.RunLast | src/main/java/tp1/automatas/DFA.java:90-102 | the state a run reaches after p + 1 characters follows, by the last character, the state it reaches after p |
| DFAUnion.UnionHasOperands | src/main/java/tp1/automatas/DFA.java:241-305 | every string an operand accepts is accepted by the union automaton |
| DFAUnion.UnionLanguage | src/main/java/tp1/automatas/DFA.java:241-305 | the union automaton's language is exactly the union of the operands' languages |
| SubsetConstruction.ValidProper | src/main/java/tp1/automatas/NFALambda.java:101-144 | a well-formed ε-automaton has an initial state, keeps its destinations among its states, and labels arcs by ε or by alphabet symbols |
| SubsetConstruction.ECloseHas | src/main/java/tp1/automatas/NFALambda.java:171-198 | the ε-closure of a set holds every member state of that set |
| SubsetConstruction.ECloseStep | src/main/java/tp1/automatas/NFALambda.java:171-198 | the ε-closure is closed under ε-arcs |
| SubsetConstruction.WalkInit | src/main/java/tp1/automatas/NFALambda.java:61-67 | the initial state is reachable before any character is read |
| SubsetConstruction.WalkEps | src/main/java/tp1/automatas/NFALambda.java:70-79 | the states reachable after p characters are closed under ε-arcs |
| SubsetConstruction.WalkSym | src/main/java/tp1/automatas/NFALambda.java:81-90 | an arc on character p from a state reachable after p characters leads to a state reachable after p + 1 |
| SubsetConstruction.EpsPathRuns | src/main/java/tp1/automatas/NFALambda.java:70-79 | following a path of ε-arcs is a run of the search that stays at one position |
| SubsetConstruction.StepInWalk | src/main/java/tp1/automatas/NFALambda.java:61-91 | every move of the search from a reachable configuration lands in a reachable configuration |
| SubsetConstruction.WalkedClosed | src/main/java/tp1/automatas/NFALambda.java:61-91 | the configurations reachable character by character form a set that no move leaves |
| SubsetConstruction.ReachedInWalk | src/main/java/tp1/automatas/NFALambda.java:61-91 | every configuration the search reaches holds a state reachable after that many characters |
| SubsetConstruction.WalkSourceInit | src/main/java/tp1/automatas/NFALambda.java:61-79 | a state reachable before any character is read is ε-reachable from the initial state |
| SubsetConstruction.WalkSource | src/main/java/tp1/automatas/NFALambda.java:61-91 | a state reachable after p > 0 characters comes from a state reachable after p - 1, by an arc on character p and then ε-arcs |
| SubsetConstruction.EpsReachesRuns | src/main/java/tp1/automatas/NFALambda.java:70-79 | ε-reachability extends a run of the search at the same position |
| SubsetConstruction.WalkReached | src/main/java/tp1/automatas/NFALambda.java:61-91 | every state reachable after p characters is reached by the search at position p |
| SubsetConstruction.AcceptsIffFinal | src/main/java/tp1/automatas/NFALambda.java:51-94 | a string is in the ε-automaton's language iff a final state is among the states reachable after reading all of it |
| SubsetConstruction.WalkBack | src/main/java/tp1/automatas/NFALambda.java:81-90 | a state reachable after p > 0 characters means character p is an alphabet symbol and some state is reachable after p - 1 |
| SubsetConstruction.WalkOverAlphabet | src/main/java/tp1/automatas/NFALambda.java:81-90 | if some state is reachable after p characters, those characters are all alphabet symbols |
| SubsetConstruction.ReachedInEClose | src/main/java/tp1/automatas/NFALambda.java:171-198 | every state whose name the closure reaches from a queue is in the ε-closure of the queue |
| SubsetConstruction.ECloseInClosed | src/main/java/tp1/automatas/NFALambda.java:171-198 | the ε-closure of a queue lies inside every ε-closed set of names above it |
| SubsetConstruction.ClosureIsEClose | src/main/java/tp1/automatas/NFALambda.java:171-198 | the states the closure loop returns are exactly the ε-closure of the queue |
| SubsetConstruction.MoveQueue | src/main/java/tp1/automatas/NFALambda.java:158-169 | the move loop queues exactly the states one arc on the symbol leads to from the subset |
| SubsetConstruction.Find | src/main/java/tp1/automatas/NFALambda.java:158-169 | returns the index of a discovered subset with the same states, or the number of subsets when there is none |
| SubsetConstruction.DiscoverNew | src/main/java/tp1/automatas/NFALambda.java:158-169 | appending a subset of the states that is not yet discovered keeps the discovered subsets distinct, within the states, and led by the initial closure |
| SubsetConstruction.LinkedGrow | src/main/java/tp1/automatas/NFALambda.java:158-169 | discovering more subsets keeps every arc computed so far |
| SubsetConstruction.LinkArc | src/main/java/tp1/automatas/NFALambda.java:158-169 | linking subset i on c to the subset that holds the ε-closure of its move keeps the arc invariant, with c done |
| SubsetConstruction.BuildTransitions | src/main/java/tp1/automatas/NFALambda.java:158-169 | for subset i and each alphabet symbol, records an arc to the subset holding the ε-closure of the move, appending that subset when it is new; the discovered subsets stay distinct and only grow |
| SubsetConstruction.FoundGrows | src/main/java/tp1/automatas/NFALambda.java:146-155 | each new subset shrinks the undiscovered part of the finite powerset of the states, so the worklist ends |
| SubsetConstruction.HasFinalIff | src/main/java/tp1/automatas/NFALambda.java:146-155 | a subset state is final iff the subset holds a final state |
| SubsetConstruction.RepStates | src/main/java/tp1/automatas/NFALambda.java:146-155 | the DFA has one state per discovered subset, in discovery order |
| SubsetConstruction.RepDeterministic | src/main/java/tp1/automatas/NFALambda.java:146-155 | the arcs between subset states leave each state at most once per symbol and never on ε, so the DFA constructor accepts them |
| SubsetConstruction.RepStatesShape | src/main/java/tp1/automatas/NFALambda.java:146-155 | the subset states have unique names and one initial state, the one for the initial closure |
| SubsetConstruction.LinkedIndexed | src/main/java/tp1/automatas/NFALambda.java:158-169 | once every subset is linked, each (subset, alphabet symbol) has an arc, and each arc joins discovered subsets |
| SubsetConstruction.RepSource | src/main/java/tp1/automatas/NFALambda.java:146-155 | every source the DFA stores is a subset state |
| SubsetConstruction.RepArc | src/main/java/tp1/automatas/NFALambda.java:146-155 | every arc the DFA stores passes the repOk checks |
| SubsetConstruction.RepArcs | src/main/java/tp1/automatas/NFALambda.java:146-155 | the DFA's sources are its states and all of its arcs pass the repOk checks |
| SubsetConstruction.NextRep | src/main/java/tp1/automatas/NFALambda.java:146-169 | on an alphabet symbol the DFA moves from a subset to the linked subset; outside the alphabet it has no move |
| SubsetConstruction.RunRepStep | src/main/java/tp1/automatas/NFALambda.java:146-169 | one more alphabet character keeps the DFA in the subset of exactly the states the ε-automaton can reach |
| SubsetConstruction.RunRep | src/main/java/tp1/automatas/NFALambda.java:146-169 | on a prefix over the alphabet the DFA's run ends in the subset of exactly the states the ε-automaton reaches on it |
| SubsetConstruction.RunStuck | src/main/java/tp1/automatas/NFALambda.java:146-169 | the DFA's run gets stuck at the first character outside the alphabet |
| SubsetConstruction.SameLanguage | src/main/java/tp1/automatas/NFALambda.java:146-155 | the DFA reads to the end exactly the strings over the alphabet, and accepts exactly the ε-automaton's language |
| SubsetConstruction.ToDFA | src/main/java/tp1/automatas/NFALambda.java:146-155 | the result is a well-formed DFA with unique names over the same alphabet; it reads every string over the alphabet to the end and accepts exactly the strings the ε-automaton accepts |
| DFAOperations.ValidTargets | src/main/java/tp1/automatas/DFA.java:146-149 | a well-formed DFA keeps every destination among its states |
| DFAOperations.RunOverAlphabet | src/main/java/tp1/automatas/DFA.java:90-102 | a run that is defined reads only alphabet symbols |
| DFAOperations.DefinedOverAlphabet | src/main/java/tp1/automatas/DFA.java:83-104 | a string a well-formed DFA reads to the end, and so a string it accepts, is over its alphabet |
| DFAOperations.Union | src/main/java/tp1/automatas/DFA.java:236-308 | the result is a well-formed DFA with unique names over the joined alphabet; it reads every string over that alphabet to the end and accepts exactly the strings either operand accepts |
| DFAOperations.Complement | src/main/java/tp1/automatas/DFA.java:165-213 | with unique names the complement is built and keeps unique names; it is well formed, defined on the same strings, and accepts exactly the defined strings the original rejects |
| DFAOperations.Intersection | src/main/java/tp1/automatas/DFA.java:221-227 | the result is well formed over the joined alphabet; it accepts a string over that alphabet unless an operand reads it to the end and rejects it; when both operands read every such string to the end it accepts exactly the strings both accept |
| DFAOperations.CompleteNext | src/main/java/tp1/automatas/DFA.java:159-164 | the completed DFA has no move outside sigma, stays in the sink, and otherwise moves as the original or falls into the sink |
| DFAOperations.CompleteRun | src/main/java/tp1/automatas/DFA.java:159-164 | the completed DFA's run is undefined exactly off sigma, and otherwise is the original run, or the sink once the original gets stuck |
| DFAOperations.CompleteSound | src/main/java/tp1/automatas/DFA.java:159-164 | the completion is well formed with unique names, reads exactly the strings over sigma to the end, and accepts exactly the original language |
| DFAOperations.ComplementOver | src/main/java/tp1/automatas/DFA.java:159-213 | the complement taken after completion accepts exactly the strings over sigma that the original rejects |
| DFAOperations.IntersectionTotal | src/main/java/tp1/automatas/DFA.java:215-227 | with both complements taken over the joined alphabet, the result accepts exactly the strings both operands accept |
| DFAOperations.ComplementAsWrittenMisses | src/main/java/tp1/automatas/DFA.java:165-213 | a one-state DFA over {a} without arcs accepts nothing, yet its complement as written rejects "a" |
| DFAOperations.IntersectionAsWrittenAccepts | src/main/java/tp1/automatas/DFA.java:221-227 | for the language {"a"} over {a} and b* over {b}, which share no string, the intersection as written accepts "a" |

## Left out

- The Java classes `State`, `StateSet` and `FA` are not part of this model. They are modelled minimally: a `State` record, a `StateSet` sequence with unique names, and the `delta` lookup. Object identity and hashing of `State` keys in the `HashMap` are replaced by keying on the state's name.
- `tp1.utils.DotReader`, the textual automaton format and `toString` are not modelled: they are I/O and formatting.
- `Tupla`, `cloneState`, `cloneSS` and `cloneAlpha` are not part of this model. Cloning is a value copy: the automata are Dafny values and cannot alias.
- Inside `DFA` and `NFALambda` an alphabet is a `set<char>` value. The shared-set behaviour of `Alphabet.union` is modelled only in the `Alphabets` class.
- DFAs.Accepts, NFALambdas.Accepts: an automaton without an initial state is reported as `Err(NoInitialState)` by choice. The Java behaviour there depends on `FA.initialState`, which is not part of this model.
- The null `Character` symbol is `None`, and a null string cannot be passed. The `string == null` exceptions of both `accepts` therefore have no counterpart.
- The boxed-`Character` `==` of `Alphabet.contains` is modelled as value equality. It differs only outside the cached range of boxed characters.
- Exceptions used as "no transition" control flow are modelled as empty lookups. Construction and input failures are an `Err` value.
- DFAs.Complement, DFAs.CloneDFA: a receiver with null fields is excluded by `requires`; in Java it fails with a `NullPointerException`. The constructor failure on repeated state names cannot happen to a `StateSet`, which keeps names unique, and is stated only as "unique names imply success".
- DFAs.Complement: its language result is stated for strings whose run is defined. On a partial DFA, a string whose run gets stuck is rejected by both the original and the complement; flipping flags does not complete the automaton. See Findings.
- DFAUnion.UnionNFA: the operands must have unique state names and keep their destinations among their states. That is what `StateSet` and `repOk` guarantee. Without the second condition Java's `aux1.get` returns null for an unknown destination.
- DFAUnion.UnionNFA: a state with no outgoing arcs is treated as having an empty arc map. In Java, `g` is null there (src/main/java/tp1/automatas/DFA.java:284-286 and :295-297) and `g.containsKey` throws a `NullPointerException`.
- SubsetConstruction.ToDFA: `NFALambda.toDFA` and `buildTransitions` are stubs that return null. The model gives them what their documentation promises: the subset construction over ε-closures. The null DFA the stubs return, and the null dereference it causes in `intersection`, are not modelled. The names "q" + k of the subset states and the order in which subsets are discovered are choices of this model. So is the arc recorded for every (subset, alphabet symbol), even when the ε-closure of the move is empty: the empty subset is kept as a non-final dead state, and the DFA built is total over the alphabet. A construction that records only arcs to non-empty subsets would build a partial DFA with the same language. The stub's comment ("all chars into Alphabet") fits either.
- DFAOperations.Union, DFAOperations.Intersection: they rest on `SubsetConstruction.ToDFA` in place of the `toDFA` stub. The `cloneDFA` calls at their start are value copies.
- The union proofs are stated for any naming of the copies that gives distinct numbers distinct names other than q'. `UnionNFA` instantiates it with "q" + i.
- NFALambdas.Accepts and NFALambdas.Closure use a visited check that the Java loops lack; see Findings. The agreement of the loops as written with the model on ε-acyclic automata is not proved.

## Findings

| source | as written | input that shows it | evidently intended | confidence | as-written member | corrected member |
|---|---|---|---|---|---|---|
| src/main/java/tp1/automatas/NFALambda.java:184-191 | the ε-destinations of every polled state are enqueued (:186-191) whether or not the state is already in the result; the membership test at :184 guards nothing, and removing its stray `;` would only make the add conditional | one state q0 with an ε-arc to itself, closure of [q0]: the queue never empties | skip a polled state already in the result, neither adding nor expanding it again, so each state is expanded once and the loop ends | not executed | NFALambdas.ClosureAsWrittenDiverges | NFALambdas.Closure |
| src/main/java/tp1/automatas/NFALambda.java:61-91 | the depth-first search pushes every successor configuration, visited or not | non-final initial q0 with an ε-arc to itself, input "": q0 at position 0 is popped and pushed forever | search each (state, position) configuration once, which ends on every automaton | not executed | NFALambdas.SearchAsWrittenDiverges | NFALambdas.Accepts |
| src/main/java/tp1/automatas/DFA.java:165-213 | `complement` flips the final flags of a DFA whose transitions may be partial, so a string on which the original gets stuck is rejected by both | one initial, non-final state over {a} with no arcs: neither it nor its complement accepts "a" | complete the DFA with a non-final sink over the alphabet before flipping, so the result accepts every string over the alphabet the original rejects | not executed | DFAOperations.ComplementAsWrittenMisses | DFAOperations.ComplementOver |
| src/main/java/tp1/automatas/DFA.java:221-227 | `intersection` applies De Morgan with each complement taken over its own operand's alphabet and transitions | the language {"a"} over {a} and b* over {b}, which share no string: the result accepts "a", which the first accepts and on which the second gets stuck | complement both operands over the joined alphabet, completed, before the union | not executed | DFAOperations.IntersectionAsWrittenAccepts | DFAOperations.IntersectionTotal |
