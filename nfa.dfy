/**
 * The epsilon-automaton (class NFALambda): construction, acceptance by a depth-first
 * search over (state, position) configurations, the representation invariant and the
 * epsilon-closure.
 */
module NFALambdas {
  import opened Wrappers
  import opened States
  import opened Automata

  /** An NFALambda's three fields; `NullNFA` is the automaton whose fields are all null. */
  datatype NFALambda = NullNFA | NFALambda(states: StateSet, alphabet: set<char>, delta: Delta)

  // ---------------------------------------------------------------------------
  // Construction

  /** The destinations of the triples leaving the state called `n` on `c`. */
  ghost function Targets(ts: set<Triple>, n: string, c: Symbol): set<State> {
    set t | t in ts && t.source.name == n && t.symbol == c :: t.target
  }

  /** A triple's destination is among the destinations stored for its source name and symbol. */
  lemma TargetOf(ts: set<Triple>, tr: Triple)
    requires tr in ts
    ensures tr.target in Targets(ts, tr.source.name, tr.symbol)
  {
  }

  ghost function TargetNames(ts: set<Triple>, n: string, c: Symbol): set<string> {
    set t | t in ts && t.source.name == n && t.symbol == c :: t.target.name
  }

  /** The StateSet stored for (n, c) holds one destination of each name the triples of `ts` reach. */
  ghost predicate PairStored(ds: StateSet, ts: set<Triple>, n: string, c: Symbol) {
    && UniqueNames(ds)
    && Names(ds) == TargetNames(ts, n, c)
    && forall x :: x in ds ==> x in Targets(ts, n, c)
  }

  /** `delta` holds an entry for exactly the (source, symbol) pairs of `ts`. */
  ghost predicate KeysStored(delta: Delta, ts: set<Triple>) {
    && delta.Keys == Sources(ts)
    && (forall n, c :: n in delta && c in delta[n] ==> (n, c) in ArcKeys(ts))
    && (forall t :: t in ts ==> t.source.name in delta && t.symbol in delta[t.source.name])
  }

  /** What the NFALambda constructor stores for the triples `ts`. */
  ghost predicate StoresSets(delta: Delta, ts: set<Triple>) {
    && KeysStored(delta, ts)
    && forall n, c :: n in delta && c in delta[n] ==> PairStored(delta[n][c], ts, n, c)
  }

  lemma AddArcKeys(delta: Delta, done: set<Triple>, t: Triple, arcs: map<Symbol, StateSet>, ds: StateSet)
    requires KeysStored(delta, done)
    requires arcs == if t.source.name in delta then delta[t.source.name] else map[]
    ensures KeysStored(delta[t.source.name := arcs[t.symbol := ds]], done + {t})
  {
    AddTripleKeys(done, t);
  }

  /** A triple for another pair leaves what is stored for (n, c) as it was. */
  lemma OtherPairStored(ds: StateSet, done: set<Triple>, t: Triple, n: string, c: Symbol)
    requires PairStored(ds, done, n, c) && (n, c) != (t.source.name, t.symbol)
    ensures PairStored(ds, done + {t}, n, c)
  {
    assert Targets(done + {t}, n, c) == Targets(done, n, c);
    assert TargetNames(done + {t}, n, c) == TargetNames(done, n, c);
  }

  /** Adding the destination of a new triple for (n, c) keeps the StateSet exact. */
  lemma SamePairStored(current: StateSet, done: set<Triple>, t: Triple)
    requires PairStored(current, done, t.source.name, t.symbol)
    ensures PairStored(AddState(current, t.target), done + {t}, t.source.name, t.symbol)
  {
    var n, c := t.source.name, t.symbol;
    assert Targets(done + {t}, n, c) == Targets(done, n, c) + {t.target};
    assert TargetNames(done + {t}, n, c) == TargetNames(done, n, c) + {t.target.name};
  }

  /** With no entry yet for (n, c), no triple of `done` has that pair. */
  lemma NoPairYet(delta: Delta, done: set<Triple>, n: string, c: Symbol)
    requires KeysStored(delta, done) && !(n in delta && c in delta[n])
    ensures PairStored([], done, n, c)
  {
    forall x | x in Targets(done, n, c) ensures false {
    }
    forall x | x in TargetNames(done, n, c) ensures false {
    }
  }

  /** One step of the constructor's loop: the triple's destination joins the StateSet of its pair. */
  function Insert(delta: Delta, t: Triple): Delta {
    var arcs := if t.source.name in delta then delta[t.source.name] else map[];
    var current := if t.symbol in arcs then arcs[t.symbol] else [];
    delta[t.source.name := arcs[t.symbol := AddState(current, t.target)]]
  }

  /** Insert keeps StoresSets, one triple more. */
  lemma AddArc(delta: Delta, done: set<Triple>, t: Triple)
    requires StoresSets(delta, done)
    ensures StoresSets(Insert(delta, t), done + {t})
  {
    var arcs := if t.source.name in delta then delta[t.source.name] else map[];
    var current := if t.symbol in arcs then arcs[t.symbol] else [];
    var delta' := Insert(delta, t);
    AddArcKeys(delta, done, t, arcs, AddState(current, t.target));
    if !(t.source.name in delta && t.symbol in delta[t.source.name]) {
      NoPairYet(delta, done, t.source.name, t.symbol);
    }
    SamePairStored(current, done, t);
    forall n, c | n in delta' && c in delta'[n] ensures PairStored(delta'[n][c], done + {t}, n, c) {
      if (n, c) != (t.source.name, t.symbol) {
        InsertOther(delta, t, n, c);
        OtherPairStored(delta[n][c], done, t, n, c);
      }
    }
  }

  /** Insert leaves the StateSets of the other pairs as they were. */
  lemma InsertOther(delta: Delta, t: Triple, n: string, c: Symbol)
    requires n in Insert(delta, t) && c in Insert(delta, t)[n] && (n, c) != (t.source.name, t.symbol)
    ensures n in delta && c in delta[n] && Insert(delta, t)[n][c] == delta[n][c]
  {
  }

  /**
   * The NFALambda constructor: every triple's source must be a member (by name); the
   * destinations of the triples sharing a (source, symbol) pair, epsilon included,
   * accumulate into one StateSet.
   */
  method NewNFALambda(states: StateSet, alphabet: set<char>, transitions: set<Triple>) returns (r: Result<NFALambda, Error>)
    ensures r.Ok? <==> forall t :: t in transitions ==> t.source.name in Names(states)
    ensures r.Ok? ==> r.value.NFALambda? && r.value.states == states && r.value.alphabet == alphabet
    ensures r.Ok? ==> StoresSets(r.value.delta, transitions)
    ensures r.Err? ==> r.error == UnknownSourceState
  {
    var delta: Delta := map[];
    var todo := transitions;
    ghost var done: set<Triple> := {};
    while todo != {}
      invariant todo <= transitions && done == transitions - todo
      invariant forall t :: t in done ==> t.source.name in Names(states)
      invariant StoresSets(delta, done)
      decreases todo
    {
      var t :| t in todo;
      if BelongTo(states, t.source.name).None? {
        assert t in transitions;
        return Err(UnknownSourceState);
      }
      AddArc(delta, done, t);
      delta := Insert(delta, t);
      MoveOne(transitions, todo, t);
      done := done + {t};
      todo := todo - {t};
    }
    assert done == transitions;
    return Ok(NFALambda(states, alphabet, delta));
  }

  /** Where no two destinations of a pair share a name, the stored StateSet holds exactly them. */
  lemma StoredExactly(delta: Delta, ts: set<Triple>, n: string, c: Symbol)
    requires StoresSets(delta, ts) && n in delta && c in delta[n]
    requires forall x, y :: x in Targets(ts, n, c) && y in Targets(ts, n, c) && x.name == y.name ==> x == y
    ensures (set x | x in delta[n][c]) == Targets(ts, n, c)
  {
    assert PairStored(delta[n][c], ts, n, c);
    forall y | y in Targets(ts, n, c) ensures y in delta[n][c] {
      assert y.name in TargetNames(ts, n, c);
      var x :| x in delta[n][c] && x.name == y.name;
    }
  }

  /** A lookup after construction yields exactly the triples' destinations, when names tell them apart. */
  lemma LookupExactly(delta: Delta, ts: set<Triple>, x: State, c: Symbol)
    requires StoresSets(delta, ts)
    requires forall u, v :: u in Targets(ts, x.name, c) && v in Targets(ts, x.name, c) && u.name == v.name ==> u == v
    ensures forall y :: y in Lookup(delta, x, c) <==> y in Targets(ts, x.name, c)
  {
    if x.name in delta && c in delta[x.name] {
      StoredExactly(delta, ts, x.name, c);
      assert forall y :: y in delta[x.name][c] <==> y in (set z | z in delta[x.name][c]);
    } else {
      forall y | y in Targets(ts, x.name, c) ensures false {
      }
    }
  }

  // ---------------------------------------------------------------------------
  // Acceptance

  /** A search configuration of accepts: a state and the position of the next character. */
  datatype Config = Config(state: State, pos: nat)

  /** The configurations with the states of `ts` at position `pos`. */
  function At(ts: StateSet, pos: nat): (r: set<Config>)
    ensures forall c {:trigger c in r} :: c in r <==> c.state in ts && c.pos == pos
  {
    if ts == [] then {} else {Config(ts[0], pos)} + At(ts[1..], pos)
  }

  /** The destinations on the character at position `c.pos`; none at the end of the input. */
  function SymbolTargets(delta: Delta, w: string, c: Config): StateSet {
    if c.pos < |w| then Lookup(delta, c.state, Some(w[c.pos])) else []
  }

  /** One move: an epsilon arc keeps the position, a character arc advances it by one. */
  function Step(delta: Delta, w: string, c: Config): set<Config> {
    At(Lookup(delta, c.state, None), c.pos) + At(SymbolTargets(delta, w, c), c.pos + 1)
  }

  /** A move either follows an epsilon arc and keeps the position, or follows an arc on the next character. */
  lemma StepCases(delta: Delta, w: string, c: Config, x: Config)
    requires x in Step(delta, w, c)
    ensures || (x.pos == c.pos && x.state in Lookup(delta, c.state, None))
            || (c.pos < |w| && x.pos == c.pos + 1 && x.state in Lookup(delta, c.state, Some(w[c.pos])))
  {
  }

  /** An epsilon arc is a move that keeps the position. */
  lemma EpsilonMove(delta: Delta, w: string, c: Config, y: State)
    requires y in Lookup(delta, c.state, None)
    ensures Config(y, c.pos) in Step(delta, w, c)
  {
  }

  /** An arc on the next character is a move past it. */
  lemma SymbolMove(delta: Delta, w: string, c: Config, y: State)
    requires c.pos < |w| && y in Lookup(delta, c.state, Some(w[c.pos]))
    ensures Config(y, c.pos + 1) in Step(delta, w, c)
  {
  }

  /** `b` is reached from `a` in exactly `n` moves. */
  ghost predicate ReachesIn(delta: Delta, w: string, a: Config, b: Config, n: nat)
    decreases n
  {
    if n == 0 then a == b
    else exists m :: ReachesIn(delta, w, a, m, n - 1) && b in Step(delta, w, m)
  }

  /** Some run of the epsilon-automaton leads from `a` to `b`. */
  ghost predicate Reaches(delta: Delta, w: string, a: Config, b: Config) {
    exists n: nat :: ReachesIn(delta, w, a, b, n)
  }

  /** A configuration that ends the search with success: a final state with all input read. */
  predicate Accepting(w: string, c: Config) {
    c.state.isFinal && c.pos == |w|
  }

  /** The language of `n`: some run from the initial state reads all of `w` and ends in a final state. */
  ghost predicate InLanguage(n: NFALambda, w: string) {
    && n.NFALambda? && InitialState(n.states).Some?
    && exists c :: Accepting(w, c) && Reaches(n.delta, w, Config(InitialState(n.states).value, 0), c)
  }

  lemma ReachesRefl(delta: Delta, w: string, a: Config)
    ensures Reaches(delta, w, a, a)
  {
    assert ReachesIn(delta, w, a, a, 0);
  }

  /** A run extends by one move. */
  lemma ReachesStep(delta: Delta, w: string, a: Config, b: Config, c: Config)
    requires Reaches(delta, w, a, b) && c in Step(delta, w, b)
    ensures Reaches(delta, w, a, c)
  {
    var n: nat :| ReachesIn(delta, w, a, b, n);
    assert ReachesIn(delta, w, a, c, n + 1);
  }

  /** No move leads out of `inside`. */
  ghost predicate Closed(delta: Delta, w: string, inside: set<Config>) {
    forall c, x :: c in inside && x in Step(delta, w, c) ==> x in inside
  }

  /** No move leaves a set closed under moves, so every run from inside it stays inside. */
  lemma {:induction false} ReachStaysIn(delta: Delta, w: string, a: Config, b: Config, n: nat, inside: set<Config>)
    requires ReachesIn(delta, w, a, b, n) && a in inside && Closed(delta, w, inside)
    ensures b in inside
    decreases n
  {
    if n > 0 {
      var m :| ReachesIn(delta, w, a, m, n - 1) && b in Step(delta, w, m);
      ReachStaysIn(delta, w, a, m, n - 1, inside);
    }
  }

  /** Every state a move can reach: the initial state and all stored destinations. */
  ghost function Nodes(delta: Delta, init: State): set<State> {
    {init} + set n, c, x | n in delta && c in delta[n] && x in delta[n][c] :: x
  }

  /** The finite space the search moves in. */
  ghost function Space(delta: Delta, w: string, init: State): set<Config> {
    set x, i | x in Nodes(delta, init) && 0 <= i <= |w| :: Config(x, i)
  }

  /**
   * The push loops of accepts over one StateSet, with the visited check: every destination
   * configuration not seen before is pushed and marked visited.
   */
  method PushAll(ts: StateSet, pos: nat, stack: seq<Config>, visited: set<Config>)
    returns (stack': seq<Config>, visited': set<Config>)
    ensures visited' == visited + At(ts, pos)
    ensures |stack| <= |stack'| && stack'[..|stack|] == stack
    ensures forall c :: c in stack'[|stack|..] <==> c in visited' - visited
    ensures visited' == visited ==> stack' == stack
  {
    stack', visited' := stack, visited;
    var i := 0;
    while i < |ts|
      invariant 0 <= i <= |ts|
      invariant visited' == visited + At(ts[..i], pos)
      invariant |stack| <= |stack'| && stack'[..|stack|] == stack
      invariant forall c :: c in stack'[|stack|..] <==> c in visited' - visited
      invariant visited' == visited ==> stack' == stack
    {
      assert ts[..i + 1] == ts[..i] + [ts[i]];
      var c := Config(ts[i], pos);
      if c !in visited' {
        assert (stack' + [c])[|stack|..] == stack'[|stack|..] + [c];
        stack' := stack' + [c];
        visited' := visited' + {c};
      }
      i := i + 1;
    }
    assert ts[..i] == ts;
  }

  /** The search space holds exactly the configurations of its nodes up to the end of the input. */
  lemma InSpace(delta: Delta, w: string, init: State, c: Config)
    ensures c in Space(delta, w, init) <==> c.state in Nodes(delta, init) && c.pos <= |w|
  {
    if c.state in Nodes(delta, init) && c.pos <= |w| {
      assert c == Config(c.state, c.pos);
    }
  }

  /** The moves from a configuration inside the input stay in the search space. */
  lemma StepInSpace(delta: Delta, w: string, init: State, c: Config)
    requires c.pos <= |w|
    ensures Step(delta, w, c) <= Space(delta, w, init)
  {
    forall x | x in Step(delta, w, c) ensures x in Space(delta, w, init) {
      assert x.state in Nodes(delta, init);
      InSpace(delta, w, init, x);
    }
  }

  /**
   * One expansion of the search: the epsilon successors of `c` are pushed, then its
   * successors on the current character, each only if not visited yet.
   */
  method Expand(delta: Delta, w: string, c: Config, stack: seq<Config>, visited: set<Config>)
    returns (stack': seq<Config>, visited': set<Config>)
    ensures visited' == visited + Step(delta, w, c)
    ensures |stack| <= |stack'| && stack'[..|stack|] == stack
    ensures forall x :: x in stack'[|stack|..] <==> x in visited' - visited
    ensures visited' == visited ==> stack' == stack
  {
    var s1, v1 := PushAll(Lookup(delta, c.state, None), c.pos, stack, visited);
    stack', visited' := PushAll(SymbolTargets(delta, w, c), c.pos + 1, s1, v1);
    assert stack'[|stack|..] == s1[|stack|..] + stack'[|s1|..];
  }

  /** The invariant of the search loop. */
  ghost predicate SearchInv(delta: Delta, w: string, start: Config, space: set<Config>,
                            stack: seq<Config>, visited: set<Config>, done: set<Config>) {
    && visited <= space && start in visited
    && (forall c :: c in visited ==> Reaches(delta, w, start, c))
    && (forall c :: c in visited ==> c in done || c in stack)
    && (forall c :: c in stack ==> c in visited)
    && (forall c :: c in done ==> !Accepting(w, c) && Step(delta, w, c) <= visited)
  }

  /** After a pop and an expansion, every visited configuration is expanded or still on the stack. */
  lemma StackCovers(whole: seq<Config>, stack: seq<Config>, c: Config, stack': seq<Config>,
                    visited: set<Config>, visited': set<Config>, done: set<Config>)
    requires |whole| > 0 && c == whole[|whole| - 1] && stack == whole[..|whole| - 1]
    requires forall x :: x in visited ==> x in done || x in whole
    requires |stack| <= |stack'| && forall k :: 0 <= k < |stack| ==> stack'[k] == stack[k]
    requires forall x :: x in stack'[|stack|..] <==> x in visited' - visited
    ensures forall x :: x in visited' ==> x in done + {c} || x in stack'
  {
    forall x | x in visited' ensures x in done + {c} || x in stack' {
      if x in visited && x != c && x !in done {
        var k :| 0 <= k < |whole| && whole[k] == x;
        assert k < |stack| && stack[k] == x;
        assert stack'[k] == x;
      } else if x !in visited {
        assert x in stack'[|stack|..];
      }
    }
  }

  /** After a pop and an expansion, everything on the stack is visited. */
  lemma StackVisited(whole: seq<Config>, stack: seq<Config>, stack': seq<Config>,
                     visited: set<Config>, visited': set<Config>)
    requires |whole| > 0 && stack == whole[..|whole| - 1]
    requires forall x :: x in whole ==> x in visited
    requires visited <= visited'
    requires |stack| <= |stack'| && forall k :: 0 <= k < |stack| ==> stack'[k] == stack[k]
    requires forall x :: x in stack'[|stack|..] <==> x in visited' - visited
    ensures forall x :: x in stack' ==> x in visited'
  {
    forall x | x in stack' ensures x in visited' {
      var k :| 0 <= k < |stack'| && stack'[k] == x;
      if k < |stack| {
        assert x == stack[k] == whole[k] && whole[k] in whole;
      } else {
        assert stack'[|stack|..][k - |stack|] == x;
        assert x in stack'[|stack|..];
      }
    }
  }

  /** Expanding the popped, non-accepting configuration keeps the search invariant. */
  lemma ExpandKeeps(delta: Delta, w: string, start: Config, space: set<Config>, whole: seq<Config>, stack: seq<Config>,
                    visited: set<Config>, done: set<Config>, c: Config, stack': seq<Config>, visited': set<Config>)
    requires SearchInv(delta, w, start, space, whole, visited, done) && !Accepting(w, c)
    requires |whole| > 0 && c == whole[|whole| - 1] && stack == whole[..|whole| - 1]
    requires visited' == visited + Step(delta, w, c) && visited' <= space
    requires |stack| <= |stack'| && stack'[..|stack|] == stack
    requires forall x :: x in stack'[|stack|..] <==> x in visited' - visited
    ensures SearchInv(delta, w, start, space, stack', visited', done + {c})
  {
    assert c in visited;
    forall x | x in visited' ensures Reaches(delta, w, start, x) {
      if x !in visited {
        ReachesStep(delta, w, start, c, x);
      }
    }
    assert forall k :: 0 <= k < |stack| ==> stack'[k] == stack'[..|stack|][k];
    StackCovers(whole, stack, c, stack', visited, visited', done);
    StackVisited(whole, stack, stack', visited, visited');
  }

  /** A proper growth of the visited set shrinks what is left of the search space. */
  lemma Shrinks(space: set<Config>, visited: set<Config>, visited': set<Config>)
    requires visited <= visited' <= space && visited != visited'
    ensures |space - visited'| < |space - visited|
  {
    assert exists x :: x in visited' && x !in visited;
    var x :| x in visited' && x !in visited;
    var small, big := space - visited', (space - visited) - {x};
    assert big == small + (big - small) && small * (big - small) == {};
    assert |big| == |space - visited| - 1;
  }

  /**
   * NFALambda.accepts: a depth-first search with an explicit stack over (state, position)
   * configurations. Unlike the Java loop, a configuration is pushed only once (the visited
   * set), so the search ends on every automaton, epsilon-cycles included.
   */
  method Accepts(n: NFALambda, w: string) returns (r: Result<bool, Error>)
    ensures n.NullNFA? ==> r == Err(Uninitialized)
    ensures n.NFALambda? && !OverAlphabet(n.alphabet, w) ==> r == Err(SymbolNotInAlphabet)
    ensures n.NFALambda? && OverAlphabet(n.alphabet, w) && InitialState(n.states).None? ==>
              r == Err(NoInitialState)
    ensures n.NFALambda? && OverAlphabet(n.alphabet, w) && InitialState(n.states).Some? ==>
              r == Ok(InLanguage(n, w))
  {
    if n.NullNFA? {
      return Err(Uninitialized);
    }
    if !OverAlphabet(n.alphabet, w) {
      return Err(SymbolNotInAlphabet);
    }
    if InitialState(n.states).None? {
      return Err(NoInitialState);
    }
    var init := InitialState(n.states).value;
    var start := Config(init, 0);
    ghost var space := Space(n.delta, w, init);
    InSpace(n.delta, w, init, start);
    var stack := [start];
    var visited := {start};
    ghost var done: set<Config> := {};
    ReachesRefl(n.delta, w, start);
    while stack != []
      invariant SearchInv(n.delta, w, start, space, stack, visited, done)
      decreases |space - visited|, |stack|
    {
      ghost var whole := stack;
      var c := stack[|stack| - 1];
      stack := stack[..|stack| - 1];
      if c.state.isFinal && |w| == c.pos {
        assert Accepting(w, c);
        return Ok(true);
      }
      InSpace(n.delta, w, init, c);
      if |w| < c.pos {
        assert false;
      }
      StepInSpace(n.delta, w, init, c);
      ghost var popped, before := stack, visited;
      stack, visited := Expand(n.delta, w, c, stack, visited);
      ExpandKeeps(n.delta, w, start, space, whole, popped, before, done, c, stack, visited);
      if visited != before {
        Shrinks(space, before, visited);
      }
      done := done + {c};
    }
    forall c | Accepting(w, c) && Reaches(n.delta, w, start, c) ensures false {
      var k: nat :| ReachesIn(n.delta, w, start, c, k);
      ReachStaysIn(n.delta, w, start, c, k, visited);
    }
    return Ok(false);
  }

  // The search as the Java loop is written: no visited set, so a configuration may be pushed again.

  /** The outcome of one iteration of the Java search loop. */
  datatype Outcome = Accepted | Rejected | Running(stack: seq<Config>)

  /** The configurations pushed, in push order, for the destinations `ts` at position `pos`. */
  function Pushes(ts: StateSet, pos: nat): (r: seq<Config>)
    ensures |r| == |ts| && forall k :: 0 <= k < |ts| ==> r[k] == Config(ts[k], pos)
  {
    if ts == [] then [] else [Config(ts[0], pos)] + Pushes(ts[1..], pos)
  }

  /**
   * One iteration of the loop of NFALambda.accepts as written: pop; succeed on a final state
   * at the end of the input; fail past the end; otherwise push every epsilon successor and
   * every successor on the current character, visited or not.
   */
  function SearchStep(delta: Delta, w: string, stack: seq<Config>): Outcome
    requires stack != []
  {
    var c := stack[|stack| - 1];
    if c.state.isFinal && |w| == c.pos then Accepted
    else if |w| < c.pos then Rejected
    else Running(stack[..|stack| - 1] + Pushes(Lookup(delta, c.state, None), c.pos)
                 + Pushes(SymbolTargets(delta, w, c), c.pos + 1))
  }

  /** At most `fuel` iterations of the Java loop; None when the loop has not ended by then. */
  function SearchAsWritten(delta: Delta, w: string, stack: seq<Config>, fuel: nat): Option<bool>
    decreases fuel
  {
    if stack == [] then Some(false)
    else if fuel == 0 then None
    else match SearchStep(delta, w, stack)
      case Accepted => Some(true)
      case Rejected => Some(false)
      case Running(next) => SearchAsWritten(delta, w, next, fuel - 1)
  }

  /** A non-final initial state q0 with an epsilon self-loop. */
  const loopState := State("q0", true, false)
  const epsilonLoop := NFALambda([loopState], {}, map["q0" := map[None := [loopState]]])

  /**
   * On the epsilon self-loop and the empty input the Java loop pops q0 and pushes it back
   * forever, while the language does not contain the empty string.
   */
  lemma {:induction false} SearchAsWrittenDiverges(fuel: nat)
    ensures SearchAsWritten(epsilonLoop.delta, "", [Config(loopState, 0)], fuel) == None
    ensures !InLanguage(epsilonLoop, "")
    decreases fuel
  {
    var start := Config(loopState, 0);
    var delta := epsilonLoop.delta;
    assert Lookup(delta, loopState, None) == [loopState];
    assert SearchStep(delta, "", [start]) == Running([start]);
    if fuel > 0 {
      SearchAsWrittenDiverges(fuel - 1);
    }
    assert Step(delta, "", start) == {start};
    forall c | Reaches(delta, "", start, c) ensures c == start {
      var k: nat :| ReachesIn(delta, "", start, c, k);
      ReachStaysIn(delta, "", start, c, k, {start});
    }
    assert InitialState(epsilonLoop.states) == Some(loopState);
  }

  // ---------------------------------------------------------------------------
  // Representation invariant

  /** The arcs stored for (n, c) in a well-formed epsilon-automaton. */
  predicate ArcOk(a: NFALambda, n: string, c: Symbol)
    requires a.NFALambda? && n in a.delta && c in a.delta[n]
  {
    && (c.Some? ==> c.value in a.alphabet)
    && forall x :: x in a.delta[n][c] ==> x in a.states
  }

  /** NFALambda.repOk as a predicate: the sentinel, or one initial state and well-formed arcs. */
  ghost predicate Valid(a: NFALambda) {
    a.NullNFA? ||
    (&& CountInitial(a.states) == 1
     && (forall n :: n in a.delta ==> n in Names(a.states))
     && (forall n, c :: n in a.delta && c in a.delta[n] ==> ArcOk(a, n, c)))
  }

  /** The inner loop of repOk over the labels stored for the state named `n`. */
  method CheckArcs(a: NFALambda, n: string) returns (ok: bool)
    requires a.NFALambda? && n in a.delta
    ensures ok <==> forall c :: c in a.delta[n] ==> ArcOk(a, n, c)
  {
    var m := a.delta[n];
    var symbols := m.Keys;
    while symbols != {}
      invariant symbols <= m.Keys
      invariant forall c :: c in m.Keys - symbols ==> ArcOk(a, n, c)
      decreases symbols
    {
      var c :| c in symbols;
      if c.Some? && c.value !in a.alphabet {
        return false;
      }
      var members := AllMembers(a.states, m[c]);
      if !members {
        return false;
      }
      symbols := symbols - {c};
    }
    assert m.Keys - symbols == m.Keys;
    return true;
  }

  /** NFALambda.repOk: counts the initial states, then checks every stored arc. */
  method RepOk(a: NFALambda) returns (ok: bool)
    ensures ok <==> Valid(a)
  {
    if a.NullNFA? {
      return true;
    }
    var initials := CountInitials(a.states);
    if initials != 1 {
      return false;
    }
    var keys := a.delta.Keys;
    while keys != {}
      invariant keys <= a.delta.Keys
      invariant forall n :: n in a.delta.Keys - keys ==> n in Names(a.states)
      invariant forall n, c :: n in a.delta.Keys - keys && c in a.delta[n] ==> ArcOk(a, n, c)
      decreases keys
    {
      var n :| n in keys;
      if BelongTo(a.states, n).None? {
        return false;
      }
      var arcsOk := CheckArcs(a, n);
      if !arcsOk {
        return false;
      }
      keys := keys - {n};
    }
    assert a.delta.Keys - keys == a.delta.Keys;
    return true;
  }

  /** The constructor yields a valid automaton when the states hold one initial state and the triples fit. */
  lemma ConstructedValid(states: StateSet, alphabet: set<char>, ts: set<Triple>, delta: Delta)
    requires StoresSets(delta, ts) && CountInitial(states) == 1
    requires forall t :: t in ts ==> t.source.name in Names(states) && t.target in states
    requires forall t :: t in ts && t.symbol.Some? ==> t.symbol.value in alphabet
    ensures Valid(NFALambda(states, alphabet, delta))
  {
    var a := NFALambda(states, alphabet, delta);
    forall n, c | n in delta && c in delta[n] ensures ArcOk(a, n, c) {
      assert (n, c) in ArcKeys(ts);
      var t :| t in ts && (t.source.name, t.symbol) == (n, c);
      assert PairStored(delta[n][c], ts, n, c);
    }
  }

  // ---------------------------------------------------------------------------
  // Epsilon-closure

  /** A chain of epsilon arcs: each state is an epsilon destination of the one before. */
  ghost predicate EpsPath(delta: Delta, p: seq<State>) {
    |p| > 0 && forall k :: 0 <= k < |p| - 1 ==> p[k + 1] in Lookup(delta, p[k], None)
  }

  /** `b` is reached from `a` by epsilon arcs alone (possibly none). */
  ghost predicate EpsReaches(delta: Delta, a: State, b: State) {
    exists p {:trigger EpsPath(delta, p)} :: EpsPath(delta, p) && p[0] == a && p[|p| - 1] == b
  }

  lemma EpsRefl(delta: Delta, a: State)
    ensures EpsReaches(delta, a, a)
  {
    assert EpsPath(delta, [a]);
  }

  /** The epsilon destinations stored for the state called `n`. */
  function EpsSucc(delta: Delta, n: string): StateSet {
    if n in delta && None in delta[n] then delta[n][None] else []
  }

  /** A set of names is epsilon-closed: the epsilon destinations of its states are in it. */
  ghost predicate EpsClosed(delta: Delta, names: set<string>) {
    forall n, y :: n in names && y in EpsSucc(delta, n) ==> y.name in names
  }

  /** An epsilon-closed set of names that holds the names of the states of `q`. */
  ghost predicate ClosedAbove(delta: Delta, q: seq<State>, names: set<string>) {
    (forall s :: s in q ==> s.name in names) && EpsClosed(delta, names)
  }

  /** The states the epsilon arcs of `delta` lead to. */
  ghost function EpsDests(delta: Delta): set<State> {
    set n, x | n in delta && None in delta[n] && x in delta[n][None] :: x
  }

  lemma EpsSuccDests(delta: Delta, n: string)
    ensures forall x :: x in EpsSucc(delta, n) ==> x in EpsDests(delta)
  {
  }

  /** The names of all states the epsilon arcs of `delta` lead to. */
  ghost function EpsTargetNames(delta: Delta): set<string> {
    set n, x | n in delta && None in delta[n] && x in delta[n][None] :: x.name
  }

  /** The invariant of the closure loop: its shape, its coverage and its minimality. */
  ghost predicate ClosureInv(delta: Delta, q: seq<State>, universe: set<string>, ss: StateSet, queue: seq<State>) {
    ClosureShape(universe, ss, queue) && ClosureCovers(delta, q, ss, queue) && ClosureBelow(delta, q, ss, queue)
  }

  /** Unique names, all drawn from the finite universe of names. */
  ghost predicate ClosureShape(universe: set<string>, ss: StateSet, queue: seq<State>) {
    UniqueNames(ss) && Names(ss) <= universe && forall s :: s in queue ==> s.name in universe
  }

  /** The queue's states and the epsilon successors of the result are in the result or still queued. */
  ghost predicate ClosureCovers(delta: Delta, q: seq<State>, ss: StateSet, queue: seq<State>) {
    && (forall s :: s in q ==> s.name in Names(ss) || s in queue)
    && (forall x, y :: x in ss && y in EpsSucc(delta, x.name) ==> y.name in Names(ss) || y in queue)
  }

  /** Every epsilon-closed set above the starting queue holds the result and the queued states. */
  ghost predicate ClosureBelow(delta: Delta, q: seq<State>, ss: StateSet, queue: seq<State>) {
    forall names :: ClosedAbove(delta, q, names) ==>
      Names(ss) <= names && forall s :: s in queue ==> s.name in names
  }

  /** Polling a state whose name is already in the result keeps the invariant. */
  lemma SkipKeeps(delta: Delta, q: seq<State>, universe: set<string>, ss: StateSet, queue: seq<State>)
    requires ClosureInv(delta, q, universe, ss, queue) && queue != [] && queue[0].name in Names(ss)
    ensures ClosureInv(delta, q, universe, ss, queue[1..])
  {
    forall y | y in queue ensures y.name in Names(ss) || y in queue[1..] {
      var k :| 0 <= k < |queue| && queue[k] == y;
      if k > 0 {
        assert queue[1..][k - 1] == y;
      }
    }
  }

  /** Polling a new state, adding it and enqueueing its epsilon successors keeps the invariant. */
  lemma AddKeeps(delta: Delta, q: seq<State>, universe: set<string>, ss: StateSet, queue: seq<State>)
    requires ClosureInv(delta, q, universe, ss, queue) && queue != [] && queue[0].name !in Names(ss)
    requires universe == Names(q) + EpsTargetNames(delta)
    ensures ClosureInv(delta, q, universe, AddState(ss, queue[0]), queue[1..] + EpsSucc(delta, queue[0].name))
    ensures |universe - Names(AddState(ss, queue[0]))| < |universe - Names(ss)|
  {
    var s := queue[0];
    var ss', queue' := AddState(ss, s), queue[1..] + EpsSucc(delta, s.name);
    AddShape(delta, q, universe, ss, queue);
    AddCovers(delta, q, ss, queue);
    forall names | ClosedAbove(delta, q, names)
      ensures Names(ss') <= names && forall y :: y in queue' ==> y.name in names
    {
      assert s.name in names;
    }
    assert universe - Names(ss') == (universe - Names(ss)) - {s.name};
  }

  lemma AddShape(delta: Delta, q: seq<State>, universe: set<string>, ss: StateSet, queue: seq<State>)
    requires ClosureShape(universe, ss, queue) && queue != []
    requires universe == Names(q) + EpsTargetNames(delta)
    ensures ClosureShape(universe, AddState(ss, queue[0]), queue[1..] + EpsSucc(delta, queue[0].name))
  {
    forall y | y in EpsSucc(delta, queue[0].name) ensures y.name in universe {
      assert y.name in EpsTargetNames(delta);
    }
  }

  lemma AddCovers(delta: Delta, q: seq<State>, ss: StateSet, queue: seq<State>)
    requires ClosureCovers(delta, q, ss, queue) && queue != []
    ensures ClosureCovers(delta, q, AddState(ss, queue[0]), queue[1..] + EpsSucc(delta, queue[0].name))
  {
    var s := queue[0];
    var queue' := queue[1..] + EpsSucc(delta, s.name);
    forall y | y in queue ensures y == s || y in queue' {
      var k :| 0 <= k < |queue| && queue[k] == y;
      if k > 0 {
        assert queue'[k - 1] == y;
      }
    }
  }

  /** The invariant holds for the empty result and the starting queue. */
  lemma ClosureStart(delta: Delta, q: seq<State>)
    ensures ClosureInv(delta, q, Names(q) + EpsTargetNames(delta), [], q)
  {
  }

  /**
   * NFALambda.closure with a visited check the code lacks: a polled state already in the
   * result is skipped entirely, neither added again nor expanded; otherwise it is added and
   * its epsilon successors are enqueued. The result is the least epsilon-closed set of names
   * holding the queue's names.
   */
  method Closure(delta: Delta, q: seq<State>) returns (ss: StateSet)
    ensures UniqueNames(ss)
    ensures ClosedAbove(delta, q, Names(ss))
    ensures forall names :: ClosedAbove(delta, q, names) ==> Names(ss) <= names
    ensures forall x :: x in ss ==> x in q || x in EpsDests(delta)
  {
    ss := [];
    var queue := q;
    ghost var universe := Names(q) + EpsTargetNames(delta);
    ClosureStart(delta, q);
    while queue != []
      invariant ClosureInv(delta, q, universe, ss, queue)
      invariant forall x :: x in ss ==> x in q || x in EpsDests(delta)
      invariant forall x :: x in queue ==> x in q || x in EpsDests(delta)
      decreases |universe - Names(ss)|, |queue|
    {
      var s := queue[0];
      if BelongTo(ss, s.name).Some? {
        SkipKeeps(delta, q, universe, ss, queue);
        queue := queue[1..];
      } else {
        AddKeeps(delta, q, universe, ss, queue);
        EpsSuccDests(delta, s.name);
        ss := AddState(ss, s);
        queue := queue[1..] + EpsSucc(delta, s.name);
      }
    }
    ClosureDone(delta, q, universe, ss);
  }

  /** With the queue drained, the invariant gives the closure's properties. */
  lemma ClosureDone(delta: Delta, q: seq<State>, universe: set<string>, ss: StateSet)
    requires ClosureInv(delta, q, universe, ss, [])
    ensures ClosedAbove(delta, q, Names(ss))
  {
    forall n, y | n in Names(ss) && y in EpsSucc(delta, n) ensures y.name in Names(ss) {
      var x :| x in ss && x.name == n;
    }
  }

  /** `n` names a state epsilon-reachable from some state of `q`. */
  ghost predicate ReachedName(delta: Delta, q: seq<State>, n: string) {
    exists s, y :: s in q && EpsReaches(delta, s, y) && y.name == n
  }

  /**
   * The closure holds only names of states epsilon-reachable from the queue: those names
   * form an epsilon-closed set above the queue, so the least one lies within it.
   */
  lemma ClosureReachable(delta: Delta, q: seq<State>, ss: StateSet)
    requires forall names :: ClosedAbove(delta, q, names) ==> Names(ss) <= names
    ensures forall x :: x in ss ==> ReachedName(delta, q, x.name)
  {
    var reached := ReachedNames(delta, q);
    forall s | s in q ensures s.name in reached {
      EpsRefl(delta, s);
      assert ReachedName(delta, q, s.name);
    }
    forall n, y | n in reached && y in EpsSucc(delta, n) ensures y.name in reached {
      ReachedStep(delta, q, n, y);
    }
    assert ClosedAbove(delta, q, reached);
    assert Names(ss) <= reached;
  }

  /** The reachable names, within the finite set of names the queue and the epsilon arcs mention. */
  ghost function ReachedNames(delta: Delta, q: seq<State>): (r: set<string>)
    ensures forall n :: n in r <==> n in Names(q) + EpsTargetNames(delta) && ReachedName(delta, q, n)
  {
    set n | n in Names(q) + EpsTargetNames(delta) && ReachedName(delta, q, n)
  }

  /** An epsilon arc from a reached name reaches its destination's name. */
  lemma ReachedStep(delta: Delta, q: seq<State>, n: string, y: State)
    requires ReachedName(delta, q, n) && y in EpsSucc(delta, n)
    ensures ReachedName(delta, q, y.name) && y.name in EpsTargetNames(delta)
  {
    var s, x :| s in q && EpsReaches(delta, s, x) && x.name == n;
    EpsReachesStep(delta, s, x, y);
  }

  /** An epsilon chain extends by one epsilon arc. */
  lemma EpsReachesStep(delta: Delta, a: State, x: State, y: State)
    requires EpsReaches(delta, a, x) && y in Lookup(delta, x, None)
    ensures EpsReaches(delta, a, y)
  {
    var p :| EpsPath(delta, p) && p[0] == a && p[|p| - 1] == x;
    var p' := p + [y];
    assert forall k :: 0 <= k < |p| - 1 ==> p'[k + 1] in Lookup(delta, p'[k], None);
    assert p'[|p|] in Lookup(delta, p'[|p| - 1], None);
    assert EpsPath(delta, p');
  }

  /** Every epsilon-closed set of names that holds the queue's names holds every reachable name. */
  lemma ReachedIsLeast(delta: Delta, q: seq<State>, names: set<string>, n: string)
    requires ClosedAbove(delta, q, names) && ReachedName(delta, q, n)
    ensures n in names
  {
    var s, y :| s in q && EpsReaches(delta, s, y) && y.name == n;
    var p :| EpsPath(delta, p) && p[0] == s && p[|p| - 1] == y;
    EpsPathInside(delta, p, names);
  }

  lemma {:induction false} EpsPathInside(delta: Delta, p: seq<State>, names: set<string>)
    requires EpsPath(delta, p) && p[0].name in names && EpsClosed(delta, names)
    ensures p[|p| - 1].name in names
    decreases |p|
  {
    if |p| > 1 {
      var r := p[..|p| - 1];
      assert EpsPath(delta, r);
      EpsPathInside(delta, r, names);
      assert p[|p| - 1] in EpsSucc(delta, r[|r| - 1].name);
    }
  }

  // The closure loop as written: the epsilon successors of every polled state are enqueued
  // whether or not the state was seen before, since the enqueue does not depend on the
  // membership test (which, besides, ends in an empty statement).

  /** At most `fuel` iterations of the Java closure loop; None when it has not ended by then. */
  function ClosureAsWritten(delta: Delta, ss: StateSet, queue: seq<State>, fuel: nat): Option<StateSet>
    decreases fuel
  {
    if queue == [] then Some(ss)
    else if fuel == 0 then None
    else ClosureAsWritten(delta, AddState(ss, queue[0]), queue[1..] + Lookup(delta, queue[0], None), fuel - 1)
  }

  /** From the epsilon self-loop the Java closure loop polls q0 and enqueues it again forever. */
  lemma {:induction false} ClosureAsWrittenDiverges(fuel: nat)
    ensures ClosureAsWritten(epsilonLoop.delta, [], [loopState], fuel) == None
  {
    assert Lookup(epsilonLoop.delta, loopState, None) == [loopState];
    assert AddState([], loopState) == [loopState];
    assert [loopState][1..] + [loopState] == [loopState];
    if fuel > 0 {
      ClosureLoops(fuel - 1);
    }
  }

  lemma {:induction false} ClosureLoops(fuel: nat)
    ensures ClosureAsWritten(epsilonLoop.delta, [loopState], [loopState], fuel) == None
    decreases fuel
  {
    assert Lookup(epsilonLoop.delta, loopState, None) == [loopState];
    assert AddState([loopState], loopState) == [loopState];
    assert [loopState][1..] + [loopState] == [loopState];
    if fuel > 0 {
      ClosureLoops(fuel - 1);
    }
  }
}
