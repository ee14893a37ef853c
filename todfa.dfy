/**
 * NFALambda.toDFA by the subset construction. In the Java class, `toDFA` and
 * `buildTransitions` are stubs that return null; this module goes beyond the Java
 * bodies and supplies the construction their documentation describes: a DFA whose
 * states are the epsilon-closed sets of states the epsilon-automaton can be in, with
 * one transition per discovered set and alphabet symbol, recognising the same language.
 *
 * The discovered sets are kept in discovery order; the k-th becomes the DFA state
 * named "q" + k, initial for k = 0 (the closure of the initial state) and final when it
 * holds a final state. Transitions are kept as a map from (set index, symbol) to the
 * index of the closure of the moves, and turned into triples for the DFA constructor.
 */
module SubsetConstruction {
  import opened Wrappers
  import opened States
  import opened Automata
  import D = DFAs
  import N = NFALambdas

  /** The states of a StateSet, as a set. */
  function Content(ss: StateSet): set<State> {
    set x | x in ss
  }

  // ---------------------------------------------------------------------------
  // The sets of states the epsilon-automaton can be in

  /** The states of `u` reached from a state of `s` by epsilon arcs alone. */
  ghost function EClose(delta: Delta, u: StateSet, s: set<State>): set<State> {
    set y | y in u && exists x :: x in s && N.EpsReaches(delta, x, y)
  }

  /** The destinations on `c` of the states of `s`. */
  ghost function Move(delta: Delta, s: set<State>, c: char): set<State> {
    set x, y | x in s && y in Lookup(delta, x, Some(c)) :: y
  }

  /**
   * The states the automaton can be in after reading the first p characters of `w`:
   * the epsilon-closure of the initial state, then, character by character, the
   * epsilon-closure of the moves on that character.
   */
  ghost function WalkTo(n: N.NFALambda, w: string, p: nat): set<State>
    requires n.NFALambda? && InitialState(n.states).Some? && p <= |w|
    decreases p
  {
    if p == 0 then EClose(n.delta, n.states, {InitialState(n.states).value})
    else EClose(n.delta, n.states, Move(n.delta, WalkTo(n, w, p - 1), w[p - 1]))
  }

  /** What the construction needs of a well-formed epsilon-automaton. */
  ghost predicate Proper(n: N.NFALambda) {
    && n.NFALambda? && InitialState(n.states).Some? && TargetsIn(n.delta, n.states)
    && forall m, c :: m in n.delta && c in n.delta[m] && c.Some? ==> c.value in n.alphabet
  }

  /** A well-formed epsilon-automaton keeps its destinations among its states. */
  lemma ValidProper(n: N.NFALambda)
    requires n.NFALambda? && N.Valid(n)
    ensures Proper(n)
  {
    forall m, c, x | m in n.delta && c in n.delta[m] && x in n.delta[m][c] ensures x in n.states {
      assert N.ArcOk(n, m, c);
    }
    forall m, c | m in n.delta && c in n.delta[m] && c.Some? ensures c.value in n.alphabet {
      assert N.ArcOk(n, m, c);
    }
  }

  /** An epsilon chain from a member ends at a member when destinations are members. */
  lemma {:induction false} EpsPathIn(delta: Delta, u: StateSet, p: seq<State>)
    requires TargetsIn(delta, u) && N.EpsPath(delta, p) && p[0] in u
    ensures p[|p| - 1] in u
    decreases |p|
  {
    if |p| > 1 {
      var r := p[..|p| - 1];
      assert N.EpsPath(delta, r);
      EpsPathIn(delta, u, r);
      assert p[|p| - 1] in Lookup(delta, p[|p| - 2], None);
    }
  }

  /** A member of `s` among the states of `u` is in its epsilon-closure. */
  lemma ECloseHas(delta: Delta, u: StateSet, s: set<State>, y: State)
    requires y in s && y in u
    ensures y in EClose(delta, u, s)
  {
    N.EpsRefl(delta, y);
  }

  /** An epsilon-closure is closed under epsilon arcs. */
  lemma ECloseStep(delta: Delta, u: StateSet, s: set<State>, y: State, z: State)
    requires TargetsIn(delta, u) && y in EClose(delta, u, s) && z in Lookup(delta, y, None)
    ensures z in EClose(delta, u, s)
  {
    var x :| x in s && N.EpsReaches(delta, x, y);
    N.EpsReachesStep(delta, x, y, z);
  }

  /** The states reached after p characters are closed under epsilon arcs. */
  lemma WalkEps(n: N.NFALambda, w: string, p: nat, y: State, z: State)
    requires n.NFALambda? && InitialState(n.states).Some? && TargetsIn(n.delta, n.states) && p <= |w|
    requires y in WalkTo(n, w, p) && z in Lookup(n.delta, y, None)
    ensures z in WalkTo(n, w, p)
  {
    if p == 0 {
      ECloseStep(n.delta, n.states, {InitialState(n.states).value}, y, z);
    } else {
      ECloseStep(n.delta, n.states, Move(n.delta, WalkTo(n, w, p - 1), w[p - 1]), y, z);
    }
  }

  /** Following an epsilon chain, a run reaches the chain's end at the same position. */
  lemma {:induction false} EpsPathRuns(delta: Delta, w: string, start: N.Config, p: seq<State>, pos: nat)
    requires N.EpsPath(delta, p) && N.Reaches(delta, w, start, N.Config(p[0], pos))
    ensures N.Reaches(delta, w, start, N.Config(p[|p| - 1], pos))
    decreases |p|
  {
    if |p| > 1 {
      var r := p[..|p| - 1];
      assert N.EpsPath(delta, r);
      EpsPathRuns(delta, w, start, r, pos);
      N.EpsilonMove(delta, w, N.Config(r[|r| - 1], pos), p[|p| - 1]);
      N.ReachesStep(delta, w, start, N.Config(r[|r| - 1], pos), N.Config(p[|p| - 1], pos));
    }
  }

  lemma WalkInit(n: N.NFALambda, w: string)
    requires n.NFALambda? && InitialState(n.states).Some?
    ensures InitialState(n.states).value in WalkTo(n, w, 0)
  {
    ECloseHas(n.delta, n.states, {InitialState(n.states).value}, InitialState(n.states).value);
  }

  lemma WalkSym(n: N.NFALambda, w: string, p: nat, y: State, z: State)
    requires n.NFALambda? && InitialState(n.states).Some? && TargetsIn(n.delta, n.states) && p < |w|
    requires y in WalkTo(n, w, p) && z in Lookup(n.delta, y, Some(w[p]))
    ensures z in WalkTo(n, w, p + 1)
  {
    var s := Move(n.delta, WalkTo(n, w, p), w[p]);
    assert z in s;
    ECloseHas(n.delta, n.states, s, z);
  }

  /** The configurations whose state is in WalkTo at their position. */
  ghost function Walked(n: N.NFALambda, w: string): set<N.Config>
    requires n.NFALambda? && InitialState(n.states).Some?
  {
    set p, x | 0 <= p <= |w| && x in WalkTo(n, w, p) :: N.Config(x, p)
  }

  lemma StepInWalk(n: N.NFALambda, w: string, c: N.Config, b: N.Config)
    requires n.NFALambda? && InitialState(n.states).Some? && TargetsIn(n.delta, n.states)
    requires c.pos <= |w| && c.state in WalkTo(n, w, c.pos) && b in N.Step(n.delta, w, c)
    ensures b.pos <= |w| && b.state in WalkTo(n, w, b.pos)
  {
    N.StepCases(n.delta, w, c, b);
    if b.pos == c.pos && b.state in Lookup(n.delta, c.state, None) {
      WalkEps(n, w, c.pos, c.state, b.state);
    } else {
      WalkSym(n, w, c.pos, c.state, b.state);
    }
  }

  lemma WalkedClosed(n: N.NFALambda, w: string)
    requires n.NFALambda? && InitialState(n.states).Some? && TargetsIn(n.delta, n.states)
    ensures N.Closed(n.delta, w, Walked(n, w))
  {
    forall c, b | c in Walked(n, w) && b in N.Step(n.delta, w, c) ensures b in Walked(n, w) {
      StepInWalk(n, w, c, b);
    }
  }

  /** Every configuration a run reaches is within the input, in a state of WalkTo at its position. */
  lemma ReachedInWalk(n: N.NFALambda, w: string, b: N.Config, k: nat)
    requires n.NFALambda? && InitialState(n.states).Some? && TargetsIn(n.delta, n.states)
    requires N.ReachesIn(n.delta, w, N.Config(InitialState(n.states).value, 0), b, k)
    ensures b.pos <= |w| && b.state in WalkTo(n, w, b.pos)
  {
    WalkInit(n, w);
    WalkedClosed(n, w);
    N.ReachStaysIn(n.delta, w, N.Config(InitialState(n.states).value, 0), b, k, Walked(n, w));
  }

  /** A state of WalkTo at position 0 is epsilon-reached from the initial state. */
  lemma WalkSourceInit(n: N.NFALambda, w: string, x: State)
    requires n.NFALambda? && InitialState(n.states).Some? && x in WalkTo(n, w, 0)
    ensures N.EpsReaches(n.delta, InitialState(n.states).value, x)
  {
    assert x in EClose(n.delta, n.states, {InitialState(n.states).value});
  }

  /** A state of WalkTo at position p > 0 is epsilon-reached from a destination on w[p - 1] of one at p - 1. */
  lemma WalkSource(n: N.NFALambda, w: string, p: nat, x: State) returns (z: State, y: State)
    requires n.NFALambda? && InitialState(n.states).Some? && 0 < p <= |w| && x in WalkTo(n, w, p)
    ensures z in WalkTo(n, w, p - 1) && y in Lookup(n.delta, z, Some(w[p - 1])) && N.EpsReaches(n.delta, y, x)
  {
    var s := Move(n.delta, WalkTo(n, w, p - 1), w[p - 1]);
    assert x in EClose(n.delta, n.states, s);
    y :| y in s && N.EpsReaches(n.delta, y, x);
    z :| z in WalkTo(n, w, p - 1) && y in Lookup(n.delta, z, Some(w[p - 1]));
  }

  /** A run that reaches a state reaches, at the same position, every state epsilon-reachable from it. */
  lemma EpsReachesRuns(delta: Delta, w: string, start: N.Config, y: State, x: State, pos: nat)
    requires N.EpsReaches(delta, y, x) && N.Reaches(delta, w, start, N.Config(y, pos))
    ensures N.Reaches(delta, w, start, N.Config(x, pos))
  {
    var path :| N.EpsPath(delta, path) && path[0] == y && path[|path| - 1] == x;
    EpsPathRuns(delta, w, start, path, pos);
  }

  /** Every state of WalkTo at position p is reached by a run at that position. */
  lemma {:induction false} WalkReached(n: N.NFALambda, w: string, p: nat, x: State)
    requires n.NFALambda? && InitialState(n.states).Some? && p <= |w| && x in WalkTo(n, w, p)
    ensures N.Reaches(n.delta, w, N.Config(InitialState(n.states).value, 0), N.Config(x, p))
    decreases p
  {
    var start := N.Config(InitialState(n.states).value, 0);
    if p == 0 {
      WalkSourceInit(n, w, x);
      N.ReachesRefl(n.delta, w, start);
      EpsReachesRuns(n.delta, w, start, start.state, x, 0);
    } else {
      var z, y := WalkSource(n, w, p, x);
      WalkReached(n, w, p - 1, z);
      N.SymbolMove(n.delta, w, N.Config(z, p - 1), y);
      N.ReachesStep(n.delta, w, start, N.Config(z, p - 1), N.Config(y, p));
      EpsReachesRuns(n.delta, w, start, y, x, p);
    }
  }

  /** The epsilon-automaton accepts exactly when a final state is among those reached on all of `w`. */
  lemma AcceptsIffFinal(n: N.NFALambda, w: string)
    requires Proper(n)
    ensures N.InLanguage(n, w) <==> exists x :: x in WalkTo(n, w, |w|) && x.isFinal
  {
    var start := N.Config(InitialState(n.states).value, 0);
    if N.InLanguage(n, w) {
      var c :| N.Accepting(w, c) && N.Reaches(n.delta, w, start, c);
      var k: nat :| N.ReachesIn(n.delta, w, start, c, k);
      ReachedInWalk(n, w, c, k);
    }
    if exists x :: x in WalkTo(n, w, |w|) && x.isFinal {
      var x :| x in WalkTo(n, w, |w|) && x.isFinal;
      WalkReached(n, w, |w|, x);
      assert N.Accepting(w, N.Config(x, |w|));
    }
  }

  /** A state reached after p > 0 characters needs w[p - 1] in the alphabet and a state reached before it. */
  lemma WalkBack(n: N.NFALambda, w: string, p: nat, x: State) returns (z: State)
    requires Proper(n) && 0 < p <= |w| && x in WalkTo(n, w, p)
    ensures w[p - 1] in n.alphabet && z in WalkTo(n, w, p - 1)
  {
    var y;
    z, y := WalkSource(n, w, p, x);
  }

  /** A state is reached after p characters only if those characters belong to the alphabet. */
  lemma {:induction false} WalkOverAlphabet(n: N.NFALambda, w: string, p: nat, x: State)
    requires Proper(n) && p <= |w| && x in WalkTo(n, w, p)
    ensures forall k :: 0 <= k < p ==> w[k] in n.alphabet
    decreases p
  {
    if p > 0 {
      var z := WalkBack(n, w, p, x);
      WalkOverAlphabet(n, w, p - 1, z);
    }
  }

  /** A state of `u` whose name is epsilon-reached from the queue is in the queue's epsilon-closure. */
  lemma ReachedInEClose(delta: Delta, u: StateSet, q: seq<State>, x: State)
    requires TargetsIn(delta, u) && UniqueNames(u) && (forall s :: s in q ==> s in u)
    requires x in u && N.ReachedName(delta, q, x.name)
    ensures x in EClose(delta, u, Content(q))
  {
    var s, y :| s in q && N.EpsReaches(delta, s, y) && y.name == x.name;
    var p :| N.EpsPath(delta, p) && p[0] == s && p[|p| - 1] == y;
    EpsPathIn(delta, u, p);
    SameNameSame(u, x, y);
    assert s in Content(q);
  }

  /** A member of the queue's epsilon-closure has its name in every epsilon-closed set above the queue. */
  lemma ECloseInClosed(delta: Delta, u: StateSet, q: seq<State>, ss: StateSet, y: State)
    requires UniqueNames(u) && (forall x :: x in ss ==> x in u)
    requires N.ClosedAbove(delta, q, Names(ss)) && y in EClose(delta, u, Content(q))
    ensures y in ss
  {
    var s :| s in Content(q) && N.EpsReaches(delta, s, y);
    assert N.ReachedName(delta, q, y.name);
    N.ReachedIsLeast(delta, q, Names(ss), y.name);
    var x :| x in ss && x.name == y.name;
    SameNameSame(u, x, y);
  }

  /** Epsilon destinations are members when all destinations are. */
  lemma EpsDestsIn(delta: Delta, u: StateSet)
    requires TargetsIn(delta, u)
    ensures forall x :: x in N.EpsDests(delta) ==> x in u
  {
  }

  /**
   * What closure returns, as a set of states, is the epsilon-closure of its queue when the
   * destinations are members whose names are unique.
   */
  lemma ClosureIsEClose(delta: Delta, u: StateSet, q: seq<State>, ss: StateSet)
    requires TargetsIn(delta, u) && UniqueNames(u) && (forall s :: s in q ==> s in u)
    requires N.ClosedAbove(delta, q, Names(ss))
    requires forall names :: N.ClosedAbove(delta, q, names) ==> Names(ss) <= names
    requires forall x :: x in ss ==> x in q || x in N.EpsDests(delta)
    ensures Content(ss) == EClose(delta, u, Content(q))
  {
    N.ClosureReachable(delta, q, ss);
    EpsDestsIn(delta, u);
    forall x | x in Content(ss) ensures x in EClose(delta, u, Content(q)) {
      ReachedInEClose(delta, u, q, x);
    }
    forall y | y in EClose(delta, u, Content(q)) ensures y in Content(ss) {
      ECloseInClosed(delta, u, q, ss, y);
    }
  }

  // ---------------------------------------------------------------------------
  // The worklist: subsets found so far and the transitions between them

  /** The sets of states found so far, as sets. */
  ghost function Found(subsets: seq<StateSet>): set<set<State>> {
    set k | 0 <= k < |subsets| :: Content(subsets[k])
  }

  /** Every subset of `u` is in Pow(u): a finite bound on the sets the construction can find. */
  ghost function Pow(u: set<State>): (r: set<set<State>>)
    ensures forall s :: s <= u ==> s in r
    decreases u
  {
    if u == {} then
      assert forall s :: s <= u ==> s == {};
      {{}}
    else
      var x :| x in u;
      var p := Pow(u - {x});
      PowStep(u, x, p);
      p + Adjoin(p, x)
  }

  /** Every set of `p` with `x` added. */
  ghost function Adjoin(p: set<set<State>>, x: State): set<set<State>> {
    set t | t in p :: t + {x}
  }

  lemma PowStep(u: set<State>, x: State, p: set<set<State>>)
    requires x in u && forall s :: s <= u - {x} ==> s in p
    ensures forall s :: s <= u ==> s in p + Adjoin(p, x)
  {
    forall s | s <= u ensures s in p + Adjoin(p, x) {
      assert s - {x} in p;
      if x in s {
        assert s == (s - {x}) + {x};
      } else {
        assert s == s - {x};
      }
    }
  }

  /**
   * The subsets found so far: the first is the epsilon-closure of the initial state, every
   * one holds states of the automaton, and no two hold the same states.
   */
  ghost predicate Discovered(n: N.NFALambda, subsets: seq<StateSet>)
    requires Proper(n)
  {
    && |subsets| > 0
    && Content(subsets[0]) == EClose(n.delta, n.states, {InitialState(n.states).value})
    && (forall k :: 0 <= k < |subsets| ==> Content(subsets[k]) <= Content(n.states))
    && (forall a, b :: 0 <= a < b < |subsets| ==> Content(subsets[a]) != Content(subsets[b]))
  }

  /**
   * The transitions found so far: one from every subset before i, and from subset i on the
   * symbols not in `rest`, each on a symbol of the alphabet and leading to the subset that
   * holds the epsilon-closure of the moves on that symbol.
   */
  ghost predicate Linked(n: N.NFALambda, subsets: seq<StateSet>, arcs: map<(nat, char), nat>, i: nat, rest: set<char>)
    requires n.NFALambda?
  {
    && (forall k: nat, c :: (k, c) in arcs <==> (k < i || (k == i && c !in rest)) && c in n.alphabet)
    && (forall p :: p in arcs ==>
          && p.0 < |subsets| && arcs[p] < |subsets|
          && Content(subsets[arcs[p]]) == EClose(n.delta, n.states, Move(n.delta, Content(subsets[p.0]), p.1)))
  }

  /** The epsilon-closure of a set of states is among the states of `u`. */
  lemma ECloseIn(delta: Delta, u: StateSet, s: set<State>)
    ensures EClose(delta, u, s) <= Content(u)
  {
  }

  /** The moves of a well-formed automaton lead to its states. */
  lemma MoveIn(delta: Delta, u: StateSet, s: set<State>, c: char)
    requires TargetsIn(delta, u)
    ensures Move(delta, s, c) <= Content(u)
  {
  }

  /** Reading one more state of `ss` adds its destinations on `c` to the moves. */
  lemma MoveExtend(delta: Delta, ss: StateSet, k: nat, c: char)
    requires k < |ss|
    ensures Move(delta, Content(ss[..k + 1]), c) == Move(delta, Content(ss[..k]), c) + Content(Lookup(delta, ss[k], Some(c)))
  {
    assert ss[..k + 1] == ss[..k] + [ss[k]];
    assert Content(ss[..k + 1]) == Content(ss[..k]) + {ss[k]};
  }

  /** The queue buildTransitions hands to closure: the destinations on `c` of every state of `ss`. */
  method MoveQueue(delta: Delta, ss: StateSet, c: char) returns (q: seq<State>)
    ensures Content(q) == Move(delta, Content(ss), c)
  {
    q := [];
    var k := 0;
    while k < |ss|
      invariant 0 <= k <= |ss|
      invariant Content(q) == Move(delta, Content(ss[..k]), c)
    {
      MoveExtend(delta, ss, k, c);
      q := q + Lookup(delta, ss[k], Some(c));
      k := k + 1;
    }
    assert ss[..k] == ss;
  }

  /** The index of the subset holding the same states as `ss`, or |subsets| when there is none. */
  method Find(subsets: seq<StateSet>, ss: StateSet) returns (j: nat)
    ensures j <= |subsets|
    ensures j < |subsets| ==> Content(subsets[j]) == Content(ss)
    ensures j == |subsets| ==> forall k :: 0 <= k < |subsets| ==> Content(subsets[k]) != Content(ss)
  {
    j := 0;
    while j < |subsets| && Content(subsets[j]) != Content(ss)
      invariant j <= |subsets|
      invariant forall k :: 0 <= k < j ==> Content(subsets[k]) != Content(ss)
      decreases |subsets| - j
    {
      j := j + 1;
    }
  }

  /** A set of states not found before is found now. */
  lemma DiscoverNew(n: N.NFALambda, subsets: seq<StateSet>, ss: StateSet)
    requires Proper(n) && Discovered(n, subsets)
    requires Content(ss) <= Content(n.states)
    requires forall k :: 0 <= k < |subsets| ==> Content(subsets[k]) != Content(ss)
    ensures Discovered(n, subsets + [ss])
  {
    var s' := subsets + [ss];
    forall a, b | 0 <= a < b < |s'| ensures Content(s'[a]) != Content(s'[b]) {
      if b == |subsets| {
        assert s'[b] == ss;
      }
    }
  }

  /** Finding a new subset keeps the transitions found. */
  lemma LinkedGrow(n: N.NFALambda, subsets: seq<StateSet>, arcs: map<(nat, char), nat>, i: nat, rest: set<char>, ss: StateSet)
    requires n.NFALambda? && Linked(n, subsets, arcs, i, rest)
    ensures Linked(n, subsets + [ss], arcs, i, rest)
  {
    var s' := subsets + [ss];
    forall p | p in arcs ensures s'[p.0] == subsets[p.0] && s'[arcs[p]] == subsets[arcs[p]] {
    }
  }

  /** The transition from subset i on `c` is found. */
  lemma LinkArc(n: N.NFALambda, subsets: seq<StateSet>, arcs: map<(nat, char), nat>, i: nat, rest: set<char>, c: char, j: nat)
    requires n.NFALambda? && Linked(n, subsets, arcs, i, rest)
    requires c in rest && rest <= n.alphabet && i < |subsets| && j < |subsets|
    requires Content(subsets[j]) == EClose(n.delta, n.states, Move(n.delta, Content(subsets[i]), c))
    ensures Linked(n, subsets, arcs[(i, c) := j], i, rest - {c})
  {
  }

  /**
   * buildTransitions for the subset at index i: for every symbol of the alphabet, the
   * epsilon-closure of the moves from the subset, found anew or among the subsets found
   * before, and the transition to it.
   */
  method BuildTransitions(n: N.NFALambda, subsets: seq<StateSet>, arcs: map<(nat, char), nat>, i: nat)
    returns (subsets': seq<StateSet>, arcs': map<(nat, char), nat>)
    requires Proper(n) && UniqueNames(n.states) && i < |subsets|
    requires Discovered(n, subsets) && Linked(n, subsets, arcs, i, n.alphabet)
    ensures Discovered(n, subsets') && Linked(n, subsets', arcs', i + 1, n.alphabet)
    ensures subsets <= subsets'
  {
    subsets', arcs' := subsets, arcs;
    var rest := n.alphabet;
    while rest != {}
      invariant rest <= n.alphabet && subsets <= subsets'
      invariant Discovered(n, subsets') && Linked(n, subsets', arcs', i, rest)
      decreases rest
    {
      var c :| c in rest;
      var q := MoveQueue(n.delta, subsets'[i], c);
      MoveIn(n.delta, n.states, Content(subsets'[i]), c);
      var ss := N.Closure(n.delta, q);
      assert forall s :: s in q ==> s in Content(q);
      ClosureIsEClose(n.delta, n.states, q, ss);
      ECloseIn(n.delta, n.states, Content(q));
      var j := Find(subsets', ss);
      if j == |subsets'| {
        DiscoverNew(n, subsets', ss);
        LinkedGrow(n, subsets', arcs', i, rest, ss);
        subsets' := subsets' + [ss];
      }
      LinkArc(n, subsets', arcs', i, rest, c, j);
      arcs' := arcs'[(i, c) := j];
      rest := rest - {c};
    }
  }

  /** A round of buildTransitions either finds nothing new or finds a subset of states not found before. */
  lemma FoundGrows(u: set<State>, before: seq<StateSet>, after: seq<StateSet>)
    requires before <= after
    requires forall k :: 0 <= k < |after| ==> Content(after[k]) <= u
    requires forall a, b :: 0 <= a < b < |after| ==> Content(after[a]) != Content(after[b])
    ensures after == before || Pow(u) - Found(after) < Pow(u) - Found(before)
  {
    if |after| > |before| {
      var x := Content(after[|before|]);
      assert x in Found(after);
      assert x !in Found(before) by {
        forall k | 0 <= k < |before| ensures Content(before[k]) != x {
          assert before[k] == after[k];
        }
      }
      assert Found(before) <= Found(after) by {
        forall k | 0 <= k < |before| ensures Content(before[k]) in Found(after) {
          assert before[k] == after[k];
        }
      }
      assert x in Pow(u);
    } else {
      assert after == before;
    }
  }

  // ---------------------------------------------------------------------------
  // The DFA built from the subsets

  /** The DFA state standing for the k-th subset: named "q" + k, initial for the first, final when it holds a final state. */
  function Rep(subsets: seq<StateSet>, k: nat): State
    requires k < |subsets|
  {
    State(IndexName(k), k == 0, HasFinal(subsets[k]))
  }

  /** Some state of `ss` is final. */
  function HasFinal(ss: StateSet): bool {
    ss != [] && (ss[0].isFinal || HasFinal(ss[1..]))
  }

  lemma {:induction false} HasFinalIff(ss: StateSet)
    ensures HasFinal(ss) <==> exists x :: x in Content(ss) && x.isFinal
  {
    if ss != [] {
      HasFinalIff(ss[1..]);
      assert Content(ss) == {ss[0]} + Content(ss[1..]);
    }
  }

  /** A prefix one character longer. */
  lemma PrefixSnoc(w: string, p: nat)
    requires 0 < p <= |w|
    ensures w[..p] == w[..p - 1] + [w[p - 1]]
  {
  }

  lemma PrefixSplit(w: string, p: nat)
    requires p <= |w|
    ensures w == w[..p] + w[p..]
  {
  }

  /** Reading one more character after a defined run follows one transition. */
  lemma RunSnoc(delta: Delta, s: State, u: string, c: char, t: State, t': State)
    requires D.Run(delta, s, u) == Some(t) && D.Next(delta, t, c) == Some(t')
    ensures D.Run(delta, s, u + [c]) == Some(t')
  {
    D.RunAppend(delta, s, u, [c]);
    assert D.Run(delta, t, [c]) == Some(t');
  }

  /** One DFA state per subset, in discovery order. */
  function RepStates(subsets: seq<StateSet>): (r: StateSet)
    ensures |r| == |subsets| && forall k :: 0 <= k < |r| ==> r[k] == Rep(subsets, k)
  {
    seq(|subsets|, k requires 0 <= k < |subsets| => Rep(subsets, k))
  }

  /** One triple per transition found, between the DFA states of its two subsets. */
  function RepTriples(subsets: seq<StateSet>, arcs: map<(nat, char), nat>): set<Triple>
    requires forall p :: p in arcs ==> p.0 < |subsets| && arcs[p] < |subsets|
  {
    set p | p in arcs.Keys :: Triple(Rep(subsets, p.0), Some(p.1), Rep(subsets, arcs[p]))
  }

  /** The triples leave states of the DFA, carry symbols, and give one destination per state and symbol. */
  lemma RepDeterministic(subsets: seq<StateSet>, arcs: map<(nat, char), nat>)
    requires forall p :: p in arcs ==> p.0 < |subsets| && arcs[p] < |subsets|
    ensures D.DeterministicTriples(RepStates(subsets), RepTriples(subsets, arcs))
  {
    var states := RepStates(subsets);
    var ts := RepTriples(subsets, arcs);
    forall t | t in ts ensures t.source.name in Names(states) && t.symbol.Some? {
      var p :| p in arcs && t == Triple(Rep(subsets, p.0), Some(p.1), Rep(subsets, arcs[p]));
      assert states[p.0] == t.source;
    }
    forall t, u | t in ts && u in ts && t.source.name == u.source.name && t.symbol == u.symbol ensures t == u {
      var p :| p in arcs && t == Triple(Rep(subsets, p.0), Some(p.1), Rep(subsets, arcs[p]));
      var p' :| p' in arcs && u == Triple(Rep(subsets, p'.0), Some(p'.1), Rep(subsets, arcs[p']));
      IndexNameInjective(p.0, p'.0);
      assert p == p';
    }
  }

  /** The DFA states have distinct names, and only the first is initial. */
  lemma RepStatesShape(subsets: seq<StateSet>)
    requires |subsets| > 0
    ensures UniqueNames(RepStates(subsets)) && CountInitial(RepStates(subsets)) == 1
    ensures InitialState(RepStates(subsets)) == Some(Rep(subsets, 0))
  {
    var states := RepStates(subsets);
    forall a, b | 0 <= a < b < |states| ensures states[a].name != states[b].name {
      IndexNameInjective(a, b);
    }
    assert states[0] == Rep(subsets, 0);
    CountInitialOne(states);
    InitialStateOfOne(states, Rep(subsets, 0));
  }

  /** The transitions found lead between subsets found, on symbols of the alphabet. */
  ghost predicate Indexed(subsets: seq<StateSet>, arcs: map<(nat, char), nat>, alphabet: set<char>) {
    forall p :: p in arcs ==> p.0 < |subsets| && arcs[p] < |subsets| && p.1 in alphabet
  }

  lemma LinkedIndexed(n: N.NFALambda, subsets: seq<StateSet>, arcs: map<(nat, char), nat>)
    requires n.NFALambda? && Linked(n, subsets, arcs, |subsets|, n.alphabet)
    ensures Indexed(subsets, arcs, n.alphabet)
  {
  }

  /** A stored source is the name of a DFA state. */
  lemma RepSource(subsets: seq<StateSet>, arcs: map<(nat, char), nat>, alphabet: set<char>, delta: Delta, m: string)
    requires Indexed(subsets, arcs, alphabet) && D.StoresSingletons(delta, RepTriples(subsets, arcs)) && m in delta
    ensures m in Names(RepStates(subsets))
  {
    var t :| t in RepTriples(subsets, arcs) && t.source.name == m;
    var p :| p in arcs && t == Triple(Rep(subsets, p.0), Some(p.1), Rep(subsets, arcs[p]));
    assert RepStates(subsets)[p.0] == t.source;
  }

  /** A stored arc is on a symbol of the alphabet and leads to one DFA state. */
  lemma RepArc(subsets: seq<StateSet>, arcs: map<(nat, char), nat>, d: D.DFA, m: string, c: Symbol)
    requires d.DFA? && Indexed(subsets, arcs, d.alphabet) && d.states == RepStates(subsets)
    requires D.StoresSingletons(d.delta, RepTriples(subsets, arcs)) && m in d.delta && c in d.delta[m]
    ensures D.ArcOk(d, m, c)
  {
    assert (m, c) in ArcKeys(RepTriples(subsets, arcs));
    var t :| t in RepTriples(subsets, arcs) && (t.source.name, t.symbol) == (m, c);
    var p :| p in arcs && t == Triple(Rep(subsets, p.0), Some(p.1), Rep(subsets, arcs[p]));
    assert d.states[arcs[p]] == t.target;
  }

  /** Every stored arc comes from a transition found: it leaves a DFA state, on a symbol of the alphabet, to one DFA state. */
  lemma RepArcs(subsets: seq<StateSet>, arcs: map<(nat, char), nat>, d: D.DFA)
    requires d.DFA? && Indexed(subsets, arcs, d.alphabet) && d.states == RepStates(subsets)
    requires D.StoresSingletons(d.delta, RepTriples(subsets, arcs))
    ensures forall m :: m in d.delta ==> m in Names(d.states)
    ensures forall m, c :: m in d.delta && c in d.delta[m] ==> D.ArcOk(d, m, c)
  {
    forall m | m in d.delta ensures m in Names(d.states) {
      RepSource(subsets, arcs, d.alphabet, d.delta, m);
    }
    forall m, c | m in d.delta && c in d.delta[m] ensures D.ArcOk(d, m, c) {
      RepArc(subsets, arcs, d, m, c);
    }
  }

  /** From the DFA state of subset k, a symbol of the alphabet leads to the state of the subset found for it; any other symbol is undefined. */
  lemma NextRep(n: N.NFALambda, subsets: seq<StateSet>, arcs: map<(nat, char), nat>, delta: Delta, k: nat, c: char)
    requires n.NFALambda? && Linked(n, subsets, arcs, |subsets|, n.alphabet)
    requires D.StoresSingletons(delta, RepTriples(subsets, arcs)) && k < |subsets|
    ensures c in n.alphabet ==> (k, c) in arcs && D.Next(delta, Rep(subsets, k), c) == Some(Rep(subsets, arcs[(k, c)]))
    ensures c !in n.alphabet ==> D.Next(delta, Rep(subsets, k), c) == None
  {
    var ts := RepTriples(subsets, arcs);
    if c in n.alphabet {
      var t := Triple(Rep(subsets, k), Some(c), Rep(subsets, arcs[(k, c)]));
      assert t in ts;
    }
  }

  /** One character more: the DFA follows the transition found for the subset of the shorter prefix. */
  lemma RunRepStep(n: N.NFALambda, subsets: seq<StateSet>, arcs: map<(nat, char), nat>, delta: Delta, w: string, p: nat, i: nat)
    returns (j: nat)
    requires Proper(n) && Linked(n, subsets, arcs, |subsets|, n.alphabet)
    requires D.StoresSingletons(delta, RepTriples(subsets, arcs))
    requires 0 < p <= |w| && w[p - 1] in n.alphabet && i < |subsets|
    requires D.Run(delta, Rep(subsets, 0), w[..p - 1]) == Some(Rep(subsets, i))
    requires Content(subsets[i]) == WalkTo(n, w, p - 1)
    ensures j < |subsets| && D.Run(delta, Rep(subsets, 0), w[..p]) == Some(Rep(subsets, j))
    ensures Content(subsets[j]) == WalkTo(n, w, p)
  {
    NextRep(n, subsets, arcs, delta, i, w[p - 1]);
    j := arcs[(i, w[p - 1])];
    RunSnoc(delta, Rep(subsets, 0), w[..p - 1], w[p - 1], Rep(subsets, i), Rep(subsets, j));
    PrefixSnoc(w, p);
  }

  /** Reading a prefix over the alphabet, the DFA moves to the state of the subset WalkTo gives for it. */
  lemma {:induction false} RunRep(n: N.NFALambda, subsets: seq<StateSet>, arcs: map<(nat, char), nat>, delta: Delta, w: string, p: nat)
    returns (j: nat)
    requires Proper(n) && |subsets| > 0 && Linked(n, subsets, arcs, |subsets|, n.alphabet)
    requires Content(subsets[0]) == EClose(n.delta, n.states, {InitialState(n.states).value})
    requires D.StoresSingletons(delta, RepTriples(subsets, arcs))
    requires p <= |w| && forall k :: 0 <= k < p ==> w[k] in n.alphabet
    ensures j < |subsets| && D.Run(delta, Rep(subsets, 0), w[..p]) == Some(Rep(subsets, j))
    ensures Content(subsets[j]) == WalkTo(n, w, p)
    decreases p
  {
    if p == 0 {
      assert w[..0] == [];
      j := 0;
    } else {
      var i := RunRep(n, subsets, arcs, delta, w, p - 1);
      j := RunRepStep(n, subsets, arcs, delta, w, p, i);
    }
  }

  /** The first character of `w` outside the alphabet. */
  lemma FirstForeign(alphabet: set<char>, w: string) returns (p: nat)
    requires !OverAlphabet(alphabet, w)
    ensures p < |w| && w[p] !in alphabet && forall k :: 0 <= k < p ==> w[k] in alphabet
  {
    p := 0;
    while w[p] in alphabet
      invariant p < |w| && forall k :: 0 <= k < p ==> w[k] in alphabet
      decreases |w| - p
    {
      p := p + 1;
    }
  }

  /** A character outside the alphabet leaves the DFA's run undefined. */
  lemma RunStuck(n: N.NFALambda, subsets: seq<StateSet>, arcs: map<(nat, char), nat>, delta: Delta, w: string, p: nat)
    requires Proper(n) && |subsets| > 0 && Linked(n, subsets, arcs, |subsets|, n.alphabet)
    requires Content(subsets[0]) == EClose(n.delta, n.states, {InitialState(n.states).value})
    requires D.StoresSingletons(delta, RepTriples(subsets, arcs))
    requires p < |w| && w[p] !in n.alphabet && forall k :: 0 <= k < p ==> w[k] in n.alphabet
    ensures D.Run(delta, Rep(subsets, 0), w) == None
  {
    var i := RunRep(n, subsets, arcs, delta, w, p);
    NextRep(n, subsets, arcs, delta, i, w[p]);
    D.RunAppend(delta, Rep(subsets, 0), w[..p], [w[p]]);
    PrefixSnoc(w, p + 1);
    D.RunAppend(delta, Rep(subsets, 0), w[..p + 1], w[p + 1..]);
    PrefixSplit(w, p + 1);
  }

  /** The DFA of the subsets is defined exactly on the strings over the alphabet and accepts what the epsilon-automaton accepts. */
  lemma SameLanguage(n: N.NFALambda, subsets: seq<StateSet>, arcs: map<(nat, char), nat>, d: D.DFA, w: string)
    requires Proper(n) && |subsets| > 0 && Linked(n, subsets, arcs, |subsets|, n.alphabet)
    requires Content(subsets[0]) == EClose(n.delta, n.states, {InitialState(n.states).value})
    requires d.DFA? && InitialState(d.states) == Some(Rep(subsets, 0))
    requires D.StoresSingletons(d.delta, RepTriples(subsets, arcs))
    ensures D.Defined(d, w) <==> OverAlphabet(n.alphabet, w)
    ensures D.InLanguage(d, w) <==> N.InLanguage(n, w)
  {
    AcceptsIffFinal(n, w);
    if OverAlphabet(n.alphabet, w) {
      var j := RunRep(n, subsets, arcs, d.delta, w, |w|);
      assert w[..|w|] == w;
      HasFinalIff(subsets[j]);
    } else {
      var p := FirstForeign(n.alphabet, w);
      RunStuck(n, subsets, arcs, d.delta, w, p);
      if exists x :: x in WalkTo(n, w, |w|) && x.isFinal {
        var x :| x in WalkTo(n, w, |w|) && x.isFinal;
        WalkOverAlphabet(n, w, |w|, x);
      }
    }
  }

  /**
   * NFALambda.toDFA by the subset construction: starting from the epsilon-closure of the
   * initial state, buildTransitions runs for each subset in discovery order until no new
   * subset turns up. The result is a well-formed DFA with the same alphabet, defined on
   * exactly the strings over it, whose language is the epsilon-automaton's.
   */
  method ToDFA(n: N.NFALambda) returns (d: D.DFA)
    requires n.NFALambda? && N.Valid(n) && UniqueNames(n.states)
    ensures d.DFA? && d.alphabet == n.alphabet && D.Valid(d) && UniqueNames(d.states)
    ensures forall w :: D.Defined(d, w) <==> OverAlphabet(n.alphabet, w)
    ensures forall w :: D.InLanguage(d, w) <==> N.InLanguage(n, w)
  {
    ValidProper(n);
    var init := InitialState(n.states).value;
    var first := N.Closure(n.delta, [init]);
    ClosureIsEClose(n.delta, n.states, [init], first);
    assert Content([init]) == {init};
    ECloseIn(n.delta, n.states, {init});
    var subsets := [first];
    var arcs: map<(nat, char), nat> := map[];
    var i := 0;
    while i < |subsets|
      invariant i <= |subsets| && Discovered(n, subsets) && Linked(n, subsets, arcs, i, n.alphabet)
      decreases Pow(Content(n.states)) - Found(subsets), |subsets| - i
    {
      ghost var before := subsets;
      subsets, arcs := BuildTransitions(n, subsets, arcs, i);
      FoundGrows(Content(n.states), before, subsets);
      i := i + 1;
    }
    RepDeterministic(subsets, arcs);
    var r := D.NewDFA(RepStates(subsets), n.alphabet, RepTriples(subsets, arcs));
    d := r.value;
    RepStatesShape(subsets);
    LinkedIndexed(n, subsets, arcs);
    RepArcs(subsets, arcs, d);
    forall w ensures (D.Defined(d, w) <==> OverAlphabet(n.alphabet, w)) && (D.InLanguage(d, w) <==> N.InLanguage(n, w)) {
      SameLanguage(n, subsets, arcs, d, w);
    }
  }
}
