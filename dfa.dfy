/**
 * The deterministic automaton (class DFA): construction from transition triples,
 * cloning, acceptance, the representation invariant and the complement.
 */
module DFAs {
  import opened Wrappers
  import opened States
  import opened Automata

  /** A DFA's three fields; `NullDFA` is the automaton whose fields are all null. */
  datatype DFA = NullDFA | DFA(states: StateSet, alphabet: set<char>, delta: Delta)

  // ---------------------------------------------------------------------------
  // Construction

  /** The triples a DFA can be built from: known sources, no epsilon, one arc per (state, symbol). */
  ghost predicate DeterministicTriples(states: StateSet, ts: set<Triple>) {
    && (forall t :: t in ts ==> t.source.name in Names(states) && t.symbol.Some?)
    && (forall t, u :: t in ts && u in ts && t.source.name == u.source.name && t.symbol == u.symbol ==> t == u)
  }

  /** `delta` stores exactly the arcs of `ts`, each destination as a singleton StateSet. */
  ghost predicate StoresSingletons(delta: Delta, ts: set<Triple>) {
    && delta.Keys == Sources(ts)
    && (forall n, c :: n in delta && c in delta[n] ==> (n, c) in ArcKeys(ts))
    && (forall t :: t in ts ==>
          t.source.name in delta && t.symbol in delta[t.source.name] &&
          delta[t.source.name][t.symbol] == [t.target])
  }

  /** A failure names a violation that some triple of `ts` really commits. */
  ghost predicate Witnessed(states: StateSet, ts: set<Triple>, e: Error) {
    match e
    case UnknownSourceState => exists t :: t in ts && t.source.name !in Names(states)
    case EpsilonTransition => exists t :: t in ts && t.source.name in Names(states) && t.symbol.None?
    case DuplicateTransition =>
      exists t, u :: t in ts && u in ts && t != u && t.source.name == u.source.name && t.symbol == u.symbol
    case _ => false
  }

  /**
   * The DFA constructor. Java iterates a HashSet, so the triples are taken in an
   * unspecified order; whichever violation is met first is reported.
   */
  method NewDFA(states: StateSet, alphabet: set<char>, transitions: set<Triple>) returns (r: Result<DFA, Error>)
    ensures r.Ok? <==> DeterministicTriples(states, transitions)
    ensures r.Ok? ==> r.value.DFA? && r.value.states == states && r.value.alphabet == alphabet
    ensures r.Ok? ==> StoresSingletons(r.value.delta, transitions)
    ensures r.Err? ==> Witnessed(states, transitions, r.error)
  {
    var delta: Delta := map[];
    var todo := transitions;
    ghost var done: set<Triple> := {};
    while todo != {}
      invariant todo <= transitions && done == transitions - todo
      invariant DeterministicTriples(states, done)
      invariant StoresSingletons(delta, done)
      decreases todo
    {
      var t :| t in todo;
      if BelongTo(states, t.source.name).None? {
        assert t in transitions && t.source.name !in Names(states);
        return Err(UnknownSourceState);
      }
      if t.symbol.None? {
        assert t in transitions && t.symbol.None?;
        return Err(EpsilonTransition);
      }
      if t.source.name in delta && t.symbol in delta[t.source.name] {
        assert (t.source.name, t.symbol) in ArcKeys(done);
        ghost var u :| u in done && (u.source.name, u.symbol) == (t.source.name, t.symbol);
        assert u in transitions && t in transitions && u != t;
        return Err(DuplicateTransition);
      }
      AddDeterministic(states, delta, done, t);
      AddSingleton(delta, done, t);
      delta := Put(delta, t);
      MoveOne(transitions, todo, t);
      done := done + {t};
      todo := todo - {t};
    }
    assert done == transitions;
    return Ok(DFA(states, alphabet, delta));
  }

  /** One step of the constructor's loop: a fresh (state, symbol) pair keeps the triples deterministic. */
  lemma AddDeterministic(states: StateSet, delta: Delta, done: set<Triple>, t: Triple)
    requires DeterministicTriples(states, done) && StoresSingletons(delta, done)
    requires t.source.name in Names(states) && t.symbol.Some?
    requires !(t.source.name in delta && t.symbol in delta[t.source.name])
    ensures DeterministicTriples(states, done + {t})
  {
    forall u | u in done && u.source.name == t.source.name && u.symbol == t.symbol
      ensures false
    {
    }
  }

  /** One step of the constructor's loop: the triple's destination is stored for its pair. */
  function Put(delta: Delta, t: Triple): Delta {
    var arcs := if t.source.name in delta then delta[t.source.name] else map[];
    delta[t.source.name := arcs[t.symbol := [t.target]]]
  }

  /** Storing the arc of a fresh pair keeps the relation exact. */
  lemma AddSingleton(delta: Delta, done: set<Triple>, t: Triple)
    requires StoresSingletons(delta, done)
    requires !(t.source.name in delta && t.symbol in delta[t.source.name])
    ensures StoresSingletons(Put(delta, t), done + {t})
  {
    var delta', done' := Put(delta, t), done + {t};
    AddTripleKeys(done, t);
    assert delta'.Keys == delta.Keys + {t.source.name};
    forall n, c | n in delta' && c in delta'[n] ensures (n, c) in ArcKeys(done') {
      if (n, c) != (t.source.name, t.symbol) {
        assert n in delta && c in delta[n];
      }
    }
    forall u | u in done'
      ensures u.source.name in delta' && u.symbol in delta'[u.source.name]
      ensures delta'[u.source.name][u.symbol] == [u.target]
    {
      if u != t {
        assert (u.source.name, u.symbol) != (t.source.name, t.symbol);
      }
    }
  }

  // ---------------------------------------------------------------------------
  // Acceptance

  /** The single destination of the arc from `s` on `c`, if that arc is defined. */
  function Next(delta: Delta, s: State, c: char): Option<State> {
    var ds := Lookup(delta, s, Some(c));
    if ds == [] then None else Some(ds[0])
  }

  /** The state reached from `s` by reading `w`; None once an arc is undefined. */
  function Run(delta: Delta, s: State, w: string): Option<State>
    decreases |w|
  {
    if w == [] then Some(s)
    else match Next(delta, s, w[0])
      case None => None
      case Some(t) => Run(delta, t, w[1..])
  }

  /** Reading u then v is reading u + v; an undefined arc rejects the rest of the input. */
  lemma {:induction false} RunAppend(delta: Delta, s: State, u: string, v: string)
    ensures Run(delta, s, u + v) == match Run(delta, s, u)
                                    case None => None
                                    case Some(t) => Run(delta, t, v)
    decreases |u|
  {
    if u == [] {
      assert u + v == v;
    } else {
      assert (u + v)[0] == u[0] && (u + v)[1..] == u[1..] + v;
      match Next(delta, s, u[0])
      case None =>
      case Some(t) => RunAppend(delta, t, u[1..], v);
    }
  }

  /** In a well-formed DFA every run from a member state stays among the members. */
  lemma {:induction false} RunStaysIn(d: DFA, s: State, w: string)
    requires d.DFA? && Valid(d) && s in d.states
    ensures Run(d.delta, s, w).Some? ==> Run(d.delta, s, w).value in d.states
    decreases |w|
  {
    if w != [] {
      match Next(d.delta, s, w[0])
      case None =>
      case Some(t) =>
        assert ArcOk(d, s.name, Some(w[0]));
        RunStaysIn(d, t, w[1..]);
    }
  }

  /** The run of `d` on `w` is defined to the end (no transition was missing). */
  ghost predicate Defined(d: DFA, w: string) {
    d.DFA? && InitialState(d.states).Some? &&
    Run(d.delta, InitialState(d.states).value, w).Some?
  }

  /** The language of `d`: the run from the initial state is defined and ends in a final state. */
  ghost predicate InLanguage(d: DFA, w: string) {
    Defined(d, w) && Run(d.delta, InitialState(d.states).value, w).value.isFinal
  }

  /** An undefined transition rejects: once a prefix gets stuck, no extension is accepted. */
  lemma StuckPrefixRejects(d: DFA, u: string, v: string)
    requires d.DFA? && InitialState(d.states).Some?
    requires !Defined(d, u)
    ensures !Defined(d, u + v) && !InLanguage(d, u + v)
  {
    RunAppend(d.delta, InitialState(d.states).value, u, v);
  }

  /** The empty string is accepted exactly when the initial state is final. */
  lemma EmptyString(d: DFA)
    requires d.DFA? && InitialState(d.states).Some?
    ensures InLanguage(d, []) <==> InitialState(d.states).value.isFinal
  {
  }

  /** DFA.accepts: checks the input against the alphabet, then follows the unique arcs. */
  method Accepts(d: DFA, w: string) returns (r: Result<bool, Error>)
    ensures d.NullDFA? ==> r == Err(Uninitialized)
    ensures d.DFA? && !OverAlphabet(d.alphabet, w) ==> r == Err(SymbolNotInAlphabet)
    ensures d.DFA? && OverAlphabet(d.alphabet, w) && InitialState(d.states).None? ==>
              r == Err(NoInitialState)
    ensures d.DFA? && OverAlphabet(d.alphabet, w) && InitialState(d.states).Some? ==>
              r == Ok(InLanguage(d, w))
  {
    if d.NullDFA? {
      return Err(Uninitialized);
    }
    if !OverAlphabet(d.alphabet, w) {
      return Err(SymbolNotInAlphabet);
    }
    if InitialState(d.states).None? {
      return Err(NoInitialState);
    }
    var init := InitialState(d.states).value;
    var s := init;
    var i := 0;
    while i < |w|
      invariant 0 <= i <= |w|
      invariant Run(d.delta, init, w) == Run(d.delta, s, w[i..])
    {
      var next := Lookup(d.delta, s, Some(w[i]));
      assert w[i..][0] == w[i] && w[i..][1..] == w[i + 1..];
      if |next| == 0 {
        return Ok(false);
      }
      s := next[0];
      i := i + 1;
    }
    return Ok(s.isFinal);
  }

  // ---------------------------------------------------------------------------
  // Representation invariant

  /** The arcs stored for (n, c) in a well-formed DFA. */
  predicate ArcOk(d: DFA, n: string, c: Symbol)
    requires d.DFA? && n in d.delta && c in d.delta[n]
  {
    && c.Some? && c.value in d.alphabet
    && |d.delta[n][c]| <= 1
    && forall x :: x in d.delta[n][c] ==> x in d.states
  }

  /** DFA.repOk as a predicate: the sentinel, or one initial state and well-formed arcs. */
  ghost predicate Valid(d: DFA) {
    d.NullDFA? ||
    (&& CountInitial(d.states) == 1
     && (forall n :: n in d.delta ==> n in Names(d.states))
     && (forall n, c :: n in d.delta && c in d.delta[n] ==> ArcOk(d, n, c)))
  }

  /** The inner loop of repOk over the symbols stored for the state named `n`. */
  method CheckArcs(d: DFA, n: string) returns (ok: bool)
    requires d.DFA? && n in d.delta
    ensures ok <==> forall c :: c in d.delta[n] ==> ArcOk(d, n, c)
  {
    var m := d.delta[n];
    var symbols := m.Keys;
    while symbols != {}
      invariant symbols <= m.Keys
      invariant forall c :: c in m.Keys - symbols ==> ArcOk(d, n, c)
      decreases symbols
    {
      var c :| c in symbols;
      if c.None? || c.value !in d.alphabet {
        return false;
      }
      var p := m[c];
      if |p| > 1 {
        return false;
      }
      var members := AllMembers(d.states, p);
      if !members {
        return false;
      }
      symbols := symbols - {c};
    }
    assert m.Keys - symbols == m.Keys;
    return true;
  }

  /** DFA.repOk: counts the initial states, then checks every stored arc. */
  method RepOk(d: DFA) returns (ok: bool)
    ensures ok <==> Valid(d)
  {
    if d.NullDFA? {
      return true;
    }
    var initials := CountInitials(d.states);
    if initials != 1 {
      return false;
    }
    var keys := d.delta.Keys;
    while keys != {}
      invariant keys <= d.delta.Keys
      invariant forall n :: n in d.delta.Keys - keys ==> n in Names(d.states)
      invariant forall n, c :: n in d.delta.Keys - keys && c in d.delta[n] ==> ArcOk(d, n, c)
      decreases keys
    {
      var n :| n in keys;
      if BelongTo(d.states, n).None? {
        return false;
      }
      var arcsOk := CheckArcs(d, n);
      if !arcsOk {
        return false;
      }
      keys := keys - {n};
    }
    assert d.delta.Keys - keys == d.delta.Keys;
    return true;
  }

  // ---------------------------------------------------------------------------
  // Cloning

  /** The arc cloneDelta copies: a member state, an alphabet symbol and the first stored destination. */
  ghost predicate CloneArc(d: DFA, t: Triple)
    requires d.DFA?
  {
    && t.source in d.states && t.symbol.Some? && t.symbol.value in d.alphabet
    && Lookup(d.delta, t.source, t.symbol) != []
    && t.target == Lookup(d.delta, t.source, t.symbol)[0]
  }

  /** DFA.cloneDelta: the triple set that rebuilds the automaton's arcs. */
  method CloneDelta(d: DFA) returns (t: set<Triple>)
    requires d.DFA?
    ensures forall tr :: tr in t <==> CloneArc(d, tr)
  {
    t := {};
    var i := 0;
    while i < |d.states|
      invariant 0 <= i <= |d.states|
      invariant forall tr :: tr in t <==> CloneArc(d, tr) && tr.source in d.states[..i]
    {
      var s := d.states[i];
      var rest := d.alphabet;
      while rest != {}
        invariant rest <= d.alphabet
        invariant forall tr :: tr in t <==>
          CloneArc(d, tr) && (tr.source in d.states[..i] || (tr.source == s && tr.symbol.value !in rest))
        decreases rest
      {
        var c :| c in rest;
        var setD := Lookup(d.delta, s, Some(c));
        if |setD| > 0 {
          t := t + {Triple(s, Some(c), setD[0])};
        }
        rest := rest - {c};
      }
      assert d.states[..i + 1] == d.states[..i] + [s];
      i := i + 1;
    }
    assert d.states[..i] == d.states;
  }

  /** Two relations that agree on every single-step move. */
  ghost predicate SameMoves(d1: Delta, d2: Delta) {
    forall x, c :: Next(d1, x, c) == Next(d2, x, c)
  }

  lemma {:induction false} SameMovesSameRun(d1: Delta, d2: Delta, s: State, w: string)
    requires SameMoves(d1, d2)
    ensures Run(d1, s, w) == Run(d2, s, w)
    decreases |w|
  {
    if w != [] {
      assert Next(d1, s, w[0]) == Next(d2, s, w[0]);
      match Next(d1, s, w[0])
      case None =>
      case Some(t) => SameMovesSameRun(d1, d2, t, w[1..]);
    }
  }

  /** A relation stored from the clone triples makes the same moves as the original. */
  lemma CloneMoves(d: DFA, ts: set<Triple>, delta: Delta)
    requires d.DFA? && Valid(d)
    requires forall tr :: tr in ts <==> CloneArc(d, tr)
    requires StoresSingletons(delta, ts)
    ensures SameMoves(delta, d.delta)
  {
    forall x, c ensures Next(delta, x, c) == Next(d.delta, x, c) {
      if Lookup(d.delta, x, Some(c)) != [] {
        assert x.name in Names(d.states);
        var s :| s in d.states && s.name == x.name;
        assert Lookup(d.delta, s, Some(c)) == Lookup(d.delta, x, Some(c));
        assert ArcOk(d, x.name, Some(c));
        assert CloneArc(d, Triple(s, Some(c), Lookup(d.delta, x, Some(c))[0]));
      }
    }
  }

  /** DFA.cloneDFA: the state set and alphabet copied by value, the arcs through cloneDelta. */
  method CloneDFA(d: DFA) returns (r: Result<DFA, Error>)
    requires d.DFA?
    ensures UniqueNames(d.states) ==> r.Ok?
    ensures r.Ok? ==> r.value.DFA? && r.value.states == d.states && r.value.alphabet == d.alphabet
    ensures r.Ok? && Valid(d) ==> SameMoves(r.value.delta, d.delta)
  {
    var t := CloneDelta(d);
    if UniqueNames(d.states) {
      forall u, v | u in t && v in t && u.source.name == v.source.name && u.symbol == v.symbol
        ensures u == v
      {
        var i :| 0 <= i < |d.states| && d.states[i] == u.source;
        var j :| 0 <= j < |d.states| && d.states[j] == v.source;
        assert i == j;
      }
    }
    r := NewDFA(d.states, d.alphabet, t);
    if r.Ok? && Valid(d) {
      CloneMoves(d, t, r.value.delta);
    }
  }

  // ---------------------------------------------------------------------------
  // Complement

  /** A cloned state after setFinal(!isFinal). */
  function Flip(s: State): State {
    s.(isFinal := !s.isFinal)
  }

  function FlipMove(m: Option<State>): Option<State> {
    match m
    case None => None
    case Some(s) => Some(Flip(s))
  }

  /** Position by position, `b` is `a` with every final flag negated. */
  ghost predicate FlippedStates(a: StateSet, b: StateSet) {
    |a| == |b| && forall k :: 0 <= k < |a| ==> b[k] == Flip(a[k])
  }

  /** Negating final flags keeps the initial flags, hence the initial state. */
  lemma {:induction false} FlippedInitial(a: StateSet, b: StateSet)
    requires FlippedStates(a, b)
    ensures CountInitial(b) == CountInitial(a)
    ensures InitialState(b) == FlipMove(InitialState(a))
  {
    if a != [] {
      FlippedInitial(a[1..], b[1..]);
    }
  }

  /** Negating final flags keeps the names, membership and their uniqueness. */
  lemma FlippedNames(a: StateSet, b: StateSet)
    requires FlippedStates(a, b)
    ensures Names(b) == Names(a)
    ensures forall x :: x in a ==> Flip(x) in b
    ensures UniqueNames(a) ==> UniqueNames(b)
  {
    forall x | x in a ensures Flip(x) in b {
      var k :| 0 <= k < |a| && a[k] == x;
      assert b[k] == Flip(x);
    }
    forall n | n in Names(b) ensures n in Names(a) {
      var y :| y in b && y.name == n;
      var k :| 0 <= k < |b| && b[k] == y;
      assert a[k].name == n;
    }
  }

  lemma FlippedKeeps(a: StateSet, b: StateSet)
    requires FlippedStates(a, b)
    ensures CountInitial(b) == CountInitial(a)
    ensures InitialState(b) == FlipMove(InitialState(a))
    ensures Names(b) == Names(a)
    ensures forall x :: x in a ==> Flip(x) in b
    ensures UniqueNames(a) ==> UniqueNames(b)
  {
    FlippedInitial(a, b);
    FlippedNames(a, b);
  }

  /** The arc complement adds: the flipped image of an arc cloneDelta would copy. */
  ghost predicate ComplementArc(d: DFA, t: Triple)
    requires d.DFA?
  {
    CloneArc(d, Triple(Flip(t.source), t.symbol, Flip(t.target)))
  }

  lemma {:induction false} FlippedRun(d1: Delta, d2: Delta, s: State, w: string)
    requires forall x, c :: Next(d2, Flip(x), c) == FlipMove(Next(d1, x, c))
    ensures Run(d2, Flip(s), w) == FlipMove(Run(d1, s, w))
    decreases |w|
  {
    if w != [] {
      assert Next(d2, Flip(s), w[0]) == FlipMove(Next(d1, s, w[0]));
      match Next(d1, s, w[0])
      case None =>
      case Some(t) => FlippedRun(d1, d2, t, w[1..]);
    }
  }

  /** The relation stored from the complement's triples moves like `d`, with flipped states. */
  lemma ComplementMoves(d: DFA, dfa: DFA, ts: set<Triple>, delta: Delta)
    requires d.DFA? && Valid(d)
    requires dfa.DFA? && dfa.states == d.states && dfa.alphabet == d.alphabet
    requires SameMoves(dfa.delta, d.delta)
    requires forall tr :: tr in ts <==> ComplementArc(dfa, tr)
    requires StoresSingletons(delta, ts)
    ensures forall x, c :: Next(delta, Flip(x), c) == FlipMove(Next(d.delta, x, c))
  {
    forall x, c ensures Next(delta, Flip(x), c) == FlipMove(Next(d.delta, x, c)) {
      assert Next(dfa.delta, x, c) == Next(d.delta, x, c);
      if Lookup(d.delta, x, Some(c)) != [] {
        assert ArcOk(d, x.name, Some(c));
        assert x.name in Names(d.states);
        var s :| s in d.states && s.name == x.name;
        assert Lookup(dfa.delta, s, Some(c)) == Lookup(dfa.delta, x, Some(c));
        var y := Lookup(dfa.delta, x, Some(c))[0];
        assert Flip(Flip(s)) == s && Flip(Flip(y)) == y;
        assert ComplementArc(dfa, Triple(Flip(s), Some(c), Flip(y)));
      }
    }
  }

  /** One stored arc of the complement is well formed. */
  lemma ComplementArcOk(d: DFA, dfa: DFA, ss: StateSet, ts: set<Triple>, delta: Delta, n: string, c: Symbol)
    requires d.DFA? && Valid(d)
    requires dfa.DFA? && dfa.states == d.states && dfa.alphabet == d.alphabet
    requires SameMoves(dfa.delta, d.delta)
    requires forall x :: x in d.states ==> Flip(x) in ss
    requires forall tr :: tr in ts <==> ComplementArc(dfa, tr)
    requires StoresSingletons(delta, ts)
    requires n in delta && c in delta[n]
    ensures ArcOk(DFA(ss, d.alphabet, delta), n, c)
  {
    assert (n, c) in ArcKeys(ts);
    var tr :| tr in ts && (tr.source.name, tr.symbol) == (n, c);
    var src := Flip(tr.source);
    assert CloneArc(dfa, Triple(src, c, Flip(tr.target)));
    assert Next(dfa.delta, src, c.value) == Next(d.delta, src, c.value);
    assert ArcOk(d, n, c);
    assert Lookup(d.delta, src, c)[0] in d.states;
    assert Flip(Flip(tr.target)) == tr.target;
  }

  /** The complement of a well-formed DFA is well formed. */
  lemma ComplementValid(d: DFA, dfa: DFA, ss: StateSet, ts: set<Triple>, delta: Delta)
    requires d.DFA? && Valid(d)
    requires dfa.DFA? && dfa.states == d.states && dfa.alphabet == d.alphabet
    requires SameMoves(dfa.delta, d.delta)
    requires FlippedStates(d.states, ss)
    requires forall tr :: tr in ts <==> ComplementArc(dfa, tr)
    requires StoresSingletons(delta, ts)
    ensures Valid(DFA(ss, d.alphabet, delta))
  {
    FlippedKeeps(d.states, ss);
    forall n | n in delta ensures n in Names(ss) {
      var tr :| tr in ts && tr.source.name == n;
      assert Flip(tr.source) in d.states;
      assert Flip(tr.source).name == n;
    }
    forall n, c | n in delta && c in delta[n] ensures ArcOk(DFA(ss, d.alphabet, delta), n, c) {
      ComplementArcOk(d, dfa, ss, ts, delta, n, c);
    }
  }

  /**
   * DFA.complement: clones the automaton, negates every final flag in the state set and
   * in the copied arcs, and rebuilds. The argument is a value, so it is left untouched.
   * On a well-formed DFA the result is well formed, makes the same moves between flipped
   * states, and accepts exactly the strings whose run is defined and not accepted by `d`.
   */
  method Complement(d: DFA) returns (r: Result<DFA, Error>)
    requires d.DFA?
    ensures UniqueNames(d.states) ==> r.Ok?
    ensures r.Ok? ==> r.value.DFA? && r.value.alphabet == d.alphabet
    ensures r.Ok? ==> FlippedStates(d.states, r.value.states)
    ensures r.Ok? && Valid(d) ==> forall x, c :: Next(r.value.delta, Flip(x), c) == FlipMove(Next(d.delta, x, c))
    ensures r.Ok? && Valid(d) ==> Valid(r.value)
    ensures r.Ok? && Valid(d) ==>
              forall w :: (Defined(r.value, w) <==> Defined(d, w)) &&
                          (InLanguage(r.value, w) <==> Defined(d, w) && !InLanguage(d, w))
  {
    var cloned := CloneDFA(d);
    if cloned.Err? {
      return Err(cloned.error);
    }
    var dfa := cloned.value;
    var ss := dfa.states;
    var i := 0;
    while i < |ss|
      invariant 0 <= i <= |ss| == |dfa.states|
      invariant forall k :: 0 <= k < i ==> ss[k] == Flip(dfa.states[k])
      invariant forall k :: i <= k < |ss| ==> ss[k] == dfa.states[k]
    {
      ss := ss[i := Flip(ss[i])];
      i := i + 1;
    }
    var a := dfa.alphabet;
    var t: set<Triple> := {};
    var j := 0;
    while j < |dfa.states|
      invariant 0 <= j <= |dfa.states|
      invariant forall tr :: tr in t <==> ComplementArc(dfa, tr) && Flip(tr.source) in dfa.states[..j]
    {
      t := FlipArcsFrom(dfa, j, t);
      j := j + 1;
    }
    assert dfa.states[..j] == dfa.states;
    FlippedKeeps(dfa.states, ss);
    if UniqueNames(d.states) {
      ComplementDeterministic(dfa, t);
    }
    r := NewDFA(ss, a, t);
    if r.Ok? && Valid(d) {
      ComplementMoves(d, dfa, t, r.value.delta);
      ComplementValid(d, dfa, ss, t, r.value.delta);
      FlippedKeeps(d.states, ss);
      forall w ensures (Defined(r.value, w) <==> Defined(d, w)) &&
                       (InLanguage(r.value, w) <==> Defined(d, w) && !InLanguage(d, w))
      {
        var init := InitialState(d.states).value;
        FlippedRun(d.delta, r.value.delta, init, w);
      }
    }
  }
  /**
   * The inner loop of complement for the j-th state: for each symbol of the alphabet with a
   * stored arc, the arc between the flipped states.
   */
  method FlipArcsFrom(dfa: DFA, j: nat, t: set<Triple>) returns (t': set<Triple>)
    requires dfa.DFA? && j < |dfa.states|
    requires forall tr :: tr in t <==> ComplementArc(dfa, tr) && Flip(tr.source) in dfa.states[..j]
    ensures forall tr :: tr in t' <==> ComplementArc(dfa, tr) && Flip(tr.source) in dfa.states[..j + 1]
  {
    t' := t;
    var s := dfa.states[j];
    var s1 := Flip(s);
    assert Flip(s1) == s;
    var rest := dfa.alphabet;
    while rest != {}
      invariant rest <= dfa.alphabet
      invariant forall tr :: tr in t' <==>
        ComplementArc(dfa, tr) && (Flip(tr.source) in dfa.states[..j] || (tr.source == s1 && tr.symbol.value !in rest))
      decreases rest
    {
      var c :| c in rest;
      var setD := Lookup(dfa.delta, s, Some(c));
      if |setD| > 0 {
        var s2 := Flip(setD[0]);
        assert Flip(s2) == setD[0];
        t' := t' + {Triple(s1, Some(c), s2)};
      }
      rest := rest - {c};
    }
    assert dfa.states[..j + 1] == dfa.states[..j] + [s];
  }

  /** With distinct state names, the flipped arcs leave each state at most once per symbol. */
  lemma ComplementDeterministic(dfa: DFA, t: set<Triple>)
    requires dfa.DFA? && UniqueNames(dfa.states)
    requires forall tr :: tr in t <==> ComplementArc(dfa, tr) && Flip(tr.source) in dfa.states
    ensures forall u, v :: u in t && v in t && u.source.name == v.source.name && u.symbol == v.symbol ==> u == v
  {
    forall u, v | u in t && v in t && u.source.name == v.source.name && u.symbol == v.symbol
      ensures u == v
    {
      var p :| 0 <= p < |dfa.states| && dfa.states[p] == Flip(u.source);
      var q :| 0 <= q < |dfa.states| && dfa.states[q] == Flip(v.source);
      assert p == q;
      assert Flip(Flip(u.source)) == u.source && Flip(Flip(v.source)) == v.source;
      assert Flip(Flip(u.target)) == u.target && Flip(Flip(v.target)) == v.target;
    }
  }

}
