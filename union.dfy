/**
 * DFA.union up to the epsilon-automaton it builds: a fresh initial state q', the states of
 * both operands copied under the names q0, q1, ..., an epsilon arc from q' to the copy of
 * each operand's initial state, and every operand arc copied between the renamed states.
 * The language of that automaton is the union of the operands' languages.
 *
 * The construction is described for any naming of the copies that gives distinct numbers
 * distinct names other than q'; DFA.union's own naming is IndexName ("q" + i), and the
 * method UnionNFA uses it.
 */
module DFAUnion {
  import opened Wrappers
  import opened States
  import opened Automata
  import D = DFAs
  import N = NFALambdas

  /** The fresh initial state q' of the union automaton. */
  const unionInit := State("q'", true, false)

  /** Distinct numbers get distinct names, and no number is named q'. */
  ghost predicate GoodNaming(names: nat -> string) {
    && (forall i, j :: names(i) == names(j) ==> i == j)
    && (forall i :: names(i) != unionInit.name)
  }

  /** The naming DFA.union uses, "q" + i, is a good naming. */
  lemma IndexNaming()
    ensures GoodNaming(IndexName)
  {
    forall i, j | IndexName(i) == IndexName(j) ensures i == j {
      IndexNameInjective(i, j);
    }
    forall i ensures IndexName(i) != unionInit.name {
      IndexNameInjective(i, i);
    }
  }

  /** The copy of the k-th state of an operand whose copies are numbered from `offset`: initial cleared, final kept. */
  function Copy(names: nat -> string, ss: StateSet, offset: nat, k: nat): State
    requires k < |ss|
  {
    State(names(offset + k), false, ss[k].isFinal)
  }

  /** The copies of the first m states. */
  function Copies(names: nat -> string, ss: StateSet, offset: nat, m: nat): StateSet
    requires m <= |ss|
  {
    seq(m, k requires 0 <= k < m => Copy(names, ss, offset, k))
  }

  /** The state set union builds: q' first, then the copies of the first operand, then the second's. */
  function UnionStates(names: nat -> string, s1: StateSet, s2: StateSet): StateSet {
    [unionInit] + Copies(names, s1, 0, |s1|) + Copies(names, s2, |s1|, |s2|)
  }

  /** The epsilon arcs from q' to the copies of the first m states flagged initial. */
  ghost function EpsArcs(names: nat -> string, ss: StateSet, offset: nat, m: nat): set<Triple>
    requires m <= |ss|
  {
    set k | 0 <= k < m && ss[k].isInitial :: Triple(unionInit, None, Copy(names, ss, offset, k))
  }

  /** The copied arcs leaving the k-th state on the symbols of `cs`. */
  ghost function ArcsFrom(names: nat -> string, ss: StateSet, delta: Delta, offset: nat, k: nat, cs: set<char>): set<Triple>
    requires k < |ss|
  {
    set c, j | c in cs && 0 <= j < |ss| && D.Next(delta, ss[k], c) == Some(ss[j]) ::
      Triple(Copy(names, ss, offset, k), Some(c), Copy(names, ss, offset, j))
  }

  /** The copied arcs leaving the first m states on the symbols of `cs`. */
  ghost function ArcsBelow(names: nat -> string, ss: StateSet, delta: Delta, cs: set<char>, offset: nat, m: nat): set<Triple>
    requires m <= |ss|
  {
    set k, c, j | 0 <= k < m && c in cs && 0 <= j < |ss| && D.Next(delta, ss[k], c) == Some(ss[j]) ::
      Triple(Copy(names, ss, offset, k), Some(c), Copy(names, ss, offset, j))
  }

  /** `d` is one of the operands, and `offset` is where the numbering of its copies starts. */
  predicate IsOperand(d1: D.DFA, d2: D.DFA, d: D.DFA, offset: nat) {
    d1.DFA? && d2.DFA? && ((d == d1 && offset == 0) || (d == d2 && offset == |d1.states|))
  }

  /** The triples union hands to the NFALambda constructor. */
  ghost function UnionTriples(names: nat -> string, d1: D.DFA, d2: D.DFA): set<Triple>
    requires d1.DFA? && d2.DFA?
  {
    EpsArcs(names, d1.states, 0, |d1.states|) + EpsArcs(names, d2.states, |d1.states|, |d2.states|)
    + ArcsBelow(names, d1.states, d1.delta, d1.alphabet, 0, |d1.states|)
    + ArcsBelow(names, d2.states, d2.delta, d2.alphabet, |d1.states|, |d2.states|)
  }

  // ---------------------------------------------------------------------------
  // Construction

  /** No copy numbered outside [offset, offset + m) carries the name of i. */
  lemma CopiesNames(names: nat -> string, ss: StateSet, offset: nat, m: nat, i: nat)
    requires GoodNaming(names) && m <= |ss| && !(offset <= i < offset + m)
    ensures names(i) !in Names(Copies(names, ss, offset, m))
  {
    forall x | x in Copies(names, ss, offset, m) ensures x.name != names(i) {
      var k :| 0 <= k < m && Copies(names, ss, offset, m)[k] == x;
    }
  }

  /**
   * The first loop of union over one operand's states: records the new name of each state
   * in `aux`, appends its copy, and adds an epsilon arc from q' to the copy of an initial state.
   */
  method CopyStates(names: nat -> string, states: StateSet, offset: nat, ss: StateSet, t: set<Triple>)
    returns (ss': StateSet, t': set<Triple>, aux: map<string, string>)
    requires GoodNaming(names) && UniqueNames(states) && UniqueNames(ss)
    requires forall i :: offset <= i ==> names(i) !in Names(ss)
    ensures ss' == ss + Copies(names, states, offset, |states|) && UniqueNames(ss')
    ensures t' == t + EpsArcs(names, states, offset, |states|)
    ensures forall m :: 0 <= m < |states| ==> states[m].name in aux && aux[states[m].name] == names(offset + m)
  {
    ss', t', aux := ss, t, map[];
    var i := offset;
    var k := 0;
    while k < |states|
      invariant 0 <= k <= |states| && i == offset + k
      invariant ss' == ss + Copies(names, states, offset, k) && UniqueNames(ss')
      invariant t' == t + EpsArcs(names, states, offset, k)
      invariant forall m :: 0 <= m < k ==> states[m].name in aux && aux[states[m].name] == names(offset + m)
    {
      var s := states[k];
      CopyStep(names, states, offset, k, ss, aux);
      aux := aux[s.name := names(i)];
      var newS := State(names(i), false, s.isFinal);
      ss' := AddState(ss', newS);
      if s.isInitial {
        t' := t' + {Triple(unionInit, None, newS)};
      }
      i := i + 1;
      k := k + 1;
    }
  }

  /** One round of the first loop: the copies, the recorded names and the epsilon arcs grow by the k-th state. */
  lemma CopyStep(names: nat -> string, states: StateSet, offset: nat, k: nat, ss: StateSet, aux: map<string, string>)
    requires GoodNaming(names) && UniqueNames(states) && k < |states| && UniqueNames(ss)
    requires forall i :: offset <= i ==> names(i) !in Names(ss)
    requires UniqueNames(ss + Copies(names, states, offset, k))
    requires forall m :: 0 <= m < k ==> states[m].name in aux && aux[states[m].name] == names(offset + m)
    ensures AddState(ss + Copies(names, states, offset, k), Copy(names, states, offset, k))
            == ss + Copies(names, states, offset, k + 1)
    ensures forall m :: 0 <= m < k + 1 ==>
              states[m].name in aux[states[k].name := names(offset + k)] &&
              aux[states[k].name := names(offset + k)][states[m].name] == names(offset + m)
    ensures EpsArcs(names, states, offset, k + 1) ==
            EpsArcs(names, states, offset, k)
            + (if states[k].isInitial then {Triple(unionInit, None, Copy(names, states, offset, k))} else {})
  {
    CopiesNames(names, states, offset, k, offset + k);
    assert Names(ss + Copies(names, states, offset, k)) == Names(ss) + Names(Copies(names, states, offset, k));
    assert Copies(names, states, offset, k + 1) == Copies(names, states, offset, k) + [Copy(names, states, offset, k)];
  }

  /** One more symbol of the alphabet adds the copy of its arc, if the operand defines one. */
  lemma ArcsFromAdd(names: nat -> string, ss: StateSet, delta: Delta, offset: nat, k: nat, cs: set<char>, c: char)
    requires k < |ss| && UniqueNames(ss)
    ensures D.Next(delta, ss[k], c).None? ==>
              ArcsFrom(names, ss, delta, offset, k, cs + {c}) == ArcsFrom(names, ss, delta, offset, k, cs)
    ensures forall j :: 0 <= j < |ss| && D.Next(delta, ss[k], c) == Some(ss[j]) ==>
              ArcsFrom(names, ss, delta, offset, k, cs + {c}) ==
              ArcsFrom(names, ss, delta, offset, k, cs) + {Triple(Copy(names, ss, offset, k), Some(c), Copy(names, ss, offset, j))}
  {
    forall j | 0 <= j < |ss| && D.Next(delta, ss[k], c) == Some(ss[j])
      ensures ArcsFrom(names, ss, delta, offset, k, cs + {c}) ==
              ArcsFrom(names, ss, delta, offset, k, cs) + {Triple(Copy(names, ss, offset, k), Some(c), Copy(names, ss, offset, j))}
    {
      forall j' | 0 <= j' < |ss| && D.Next(delta, ss[k], c) == Some(ss[j']) ensures j' == j {
        assert !(j < j') && !(j' < j);
      }
    }
  }

  /** The copied arcs of the first m + 1 states are those of the first m and those leaving the m-th. */
  lemma ArcsBelowNext(names: nat -> string, ss: StateSet, delta: Delta, cs: set<char>, offset: nat, m: nat, t: set<Triple>)
    requires m < |ss|
    ensures t + ArcsBelow(names, ss, delta, cs, offset, m + 1) ==
            (t + ArcsBelow(names, ss, delta, cs, offset, m)) + ArcsFrom(names, ss, delta, offset, m, cs)
  {
    assert ArcsBelow(names, ss, delta, cs, offset, m + 1) ==
           ArcsBelow(names, ss, delta, cs, offset, m) + ArcsFrom(names, ss, delta, offset, m, cs);
  }

  /**
   * The second loop of union over one operand: for each state, the arcs leaving it
   * copied between the renamed states.
   */
  method CopyArcs(names: nat -> string, d: D.DFA, offset: nat, aux: map<string, string>, ss: StateSet, t: set<Triple>)
    returns (t': set<Triple>)
    requires d.DFA? && UniqueNames(d.states) && TargetsIn(d.delta, d.states)
    requires forall m :: 0 <= m < |d.states| ==> d.states[m].name in aux && aux[d.states[m].name] == names(offset + m)
    requires UniqueNames(ss) && forall m :: 0 <= m < |d.states| ==> Copy(names, d.states, offset, m) in ss
    ensures t' == t + ArcsBelow(names, d.states, d.delta, d.alphabet, offset, |d.states|)
  {
    t' := t;
    var k := 0;
    while k < |d.states|
      invariant 0 <= k <= |d.states|
      invariant t' == t + ArcsBelow(names, d.states, d.delta, d.alphabet, offset, k)
    {
      ArcsBelowNext(names, d.states, d.delta, d.alphabet, offset, k, t);
      t' := CopyArcsFrom(names, d, offset, aux, ss, k, t');
      k := k + 1;
    }
  }

  /**
   * The inner loop of the second loop: for each symbol of the operand's alphabet with a
   * stored arc from the k-th state, the arc between the copies found by their recorded names.
   */
  method CopyArcsFrom(names: nat -> string, d: D.DFA, offset: nat, aux: map<string, string>, ss: StateSet,
                      k: nat, t: set<Triple>)
    returns (t': set<Triple>)
    requires d.DFA? && UniqueNames(d.states) && TargetsIn(d.delta, d.states) && k < |d.states|
    requires forall m :: 0 <= m < |d.states| ==> d.states[m].name in aux && aux[d.states[m].name] == names(offset + m)
    requires UniqueNames(ss) && forall m :: 0 <= m < |d.states| ==> Copy(names, d.states, offset, m) in ss
    ensures t' == t + ArcsFrom(names, d.states, d.delta, offset, k, d.alphabet)
  {
    t' := t;
    var s := d.states[k];
    var rest := d.alphabet;
    while rest != {}
      invariant rest <= d.alphabet
      invariant t' == t + ArcsFrom(names, d.states, d.delta, offset, k, d.alphabet - rest)
      decreases rest
    {
      var c :| c in rest;
      CopyArcStep(names, d, offset, aux, ss, k, rest, c, t);
      var g := Lookup(d.delta, s, Some(c));
      if g != [] {
        var name1 := aux[s.name];
        var name2 := aux[g[0].name];
        t' := t' + {Triple(BelongTo(ss, name1).value, Some(c), BelongTo(ss, name2).value)};
      }
      rest := rest - {c};
    }
    AllDone(names, d, offset, k, rest, t);
  }

  /** When no symbol is left, the arcs on the symbols done are those on the whole alphabet. */
  lemma AllDone(names: nat -> string, d: D.DFA, offset: nat, k: nat, rest: set<char>, t: set<Triple>)
    requires d.DFA? && k < |d.states| && rest == {}
    ensures t + ArcsFrom(names, d.states, d.delta, offset, k, d.alphabet - rest) ==
            t + ArcsFrom(names, d.states, d.delta, offset, k, d.alphabet)
  {
    assert d.alphabet - rest == d.alphabet;
  }

  /** One round of the inner loop: the copy of the arc on `c`, found through the recorded names, if there is one. */
  lemma CopyArcStep(names: nat -> string, d: D.DFA, offset: nat, aux: map<string, string>, ss: StateSet,
                    k: nat, rest: set<char>, c: char, t: set<Triple>)
    requires d.DFA? && UniqueNames(d.states) && TargetsIn(d.delta, d.states) && k < |d.states|
    requires forall m :: 0 <= m < |d.states| ==> d.states[m].name in aux && aux[d.states[m].name] == names(offset + m)
    requires UniqueNames(ss) && forall m :: 0 <= m < |d.states| ==> Copy(names, d.states, offset, m) in ss
    requires c in rest && rest <= d.alphabet
    ensures Lookup(d.delta, d.states[k], Some(c)) == [] ==>
              t + ArcsFrom(names, d.states, d.delta, offset, k, d.alphabet - (rest - {c})) ==
              t + ArcsFrom(names, d.states, d.delta, offset, k, d.alphabet - rest)
    ensures Lookup(d.delta, d.states[k], Some(c)) != [] ==>
              var target := Lookup(d.delta, d.states[k], Some(c))[0];
              && target.name in aux
              && BelongTo(ss, aux[d.states[k].name]).Some? && BelongTo(ss, aux[target.name]).Some?
              && t + ArcsFrom(names, d.states, d.delta, offset, k, d.alphabet - (rest - {c})) ==
                 (t + ArcsFrom(names, d.states, d.delta, offset, k, d.alphabet - rest))
                 + {Triple(BelongTo(ss, aux[d.states[k].name]).value, Some(c), BelongTo(ss, aux[target.name]).value)}
  {
    var cs := d.alphabet - rest;
    assert d.alphabet - (rest - {c}) == cs + {c};
    ArcsFromAdd(names, d.states, d.delta, offset, k, cs, c);
    var g := Lookup(d.delta, d.states[k], Some(c));
    if g != [] {
      assert g[0] in d.states;
      var j :| 0 <= j < |d.states| && d.states[j] == g[0];
      assert D.Next(d.delta, d.states[k], c) == Some(d.states[j]);
      BelongToUnique(ss, Copy(names, d.states, offset, k));
      BelongToUnique(ss, Copy(names, d.states, offset, j));
    }
  }

  /** In the union state set, the j-th copy of an operand sits right after q' and the copies before it. */
  lemma CopyPlace(names: nat -> string, d1: D.DFA, d2: D.DFA, d: D.DFA, o: nat, j: nat)
    requires IsOperand(d1, d2, d, o) && j < |d.states|
    ensures 1 + o + j < |UnionStates(names, d1.states, d2.states)|
    ensures Copy(names, d.states, o, j) == UnionStates(names, d1.states, d2.states)[1 + o + j]
  {
  }

  /** Under a good naming, q' is the only initial state of the union and no two of its states share a name. */
  lemma UnionNamesUnique(names: nat -> string, s1: StateSet, s2: StateSet)
    requires GoodNaming(names)
    ensures UniqueNames(UnionStates(names, s1, s2))
    ensures CountInitial(UnionStates(names, s1, s2)) == 1
  {
    var u := UnionStates(names, s1, s2);
    forall j | 1 <= j < |u| ensures u[j].name == names(j - 1) && !u[j].isInitial {
      if j - 1 < |s1| {
        assert u[j] == Copy(names, s1, 0, j - 1);
      } else {
        assert u[j] == Copy(names, s2, |s1|, j - 1 - |s1|);
      }
    }
    assert ExactlyOneInitial(u) by {
      assert u[0].isInitial;
    }
    CountInitialOne(u);
  }

  /** The triples of one operand join states of the union state set, on symbols of its alphabet. */
  lemma OperandTriplesInUnion(names: nat -> string, d1: D.DFA, d2: D.DFA, d: D.DFA, o: nat, tr: Triple)
    requires IsOperand(d1, d2, d, o)
    requires tr in EpsArcs(names, d.states, o, |d.states|) + ArcsBelow(names, d.states, d.delta, d.alphabet, o, |d.states|)
    ensures tr.source in UnionStates(names, d1.states, d2.states)
    ensures tr.target in UnionStates(names, d1.states, d2.states)
    ensures tr.symbol.Some? ==> tr.symbol.value in d.alphabet
  {
    assert UnionStates(names, d1.states, d2.states)[0] == unionInit;
    if tr in EpsArcs(names, d.states, o, |d.states|) {
      var k :| 0 <= k < |d.states| && d.states[k].isInitial && tr == Triple(unionInit, None, Copy(names, d.states, o, k));
      CopyPlace(names, d1, d2, d, o, k);
    } else {
      var k, c, j :| 0 <= k < |d.states| && c in d.alphabet && 0 <= j < |d.states| &&
        D.Next(d.delta, d.states[k], c) == Some(d.states[j]) &&
        tr == Triple(Copy(names, d.states, o, k), Some(c), Copy(names, d.states, o, j));
      CopyPlace(names, d1, d2, d, o, k);
      CopyPlace(names, d1, d2, d, o, j);
    }
  }

  /** Every triple of the union joins states of the union state set, on symbols of the joint alphabet. */
  lemma TriplesInUnion(names: nat -> string, d1: D.DFA, d2: D.DFA, tr: Triple)
    requires d1.DFA? && d2.DFA? && tr in UnionTriples(names, d1, d2)
    ensures tr.source in UnionStates(names, d1.states, d2.states)
    ensures tr.target in UnionStates(names, d1.states, d2.states)
    ensures tr.symbol.Some? ==> tr.symbol.value in d1.alphabet + d2.alphabet
  {
    if tr in EpsArcs(names, d1.states, 0, |d1.states|) + ArcsBelow(names, d1.states, d1.delta, d1.alphabet, 0, |d1.states|) {
      OperandTriplesInUnion(names, d1, d2, d1, 0, tr);
    } else {
      OperandTriplesInUnion(names, d1, d2, d2, |d1.states|, tr);
    }
  }

  /**
   * DFA.union up to the automaton it hands to toDFA: the state set, the joint alphabet
   * and the triples described above, stored by the NFALambda constructor. The result is a
   * well-formed epsilon-automaton; for well-formed operands it accepts exactly the strings
   * either operand accepts.
   */
  method UnionNFA(d1: D.DFA, d2: D.DFA) returns (n: N.NFALambda)
    requires d1.DFA? && d2.DFA?
    requires UniqueNames(d1.states) && UniqueNames(d2.states)
    requires TargetsIn(d1.delta, d1.states) && TargetsIn(d2.delta, d2.states)
    ensures n.NFALambda? && n.states == UnionStates(IndexName, d1.states, d2.states)
    ensures n.alphabet == d1.alphabet + d2.alphabet
    ensures N.StoresSets(n.delta, UnionTriples(IndexName, d1, d2))
    ensures N.Valid(n)
    ensures D.Valid(d1) && D.Valid(d2) ==>
              forall w :: N.InLanguage(n, w) <==> D.InLanguage(d1, w) || D.InLanguage(d2, w)
  {
    IndexNaming();
    var newInit := State("q'", true, false);
    var ss := AddState([], newInit);
    var a := d1.alphabet + d2.alphabet;
    var t: set<Triple> := {};
    var aux1, aux2;
    FreshAfter(IndexName, [], ss);
    ss, t, aux1 := CopyStates(IndexName, d1.states, 0, ss, t);
    FreshAfter(IndexName, d1.states, ss);
    ss, t, aux2 := CopyStates(IndexName, d2.states, |d1.states|, ss, t);
    CopiesInUnion(IndexName, d1, d2, d1, 0);
    CopiesInUnion(IndexName, d1, d2, d2, |d1.states|);
    t := CopyArcs(IndexName, d1, 0, aux1, ss, t);
    t := CopyArcs(IndexName, d2, |d1.states|, aux2, ss, t);
    assert {} + EpsArcs(IndexName, d1.states, 0, |d1.states|) == EpsArcs(IndexName, d1.states, 0, |d1.states|);
    UnionNamesUnique(IndexName, d1.states, d2.states);
    UnionTriplesFit(IndexName, d1, d2);
    var r := N.NewNFALambda(ss, a, t);
    n := r.value;
    N.ConstructedValid(ss, a, t, n.delta);
    if D.Valid(d1) && D.Valid(d2) {
      UnionLanguage(IndexName, d1, d2, n);
    }
  }

  /** After q' and the copies of the states of `s1`, no number from |s1| on names a state yet. */
  lemma FreshAfter(names: nat -> string, s1: StateSet, ss: StateSet)
    requires GoodNaming(names) && ss == [unionInit] + Copies(names, s1, 0, |s1|)
    ensures forall i :: |s1| <= i ==> names(i) !in Names(ss)
  {
    forall i | |s1| <= i ensures names(i) !in Names(ss) {
      CopiesNames(names, s1, 0, |s1|, i);
      assert Names(ss) == {unionInit.name} + Names(Copies(names, s1, 0, |s1|));
    }
  }

  /** Every copy of an operand's state is a state of the union. */
  lemma CopiesInUnion(names: nat -> string, d1: D.DFA, d2: D.DFA, d: D.DFA, o: nat)
    requires IsOperand(d1, d2, d, o)
    ensures forall m :: 0 <= m < |d.states| ==> Copy(names, d.states, o, m) in UnionStates(names, d1.states, d2.states)
  {
    forall m | 0 <= m < |d.states| ensures Copy(names, d.states, o, m) in UnionStates(names, d1.states, d2.states) {
      CopyPlace(names, d1, d2, d, o, m);
    }
  }

  /** The triples of the union join its states, on symbols of the joint alphabet: what the constructor checks. */
  lemma UnionTriplesFit(names: nat -> string, d1: D.DFA, d2: D.DFA)
    requires d1.DFA? && d2.DFA?
    ensures forall tr :: tr in UnionTriples(names, d1, d2) ==>
              tr.source.name in Names(UnionStates(names, d1.states, d2.states)) &&
              tr.target in UnionStates(names, d1.states, d2.states)
    ensures forall tr :: tr in UnionTriples(names, d1, d2) && tr.symbol.Some? ==> tr.symbol.value in d1.alphabet + d2.alphabet
  {
    forall tr | tr in UnionTriples(names, d1, d2)
      ensures tr.source.name in Names(UnionStates(names, d1.states, d2.states))
      ensures tr.target in UnionStates(names, d1.states, d2.states)
      ensures tr.symbol.Some? ==> tr.symbol.value in d1.alphabet + d2.alphabet
    {
      TriplesInUnion(names, d1, d2, tr);
    }
  }

  // ---------------------------------------------------------------------------
  // The language of the union automaton

  /** `n` has the states of the union of the well-formed operands d1 and d2 under a good naming. */
  ghost predicate Shaped(names: nat -> string, d1: D.DFA, d2: D.DFA, n: N.NFALambda) {
    && GoodNaming(names)
    && d1.DFA? && d2.DFA? && D.Valid(d1) && D.Valid(d2)
    && UniqueNames(d1.states) && UniqueNames(d2.states)
    && n.NFALambda? && n.states == UnionStates(names, d1.states, d2.states)
  }

  /**
   * `n` is the union automaton of d1 and d2: its lookups yield the destinations of the union
   * triples (what UnionLookup derives from what the constructor stores).
   */
  ghost predicate Built(names: nat -> string, d1: D.DFA, d2: D.DFA, n: N.NFALambda) {
    && Shaped(names, d1, d2, n)
    && forall x, c, y {:trigger y in Lookup(n.delta, x, c)} ::
         y in Lookup(n.delta, x, c) <==> y in N.Targets(UnionTriples(names, d1, d2), x.name, c)
  }

  /** Lookups in the union automaton yield exactly the destinations of its triples. */
  lemma UnionLookup(names: nat -> string, d1: D.DFA, d2: D.DFA, n: N.NFALambda, x: State, c: Symbol, y: State)
    requires Shaped(names, d1, d2, n) && N.StoresSets(n.delta, UnionTriples(names, d1, d2))
    ensures y in Lookup(n.delta, x, c) <==> y in N.Targets(UnionTriples(names, d1, d2), x.name, c)
  {
    var ts := UnionTriples(names, d1, d2);
    UnionNamesUnique(names, d1.states, d2.states);
    forall u, v | u in N.Targets(ts, x.name, c) && v in N.Targets(ts, x.name, c) && u.name == v.name
      ensures u == v
    {
      var tu :| tu in ts && tu.source.name == x.name && tu.symbol == c && tu.target == u;
      var tv :| tv in ts && tv.source.name == x.name && tv.symbol == c && tv.target == v;
      TriplesInUnion(names, d1, d2, tu);
      TriplesInUnion(names, d1, d2, tv);
      SameNameSame(n.states, u, v);
    }
    N.LookupExactly(n.delta, ts, x, c);
  }

  /** What the constructor stores gives the lookups of the union automaton. */
  lemma UnionBuilt(names: nat -> string, d1: D.DFA, d2: D.DFA, n: N.NFALambda)
    requires Shaped(names, d1, d2, n) && N.StoresSets(n.delta, UnionTriples(names, d1, d2))
    ensures Built(names, d1, d2, n)
  {
    forall x, c, y ensures y in Lookup(n.delta, x, c) <==> y in N.Targets(UnionTriples(names, d1, d2), x.name, c) {
      UnionLookup(names, d1, d2, n, x, c, y);
    }
  }

  /** A copied arc leaving the state named after i leaves the copy of the (i - offset)-th state, on a symbol of `cs`. */
  lemma ArcLeaving(names: nat -> string, ss: StateSet, delta: Delta, cs: set<char>, offset: nat, m: nat, tr: Triple, i: nat)
    returns (j: nat)
    requires GoodNaming(names)
    requires m <= |ss| && tr in ArcsBelow(names, ss, delta, cs, offset, m) && tr.source.name == names(i)
    ensures offset <= i < offset + m && tr.symbol.Some? && tr.symbol.value in cs && j < |ss|
    ensures D.Next(delta, ss[i - offset], tr.symbol.value) == Some(ss[j]) && tr.target == Copy(names, ss, offset, j)
  {
    var k, c, j' :| 0 <= k < m && c in cs && 0 <= j' < |ss| && D.Next(delta, ss[k], c) == Some(ss[j']) &&
      tr == Triple(Copy(names, ss, offset, k), Some(c), Copy(names, ss, offset, j'));
    j := j';
  }

  /** Only epsilon arcs leave q', and they lead to the copies of the operands' initial states. */
  lemma InitTargets(names: nat -> string, d1: D.DFA, d2: D.DFA, c: Symbol, y: State)
    requires GoodNaming(names) && d1.DFA? && d2.DFA?
    requires y in N.Targets(UnionTriples(names, d1, d2), "q'", c)
    ensures c.None?
    ensures || (exists k :: 0 <= k < |d1.states| && d1.states[k].isInitial && y == Copy(names, d1.states, 0, k))
            || (exists k :: 0 <= k < |d2.states| && d2.states[k].isInitial && y == Copy(names, d2.states, |d1.states|, k))
  {
    var tr :| tr in UnionTriples(names, d1, d2) && tr.source.name == "q'" && tr.symbol == c && tr.target == y;
    if tr in ArcsBelow(names, d1.states, d1.delta, d1.alphabet, 0, |d1.states|) {
      assert false;
    } else if tr in ArcsBelow(names, d2.states, d2.delta, d2.alphabet, |d1.states|, |d2.states|) {
      assert false;
    }
  }

  /** A triple of the union leaving the copy of an operand's state is a copied arc of that operand. */
  lemma ArcOwner(names: nat -> string, d1: D.DFA, d2: D.DFA, d: D.DFA, o: nat, k: nat, tr: Triple)
    requires GoodNaming(names) && IsOperand(d1, d2, d, o) && k < |d.states|
    requires tr in UnionTriples(names, d1, d2) && tr.source.name == names(o + k)
    ensures tr in ArcsBelow(names, d.states, d.delta, d.alphabet, o, |d.states|)
  {
    var a1 := ArcsBelow(names, d1.states, d1.delta, d1.alphabet, 0, |d1.states|);
    var a2 := ArcsBelow(names, d2.states, d2.delta, d2.alphabet, |d1.states|, |d2.states|);
    assert tr in a1 || tr in a2 by {
      assert tr.source.name != unionInit.name;
    }
    ArcSource(names, d1.states, d1.delta, d1.alphabet, 0, |d1.states|, tr, o + k);
    ArcSource(names, d2.states, d2.delta, d2.alphabet, |d1.states|, |d2.states|, tr, o + k);
  }

  /** A copied arc leaving the state named after i leaves a copy numbered from `offset`. */
  lemma ArcSource(names: nat -> string, ss: StateSet, delta: Delta, cs: set<char>, offset: nat, m: nat, tr: Triple, i: nat)
    requires GoodNaming(names) && m <= |ss|
    ensures tr in ArcsBelow(names, ss, delta, cs, offset, m) && tr.source.name == names(i) ==> offset <= i < offset + m
  {
    if tr in ArcsBelow(names, ss, delta, cs, offset, m) && tr.source.name == names(i) {
      var _ := ArcLeaving(names, ss, delta, cs, offset, m, tr, i);
    }
  }

  /** From the copy of an operand's state only copied arcs leave, on symbols, to copies of its successors. */
  lemma CopyTargets(names: nat -> string, d1: D.DFA, d2: D.DFA, d: D.DFA, o: nat, k: nat, c: Symbol, y: State)
    returns (j: nat)
    requires GoodNaming(names) && IsOperand(d1, d2, d, o) && k < |d.states|
    requires y in N.Targets(UnionTriples(names, d1, d2), names(o + k), c)
    ensures c.Some? && j < |d.states|
    ensures D.Next(d.delta, d.states[k], c.value) == Some(d.states[j]) && y == Copy(names, d.states, o, j)
  {
    var tr := TripleTo(UnionTriples(names, d1, d2), names(o + k), c, y);
    ArcOwner(names, d1, d2, d, o, k, tr);
    j := LeavingCopy(names, d.states, d.delta, d.alphabet, o, k, tr);
  }

  /** A copied arc leaving the copy of the k-th state follows a move of that state. */
  lemma LeavingCopy(names: nat -> string, ss: StateSet, delta: Delta, cs: set<char>, o: nat, k: nat, tr: Triple)
    returns (j: nat)
    requires GoodNaming(names) && k < |ss|
    requires tr in ArcsBelow(names, ss, delta, cs, o, |ss|) && tr.source.name == names(o + k)
    ensures tr.symbol.Some? && j < |ss|
    ensures D.Next(delta, ss[k], tr.symbol.value) == Some(ss[j]) && tr.target == Copy(names, ss, o, j)
  {
    j := ArcLeaving(names, ss, delta, cs, o, |ss|, tr, o + k);
    assert ss[(o + k) - o] == ss[k];
  }

  /** A destination of the triples leaving `n` on `c` is the target of one of them. */
  lemma TripleTo(ts: set<Triple>, n: string, c: Symbol, y: State) returns (tr: Triple)
    requires y in N.Targets(ts, n, c)
    ensures tr in ts && tr.source.name == n && tr.symbol == c && tr.target == y
  {
    tr :| tr in ts && tr.source.name == n && tr.symbol == c && tr.target == y;
  }

  /** The configurations a run of the union automaton can be in, as seen from one operand. */
  ghost function Tracked(names: nat -> string, d: D.DFA, offset: nat, w: string): set<N.Config>
    requires d.DFA? && InitialState(d.states).Some?
  {
    set p, k | 0 <= p <= |w| && 0 <= k < |d.states| &&
               D.Run(d.delta, InitialState(d.states).value, w[..p]) == Some(d.states[k]) ::
      N.Config(Copy(names, d.states, offset, k), p)
  }

  /** q' at the start, or the copy of the state an operand's run reaches on the input read so far. */
  ghost function Inside(names: nat -> string, d1: D.DFA, d2: D.DFA, w: string): set<N.Config>
    requires d1.DFA? && d2.DFA? && InitialState(d1.states).Some? && InitialState(d2.states).Some?
  {
    {N.Config(unionInit, 0)} + Tracked(names, d1, 0, w) + Tracked(names, d2, |d1.states|, w)
  }

  /** Reading one more character moves the run of an operand as the copied arc does. */
  lemma RunOneMore(d: D.DFA, w: string, p: nat, s: State, t: State)
    requires d.DFA? && InitialState(d.states).Some? && p < |w|
    requires D.Run(d.delta, InitialState(d.states).value, w[..p]) == Some(s)
    requires D.Next(d.delta, s, w[p]) == Some(t)
    ensures D.Run(d.delta, InitialState(d.states).value, w[..p + 1]) == Some(t)
  {
    assert w[..p + 1] == w[..p] + [w[p]];
    D.RunAppend(d.delta, InitialState(d.states).value, w[..p], [w[p]]);
    assert [w[p]][1..] == [];
  }

  /** The copy of an operand's initial state is tracked at the start. */
  lemma InitialTracked(names: nat -> string, d: D.DFA, o: nat, w: string, k: nat)
    requires d.DFA? && D.Valid(d) && k < |d.states| && d.states[k].isInitial
    ensures InitialState(d.states).Some?
    ensures N.Config(Copy(names, d.states, o, k), 0) in Tracked(names, d, o, w)
  {
    InitialStateOfOne(d.states, d.states[k]);
    assert w[..0] == [];
  }

  /** The moves out of q' stay inside. */
  lemma StepFromInit(names: nat -> string, d1: D.DFA, d2: D.DFA, n: N.NFALambda, w: string)
    requires Built(names, d1, d2, n)
    ensures N.Step(n.delta, w, N.Config(unionInit, 0)) <= Inside(names, d1, d2, w)
  {
    var c := N.Config(unionInit, 0);
    forall x | x in N.Step(n.delta, w, c) ensures x in Inside(names, d1, d2, w) {
      N.StepCases(n.delta, w, c, x);
      if x.pos == 0 && x.state in Lookup(n.delta, unionInit, None) {
        InitTargets(names, d1, d2, None, x.state);
        if k :| 0 <= k < |d1.states| && d1.states[k].isInitial && x.state == Copy(names, d1.states, 0, k) {
          InitialTracked(names, d1, 0, w, k);
        } else {
          var k :| 0 <= k < |d2.states| && d2.states[k].isInitial && x.state == Copy(names, d2.states, |d1.states|, k);
          InitialTracked(names, d2, |d1.states|, w, k);
        }
      } else {
        InitTargets(names, d1, d2, Some(w[0]), x.state);
      }
    }
  }

  /** The moves out of a tracked copy stay inside. */
  lemma StepFromCopy(names: nat -> string, d1: D.DFA, d2: D.DFA, n: N.NFALambda, w: string, d: D.DFA, o: nat, c: N.Config)
    requires Built(names, d1, d2, n) && IsOperand(d1, d2, d, o)
    requires c in Tracked(names, d, o, w)
    ensures N.Step(n.delta, w, c) <= Tracked(names, d, o, w)
  {
    var p, k :| 0 <= p <= |w| && 0 <= k < |d.states| &&
      D.Run(d.delta, InitialState(d.states).value, w[..p]) == Some(d.states[k]) &&
      c == N.Config(Copy(names, d.states, o, k), p);
    forall x | x in N.Step(n.delta, w, c) ensures x in Tracked(names, d, o, w) {
      MoveFromCopy(names, d1, d2, n, w, d, o, p, k, x);
    }
  }

  /** One move out of the copy of the state an operand's run reaches after p characters. */
  lemma MoveFromCopy(names: nat -> string, d1: D.DFA, d2: D.DFA, n: N.NFALambda, w: string, d: D.DFA, o: nat,
                     p: nat, k: nat, x: N.Config)
    requires Built(names, d1, d2, n) && IsOperand(d1, d2, d, o) && p <= |w| && k < |d.states|
    requires D.Run(d.delta, InitialState(d.states).value, w[..p]) == Some(d.states[k])
    requires x in N.Step(n.delta, w, N.Config(Copy(names, d.states, o, k), p))
    ensures x in Tracked(names, d, o, w)
  {
    var c := N.Config(Copy(names, d.states, o, k), p);
    N.StepCases(n.delta, w, c, x);
    if x.pos == p && x.state in Lookup(n.delta, c.state, None) {
      var j := CopyTargets(names, d1, d2, d, o, k, None, x.state);
    } else {
      var j := CopyTargets(names, d1, d2, d, o, k, Some(w[p]), x.state);
      RunOneMore(d, w, p, d.states[k], d.states[j]);
    }
  }

  /** A tracked configuration that accepts shows that its operand accepts the input. */
  lemma TrackedAccepts(names: nat -> string, d: D.DFA, o: nat, w: string, c: N.Config)
    requires d.DFA? && InitialState(d.states).Some?
    requires c in Tracked(names, d, o, w) && N.Accepting(w, c)
    ensures D.InLanguage(d, w)
  {
    var p, k :| 0 <= p <= |w| && 0 <= k < |d.states| &&
      D.Run(d.delta, InitialState(d.states).value, w[..p]) == Some(d.states[k]) &&
      c == N.Config(Copy(names, d.states, o, k), p);
    assert w[..p] == w;
  }

  /** A string the union automaton accepts is accepted by one of the operands. */
  lemma UnionOnlyOperands(names: nat -> string, d1: D.DFA, d2: D.DFA, n: N.NFALambda, w: string)
    requires Built(names, d1, d2, n) && N.InLanguage(n, w)
    ensures D.InLanguage(d1, w) || D.InLanguage(d2, w)
  {
    var start := N.Config(unionInit, 0);
    assert InitialState(n.states) == Some(unionInit);
    var c :| N.Accepting(w, c) && N.Reaches(n.delta, w, start, c);
    var steps: nat :| N.ReachesIn(n.delta, w, start, c, steps);
    var inside := Inside(names, d1, d2, w);
    forall x, y | x in inside && y in N.Step(n.delta, w, x) ensures y in inside {
      if x == start {
        StepFromInit(names, d1, d2, n, w);
      } else if x in Tracked(names, d1, 0, w) {
        StepFromCopy(names, d1, d2, n, w, d1, 0, x);
      } else {
        StepFromCopy(names, d1, d2, n, w, d2, |d1.states|, x);
      }
    }
    N.ReachStaysIn(n.delta, w, start, c, steps, inside);
    if c in Tracked(names, d1, 0, w) {
      TrackedAccepts(names, d1, 0, w, c);
    } else if c in Tracked(names, d2, |d1.states|, w) {
      TrackedAccepts(names, d2, |d1.states|, w, c);
    }
  }

  /** An arc of an operand is copied into the union between the copies of its ends. */
  lemma ArcCopied(names: nat -> string, d1: D.DFA, d2: D.DFA, d: D.DFA, o: nat, k: nat, ch: char, j: nat)
    requires IsOperand(d1, d2, d, o) && D.Valid(d) && k < |d.states| && j < |d.states|
    requires D.Next(d.delta, d.states[k], ch) == Some(d.states[j])
    ensures Triple(Copy(names, d.states, o, k), Some(ch), Copy(names, d.states, o, j)) in UnionTriples(names, d1, d2)
  {
    assert D.ArcOk(d, d.states[k].name, Some(ch));
    assert Triple(Copy(names, d.states, o, k), Some(ch), Copy(names, d.states, o, j))
      in ArcsBelow(names, d.states, d.delta, d.alphabet, o, |d.states|);
  }

  /** The union automaton moves from q' to the copy of an operand's initial state without reading. */
  lemma ReachStart(names: nat -> string, d1: D.DFA, d2: D.DFA, n: N.NFALambda, d: D.DFA, o: nat, w: string, k: nat)
    requires Built(names, d1, d2, n) && IsOperand(d1, d2, d, o) && k < |d.states| && d.states[k].isInitial
    ensures N.Reaches(n.delta, w, N.Config(unionInit, 0), N.Config(Copy(names, d.states, o, k), 0))
  {
    var start := N.Config(unionInit, 0);
    var tr := Triple(unionInit, None, Copy(names, d.states, o, k));
    assert tr in EpsArcs(names, d.states, o, |d.states|);
    assert tr in UnionTriples(names, d1, d2);
    N.TargetOf(UnionTriples(names, d1, d2), tr);
    N.EpsilonMove(n.delta, w, start, Copy(names, d.states, o, k));
    N.ReachesRefl(n.delta, w, start);
    N.ReachesStep(n.delta, w, start, start, N.Config(Copy(names, d.states, o, k), 0));
  }

  /** The union automaton follows the copy of an operand's arc on the next character. */
  lemma ReachArc(names: nat -> string, d1: D.DFA, d2: D.DFA, n: N.NFALambda, d: D.DFA, o: nat, w: string,
                 p: nat, k': nat, k: nat)
    requires Built(names, d1, d2, n) && IsOperand(d1, d2, d, o) && p < |w| && k' < |d.states| && k < |d.states|
    requires D.Next(d.delta, d.states[k'], w[p]) == Some(d.states[k])
    requires N.Reaches(n.delta, w, N.Config(unionInit, 0), N.Config(Copy(names, d.states, o, k'), p))
    ensures N.Reaches(n.delta, w, N.Config(unionInit, 0), N.Config(Copy(names, d.states, o, k), p + 1))
  {
    var from := N.Config(Copy(names, d.states, o, k'), p);
    var target := N.Config(Copy(names, d.states, o, k), p + 1);
    ArcCopied(names, d1, d2, d, o, k', w[p], k);
    N.TargetOf(UnionTriples(names, d1, d2), Triple(Copy(names, d.states, o, k'), Some(w[p]), Copy(names, d.states, o, k)));
    N.SymbolMove(n.delta, w, from, Copy(names, d.states, o, k));
    N.ReachesStep(n.delta, w, N.Config(unionInit, 0), from, target);
  }

  /** Reading the first p characters, the union automaton reaches the copy of the state an operand's run reaches. */
  lemma {:induction false} ReachCopy(names: nat -> string, d1: D.DFA, d2: D.DFA, n: N.NFALambda, d: D.DFA, o: nat,
                                     w: string, p: nat, k: nat)
    requires Built(names, d1, d2, n) && IsOperand(d1, d2, d, o) && p <= |w| && k < |d.states|
    requires D.Run(d.delta, InitialState(d.states).value, w[..p]) == Some(d.states[k])
    ensures N.Reaches(n.delta, w, N.Config(unionInit, 0), N.Config(Copy(names, d.states, o, k), p))
    decreases p
  {
    if p == 0 {
      assert w[..0] == [];
      ReachStart(names, d1, d2, n, d, o, w, k);
    } else {
      var k' := RunLast(d, w, p - 1, k);
      ReachCopy(names, d1, d2, n, d, o, w, p - 1, k');
      ReachArc(names, d1, d2, n, d, o, w, p - 1, k', k);
    }
  }

  /** The state an operand's run reaches on p + 1 characters is the successor, by the last, of the one it reaches on p. */
  lemma RunLast(d: D.DFA, w: string, p: nat, k: nat) returns (k': nat)
    requires d.DFA? && D.Valid(d) && p < |w| && k < |d.states|
    requires D.Run(d.delta, InitialState(d.states).value, w[..p + 1]) == Some(d.states[k])
    ensures k' < |d.states|
    ensures D.Run(d.delta, InitialState(d.states).value, w[..p]) == Some(d.states[k'])
    ensures D.Next(d.delta, d.states[k'], w[p]) == Some(d.states[k])
  {
    var init := InitialState(d.states).value;
    var u := w[..p];
    assert w[..p + 1] == u + [w[p]];
    D.RunAppend(d.delta, init, u, [w[p]]);
    D.RunStaysIn(d, init, u);
    var k'' :| 0 <= k'' < |d.states| && d.states[k''] == D.Run(d.delta, init, u).value;
    assert [w[p]][1..] == [];
    k' := k'';
  }

  /** A string an operand accepts is accepted by the union automaton. */
  lemma UnionHasOperands(names: nat -> string, d1: D.DFA, d2: D.DFA, n: N.NFALambda, d: D.DFA, o: nat, w: string)
    requires Built(names, d1, d2, n) && IsOperand(d1, d2, d, o) && D.InLanguage(d, w)
    ensures N.InLanguage(n, w)
  {
    var init := InitialState(d.states).value;
    D.RunStaysIn(d, init, w);
    var k :| 0 <= k < |d.states| && d.states[k] == D.Run(d.delta, init, w).value;
    assert w[..|w|] == w;
    ReachCopy(names, d1, d2, n, d, o, w, |w|, k);
    assert InitialState(n.states) == Some(unionInit);
    assert N.Accepting(w, N.Config(Copy(names, d.states, o, k), |w|));
  }

  /** The language of the union automaton is the union of the operands' languages. */
  lemma UnionLanguage(names: nat -> string, d1: D.DFA, d2: D.DFA, n: N.NFALambda)
    requires Shaped(names, d1, d2, n) && N.StoresSets(n.delta, UnionTriples(names, d1, d2))
    ensures forall w :: N.InLanguage(n, w) <==> D.InLanguage(d1, w) || D.InLanguage(d2, w)
  {
    UnionBuilt(names, d1, d2, n);
    forall w ensures N.InLanguage(n, w) <==> D.InLanguage(d1, w) || D.InLanguage(d2, w) {
      if N.InLanguage(n, w) {
        UnionOnlyOperands(names, d1, d2, n, w);
      }
      if D.InLanguage(d1, w) {
        UnionHasOperands(names, d1, d2, n, d1, 0, w);
      }
      if D.InLanguage(d2, w) {
        UnionHasOperands(names, d1, d2, n, d2, |d1.states|, w);
      }
    }
  }
}
