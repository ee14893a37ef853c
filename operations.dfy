/**
 * DFA.union and DFA.intersection, end to end. `union` builds the ε-automaton of DFAUnion
 * and hands it to toDFA, here the subset construction of SubsetConstruction;
 * `intersection` is the complement of the union of the complements.
 */
module DFAOperations {
  import opened Wrappers
  import opened States
  import opened Automata
  import D = DFAs
  import N = NFALambdas
  import DFAUnion
  import SubsetConstruction

  /** A well-formed DFA keeps its destinations among its states. */
  lemma ValidTargets(d: D.DFA)
    requires d.DFA? && D.Valid(d)
    ensures TargetsIn(d.delta, d.states)
  {
    forall n, c, x | n in d.delta && c in d.delta[n] && x in d.delta[n][c] ensures x in d.states {
      assert D.ArcOk(d, n, c);
    }
  }

  /** A run that is defined reads only symbols of the alphabet. */
  lemma {:induction false} RunOverAlphabet(d: D.DFA, s: State, w: string)
    requires d.DFA? && D.Valid(d)
    requires D.Run(d.delta, s, w).Some?
    ensures OverAlphabet(d.alphabet, w)
    decreases |w|
  {
    if w != [] {
      var t := D.Next(d.delta, s, w[0]).value;
      assert D.ArcOk(d, s.name, Some(w[0]));
      RunOverAlphabet(d, t, w[1..]);
      assert forall k :: 1 <= k < |w| ==> w[k] == w[1..][k - 1];
    }
  }

  /** A string accepted, or merely read to the end, by a well-formed DFA is over its alphabet. */
  lemma DefinedOverAlphabet(d: D.DFA, w: string)
    requires d.DFA? && D.Valid(d)
    ensures D.Defined(d, w) ==> OverAlphabet(d.alphabet, w)
    ensures D.InLanguage(d, w) ==> OverAlphabet(d.alphabet, w)
  {
    if D.Defined(d, w) {
      RunOverAlphabet(d, InitialState(d.states).value, w);
    }
  }

  /**
   * DFA.union: the ε-automaton with the fresh initial state q', turned deterministic.
   * The result reads every string over both alphabets and accepts exactly the strings
   * either operand accepts.
   */
  method Union(d1: D.DFA, d2: D.DFA) returns (d: D.DFA)
    requires d1.DFA? && d2.DFA? && D.Valid(d1) && D.Valid(d2)
    requires UniqueNames(d1.states) && UniqueNames(d2.states)
    ensures d.DFA? && d.alphabet == d1.alphabet + d2.alphabet
    ensures D.Valid(d) && UniqueNames(d.states)
    ensures forall w :: D.Defined(d, w) <==> OverAlphabet(d1.alphabet + d2.alphabet, w)
    ensures forall w :: D.InLanguage(d, w) <==> D.InLanguage(d1, w) || D.InLanguage(d2, w)
  {
    ValidTargets(d1);
    ValidTargets(d2);
    var n := DFAUnion.UnionNFA(d1, d2);
    DFAUnion.IndexNaming();
    DFAUnion.UnionNamesUnique(IndexName, d1.states, d2.states);
    d := SubsetConstruction.ToDFA(n);
  }

  /**
   * DFA.complement on an automaton with unique names, which always succeeds; the result
   * keeps unique names.
   */
  method Complement(d: D.DFA) returns (r: D.DFA)
    requires d.DFA? && D.Valid(d) && UniqueNames(d.states)
    ensures r.DFA? && r.alphabet == d.alphabet && D.Valid(r) && UniqueNames(r.states)
    ensures forall w :: D.Defined(r, w) <==> D.Defined(d, w)
    ensures forall w :: D.InLanguage(r, w) <==> D.Defined(d, w) && !D.InLanguage(d, w)
  {
    var c := D.Complement(d);
    D.FlippedNames(d.states, c.value.states);
    r := c.value;
  }

  /**
   * DFA.intersection as written: complement(union(complement(d1), complement(d2))).
   * It accepts a string over both alphabets unless an operand reads it to the end and
   * rejects it; a string on which an operand gets stuck counts as accepted by that operand.
   * When both operands read every string over the joint alphabet, that is the intersection.
   */
  method Intersection(d1: D.DFA, d2: D.DFA) returns (d: D.DFA)
    requires d1.DFA? && d2.DFA? && D.Valid(d1) && D.Valid(d2)
    requires UniqueNames(d1.states) && UniqueNames(d2.states)
    ensures d.DFA? && d.alphabet == d1.alphabet + d2.alphabet
    ensures D.Valid(d) && UniqueNames(d.states)
    ensures forall w :: D.Defined(d, w) <==> OverAlphabet(d1.alphabet + d2.alphabet, w)
    ensures forall w :: D.InLanguage(d, w) <==>
              && OverAlphabet(d1.alphabet + d2.alphabet, w)
              && (D.Defined(d1, w) ==> D.InLanguage(d1, w))
              && (D.Defined(d2, w) ==> D.InLanguage(d2, w))
    ensures (forall w :: OverAlphabet(d1.alphabet + d2.alphabet, w) ==> D.Defined(d1, w) && D.Defined(d2, w)) ==>
              forall w :: D.InLanguage(d, w) <==> D.InLanguage(d1, w) && D.InLanguage(d2, w)
  {
    var c1 := Complement(d1);
    var c2 := Complement(d2);
    var u := Union(c1, c2);
    d := Complement(u);
    forall w ensures D.InLanguage(d1, w) && D.InLanguage(d2, w) ==> OverAlphabet(d1.alphabet + d2.alphabet, w) {
      DefinedOverAlphabet(d1, w);
    }
  }

  // ---------------------------------------------------------------------------
  // Completion: the complement of a partial DFA, and the intersection, made exact

  /** A name longer than every name in `ss`, hence the name of none of its states. */
  function FreshName(ss: StateSet): (r: string)
    ensures forall x :: x in ss ==> |x.name| < |r|
  {
    if ss == [] then "~"
    else
      var f := FreshName(ss[1..]);
      if |ss[0].name| < |f| then f else ss[0].name + "~"
  }

  /** The sink the completion adds: neither initial nor final, with a fresh name. */
  function Sink(d: D.DFA): (s: State)
    requires d.DFA?
    ensures s.name !in Names(d.states) && !s.isInitial && !s.isFinal
  {
    State(FreshName(d.states), false, false)
  }

  /** The stored destination of (n, c) when there is one, the sink otherwise. */
  function Target(d: D.DFA, n: string, c: Symbol): StateSet
    requires d.DFA?
  {
    if n in d.delta && c in d.delta[n] && d.delta[n][c] != [] then [d.delta[n][c][0]] else [Sink(d)]
  }

  function Labels(sigma: set<char>): set<Symbol> {
    set c | c in sigma :: Some(c)
  }

  /**
   * The completion of `d` over `sigma`: the sink is added, and every (state, symbol of sigma)
   * without a stored destination, the sink's own included, leads to the sink.
   */
  function Complete(d: D.DFA, sigma: set<char>): (c: D.DFA)
    requires d.DFA?
    ensures c.DFA? && c.states == d.states + [Sink(d)] && c.alphabet == sigma
  {
    var sink := Sink(d);
    D.DFA(d.states + [sink], sigma,
          map n | n in Names(d.states + [sink]) ::
            map l | l in Labels(sigma) :: if n == sink.name then [sink] else Target(d, n, l))
  }

  lemma {:induction false} AppendNonInitial(ss: StateSet, s: State)
    requires !s.isInitial
    ensures CountInitial(ss + [s]) == CountInitial(ss)
    ensures InitialState(ss + [s]) == InitialState(ss)
  {
    if ss != [] {
      assert (ss + [s])[1..] == ss[1..] + [s];
      AppendNonInitial(ss[1..], s);
    }
  }

  /** One step of the completion: outside sigma nothing, from the sink the sink, else d's move or the sink. */
  lemma CompleteNext(d: D.DFA, sigma: set<char>, x: State, ch: char)
    requires d.DFA? && D.Valid(d) && d.alphabet <= sigma
    requires x in d.states || x == Sink(d)
    ensures D.Next(Complete(d, sigma).delta, x, ch) ==
              if ch !in sigma then None
              else if x == Sink(d) || D.Next(d.delta, x, ch).None? then Some(Sink(d))
              else D.Next(d.delta, x, ch)
  {
    var c := Complete(d, sigma);
    assert Some(ch) in Labels(sigma) <==> ch in sigma;
    if x in d.states {
      assert x.name in Names(d.states);
      if x.name in d.delta && Some(ch) in d.delta[x.name] {
        assert D.ArcOk(d, x.name, Some(ch));
      }
    } else {
      assert x.name in Names(c.states);
    }
  }

  /** The completion tracks d's run while it is defined and falls into the sink once d's gets stuck. */
  lemma {:induction false} CompleteRun(d: D.DFA, sigma: set<char>, x: State, w: string)
    requires d.DFA? && D.Valid(d) && d.alphabet <= sigma
    requires x in d.states || x == Sink(d)
    ensures D.Run(Complete(d, sigma).delta, x, w) ==
              if !OverAlphabet(sigma, w) then None
              else if x == Sink(d) || D.Run(d.delta, x, w).None? then Some(Sink(d))
              else D.Run(d.delta, x, w)
    decreases |w|
  {
    if w != [] {
      var c := Complete(d, sigma);
      assert OverAlphabet(sigma, w) <==> w[0] in sigma && OverAlphabet(sigma, w[1..]) by {
        assert forall k :: 1 <= k < |w| ==> w[k] == w[1..][k - 1];
      }
      CompleteNext(d, sigma, x, w[0]);
      if w[0] in sigma {
        var y := D.Next(c.delta, x, w[0]).value;
        if y != Sink(d) {
          assert D.ArcOk(d, x.name, Some(w[0]));
        }
        CompleteRun(d, sigma, y, w[1..]);
      }
    }
  }

  /**
   * The completion is a well-formed DFA with unique names that reads exactly the strings
   * over sigma and accepts exactly what d accepts.
   */
  lemma CompleteSound(d: D.DFA, sigma: set<char>)
    requires d.DFA? && D.Valid(d) && UniqueNames(d.states) && d.alphabet <= sigma
    ensures D.Valid(Complete(d, sigma)) && UniqueNames(Complete(d, sigma).states)
    ensures forall w :: D.Defined(Complete(d, sigma), w) <==> OverAlphabet(sigma, w)
    ensures forall w :: D.InLanguage(Complete(d, sigma), w) <==> D.InLanguage(d, w)
  {
    var c := Complete(d, sigma);
    var sink := Sink(d);
    AppendNonInitial(d.states, sink);
    assert CountInitial(c.states) == 1;
    forall n, l | n in c.delta && l in c.delta[n] ensures D.ArcOk(c, n, l) {
      if n != sink.name && n in d.delta && l in d.delta[n] && d.delta[n][l] != [] {
        assert D.ArcOk(d, n, l);
      }
    }
    assert UniqueNames(c.states) by {
      forall i, j | 0 <= i < j < |c.states| ensures c.states[i].name != c.states[j].name {
        if j == |d.states| {
          assert c.states[i] in d.states;
        }
      }
    }
    var init := InitialState(d.states).value;
    forall w ensures (D.Defined(c, w) <==> OverAlphabet(sigma, w)) && (D.InLanguage(c, w) <==> D.InLanguage(d, w)) {
      CompleteRun(d, sigma, init, w);
      DefinedOverAlphabet(d, w);
    }
  }

  /**
   * The complement the documentation of DFA.complement describes: complete over sigma first,
   * then flip. It accepts exactly the strings over sigma that d rejects.
   */
  method ComplementOver(d: D.DFA, sigma: set<char>) returns (r: D.DFA)
    requires d.DFA? && D.Valid(d) && UniqueNames(d.states) && d.alphabet <= sigma
    ensures r.DFA? && r.alphabet == sigma && D.Valid(r) && UniqueNames(r.states)
    ensures forall w :: D.Defined(r, w) <==> OverAlphabet(sigma, w)
    ensures forall w :: D.InLanguage(r, w) <==> OverAlphabet(sigma, w) && !D.InLanguage(d, w)
  {
    CompleteSound(d, sigma);
    r := Complement(Complete(d, sigma));
  }

  /**
   * Intersection with both complements taken over the joint alphabet: it accepts exactly
   * the strings both operands accept.
   */
  method IntersectionTotal(d1: D.DFA, d2: D.DFA) returns (d: D.DFA)
    requires d1.DFA? && d2.DFA? && D.Valid(d1) && D.Valid(d2)
    requires UniqueNames(d1.states) && UniqueNames(d2.states)
    ensures d.DFA? && d.alphabet == d1.alphabet + d2.alphabet
    ensures D.Valid(d) && UniqueNames(d.states)
    ensures forall w :: D.Defined(d, w) <==> OverAlphabet(d1.alphabet + d2.alphabet, w)
    ensures forall w :: D.InLanguage(d, w) <==> D.InLanguage(d1, w) && D.InLanguage(d2, w)
  {
    var sigma := d1.alphabet + d2.alphabet;
    var c1 := ComplementOver(d1, sigma);
    var c2 := ComplementOver(d2, sigma);
    var u := Union(c1, c2);
    d := Complement(u);
    forall w ensures D.InLanguage(d, w) <==> D.InLanguage(d1, w) && D.InLanguage(d2, w) {
      DefinedOverAlphabet(d1, w);
      DefinedOverAlphabet(d2, w);
      assert forall k :: 0 <= k < |w| && w[k] in d1.alphabet ==> w[k] in sigma;
    }
  }

  // ---------------------------------------------------------------------------
  // The discrepancies of complement and intersection as written

  /**
   * DFA.complement as written on a partial DFA: one initial, non-final state over {a} with
   * no arcs accepts nothing, yet its complement rejects "a", a string over its alphabet.
   */
  method ComplementAsWrittenMisses() returns (d: D.DFA, r: D.DFA)
    ensures d.DFA? && D.Valid(d) && UniqueNames(d.states) && OverAlphabet(d.alphabet, "a")
    ensures forall w :: !D.InLanguage(d, w)
    ensures r.DFA? && !D.InLanguage(r, "a")
  {
    var q0 := State("q0", true, false);
    d := D.DFA([q0], {'a'}, map[]);
    assert InitialState(d.states) == Some(q0);
    var c := D.Complement(d);
    r := c.value;
    assert !D.Defined(d, "a");
  }

  /**
   * DFA.intersection as written on operands over different alphabets: {"a"} over {a} and b*
   * over {b} have no string in common, yet the result accepts "a", on which the second
   * operand gets stuck. The witness does not rest on the union DFA being total.
   */
  method IntersectionAsWrittenAccepts() returns (d1: D.DFA, d2: D.DFA, r: D.DFA)
    ensures d1.DFA? && D.Valid(d1) && UniqueNames(d1.states)
    ensures d2.DFA? && D.Valid(d2) && UniqueNames(d2.states)
    ensures D.InLanguage(d1, "a") && !D.InLanguage(d2, "a")
    ensures r.DFA? && D.InLanguage(r, "a")
  {
    var q0 := State("q0", true, false);
    var q1 := State("q1", false, true);
    var p0 := State("q0", true, true);
    d1 := D.DFA([q0, q1], {'a'}, map["q0" := map[Some('a') := [q1]]]);
    d2 := D.DFA([p0], {'b'}, map["q0" := map[Some('b') := [p0]]]);
    assert InitialState([q0, q1]) == Some(q0);
    assert InitialState([p0]) == Some(p0);
    assert Names([q0, q1]) == {"q0", "q1"};
    assert Names([p0]) == {"q0"};
    assert D.Valid(d1) by {
      assert forall n, c :: n in d1.delta && c in d1.delta[n] ==> n == "q0" && c == Some('a');
    }
    assert D.Valid(d2) by {
      assert forall n, c :: n in d2.delta && c in d2.delta[n] ==> n == "q0" && c == Some('b');
    }
    r := Intersection(d1, d2);
    assert OverAlphabet(d1.alphabet + d2.alphabet, "a");
    assert D.Next(d1.delta, q0, 'a') == Some(q1);
    assert D.Run(d1.delta, q0, "a") == Some(q1);
    assert D.Next(d2.delta, p0, 'a') == None;
    assert !D.Defined(d2, "a");
  }

}
