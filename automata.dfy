/**
 * What DFA and NFALambda share through their abstract base class FA, which is not part
 * of this model's source and is modelled minimally: the transition relation, transition
 * triples, the error kinds the constructors and `accepts` raise, the `delta` lookup and
 * the alphabet check on input strings.
 */
module Automata {
  import opened Wrappers
  import opened States

  /** A transition label: Some(c) reads the character c, None is an epsilon (lambda) move. */
  type Symbol = Option<char>

  /**
   * The transition relation: source state name, then label, then the StateSet of
   * destination states stored for that pair. Java keys the outer map by State objects;
   * states are identified by name here.
   */
  type Delta = map<string, map<Symbol, StateSet>>

  /** A (source, symbol, destination) transition as handed to the constructors. */
  datatype Triple = Triple(source: State, symbol: Symbol, target: State)

  /** The reasons the constructors and `accepts` fail (IllegalArgumentException in Java). */
  datatype Error =
    | UnknownSourceState   // a transition's source is not in the state set
    | EpsilonTransition    // a DFA transition with a null (epsilon) symbol
    | DuplicateTransition  // a second DFA transition for the same (state, symbol)
    | SymbolNotInAlphabet  // `accepts` called on a string with a foreign character
    | NoInitialState       // no state carries the initial flag
    | Uninitialized        // the automaton's fields are all null

  /** FA.delta(s, c): the stored destinations, empty where Java throws for a missing entry. */
  function Lookup(delta: Delta, s: State, c: Symbol): (r: StateSet)
    ensures r != [] ==> s.name in delta && c in delta[s.name]
  {
    if s.name in delta && c in delta[s.name] then delta[s.name][c] else []
  }

  /** FA.verifyString: every character of `w` belongs to the alphabet. */
  predicate OverAlphabet(alphabet: set<char>, w: string) {
    forall k :: 0 <= k < |w| ==> w[k] in alphabet
  }

  /** Every state the transition relation mentions is a member of `states`. */
  ghost predicate TargetsIn(delta: Delta, states: StateSet) {
    forall n, c, x :: n in delta && c in delta[n] && x in delta[n][c] ==> x in states
  }

  /** The names of the source states of the triples. */
  ghost function Sources(ts: set<Triple>): set<string> {
    set t | t in ts :: t.source.name
  }

  /** The (source name, symbol) pairs the triples define arcs for. */
  ghost function ArcKeys(ts: set<Triple>): set<(string, Symbol)> {
    set t | t in ts :: (t.source.name, t.symbol)
  }

  /** Moving one element from the to-do part of `all` to the done part. */
  lemma MoveOne<T>(all: set<T>, todo: set<T>, t: T)
    requires t in todo && todo <= all
    ensures todo - {t} <= all && all - (todo - {t}) == (all - todo) + {t}
  {
  }

  /** One triple more adds its source and its (source, symbol) pair. */
  lemma AddTripleKeys(ts: set<Triple>, t: Triple)
    ensures Sources(ts + {t}) == Sources(ts) + {t.source.name}
    ensures ArcKeys(ts + {t}) == ArcKeys(ts) + {(t.source.name, t.symbol)}
  {
  }
}
