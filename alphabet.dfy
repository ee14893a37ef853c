/**
 * The symbol set of an automaton (class Alphabet). An Alphabet wraps a mutable set of
 * characters; the set is an object of its own because `union` hands the same set to the
 * Alphabet it returns, so later changes through either are seen by both.
 */
module Alphabets {

  /** The mutable character set an Alphabet wraps (a java.util.Set<Character>). */
  class CharSet {
    var elems: set<char>

    constructor ()
      ensures elems == {}
    {
      elems := {};
    }
  }

  class Alphabet {
    const symbols: CharSet

    /** Alphabet(): a fresh, empty symbol set. */
    constructor Empty()
      ensures fresh(symbols) && symbols.elems == {}
    {
      symbols := new CharSet();
    }

    /** Alphabet(Set): wraps the given set itself, not a copy. */
    constructor Of(s: CharSet)
      ensures symbols == s
    {
      symbols := s;
    }

    /** addSymbol: adds `c`; true exactly when it was absent. Adding a present symbol changes nothing. */
    method AddSymbol(c: char) returns (added: bool)
      modifies symbols
      ensures added <==> c !in old(symbols.elems)
      ensures symbols.elems == old(symbols.elems) + {c}
      ensures c in old(symbols.elems) ==> symbols.elems == old(symbols.elems)
    {
      added := c !in symbols.elems;
      symbols.elems := symbols.elems + {c};
    }

    /** removeSymbol: removes `c`; true exactly when it was present. */
    method RemoveSymbol(c: char) returns (removed: bool)
      modifies symbols
      ensures removed <==> c in old(symbols.elems)
      ensures symbols.elems == old(symbols.elems) - {c}
      ensures c !in old(symbols.elems) ==> symbols.elems == old(symbols.elems)
    {
      removed := c in symbols.elems;
      symbols.elems := symbols.elems - {c};
    }

    /** belongTo: set membership. */
    method BelongTo(c: char) returns (b: bool)
      ensures b <==> c in symbols.elems
    {
      b := c in symbols.elems;
    }

    /**
     * union: adds every symbol of `other` missing from this alphabet, in place, and returns
     * a new Alphabet around this alphabet's own set.
     */
    method Union(other: Alphabet) returns (r: Alphabet)
      modifies symbols
      ensures symbols.elems == old(symbols.elems) + old(other.symbols.elems)
      ensures fresh(r) && r.symbols == symbols
    {
      var todo := other.symbols.elems;
      ghost var mine := symbols.elems;
      ghost var theirs := other.symbols.elems;
      while todo != {}
        invariant todo <= theirs
        invariant symbols.elems == mine + (theirs - todo)
        decreases todo
      {
        var c :| c in todo;
        if c !in symbols.elems {
          symbols.elems := symbols.elems + {c};
        }
        todo := todo - {c};
      }
      r := new Alphabet.Of(symbols);
    }

    /** contains: a search over the stored symbols for one equal to `c`. */
    method Contains(c: char) returns (b: bool)
      ensures b <==> c in symbols.elems
    {
      var todo := symbols.elems;
      while todo != {}
        invariant todo <= symbols.elems
        invariant c !in symbols.elems - todo
        decreases todo
      {
        var x :| x in todo;
        if x == c {
          return true;
        }
        todo := todo - {x};
      }
      return false;
    }
  }

  /** Adding then removing a symbol that was absent restores the alphabet. */
  method AddRemove(a: Alphabet, c: char) returns (added: bool, removed: bool)
    modifies a.symbols
    ensures added && removed <==> c !in old(a.symbols.elems)
    ensures a.symbols.elems == old(a.symbols.elems) - {c}
  {
    added := a.AddSymbol(c);
    removed := a.RemoveSymbol(c);
  }
}
