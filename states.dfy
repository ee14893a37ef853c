/**
 * States and state collections. The Java classes State and StateSet are used by the
 * automata but are not part of this model's source; they are modelled minimally here:
 * a State is a record of a name and two flags, a StateSet an ordered sequence of
 * states whose names are unique.
 */
module States {
  import opened Wrappers

  /** An automaton vertex: its name identifies it within a collection. */
  datatype State = State(name: string, isInitial: bool, isFinal: bool)

  /** An ordered, name-keyed collection of states. */
  type StateSet = seq<State>

  /** The invariant the StateSet class keeps: no two states share a name. */
  predicate UniqueNames(ss: StateSet) {
    forall i, j :: 0 <= i < j < |ss| ==> ss[i].name != ss[j].name
  }

  function Names(ss: StateSet): set<string> {
    set s | s in ss :: s.name
  }

  /** StateSet.belongTo: the state called `name`, or None. */
  function BelongTo(ss: StateSet, name: string): (r: Option<State>)
    ensures r.Some? ==> r.value in ss && r.value.name == name
    ensures r.None? <==> name !in Names(ss)
  {
    if ss == [] then None
    else if ss[0].name == name then Some(ss[0])
    else BelongTo(ss[1..], name)
  }

  /** Under unique names, the state called `name` is exactly the member with that name. */
  lemma {:induction false} BelongToUnique(ss: StateSet, s: State)
    requires UniqueNames(ss) && s in ss
    ensures BelongTo(ss, s.name) == Some(s)
  {
    if ss[0] != s {
      assert s in ss[1..];
      assert ss[0].name != s.name by {
        var k :| 0 <= k < |ss| && ss[k] == s;
      }
      BelongToUnique(ss[1..], s);
    }
  }

  /** Under unique names, a name identifies a member. */
  lemma SameNameSame(ss: StateSet, x: State, y: State)
    requires UniqueNames(ss) && x in ss && y in ss && x.name == y.name
    ensures x == y
  {
    var i :| 0 <= i < |ss| && ss[i] == x;
    var j :| 0 <= j < |ss| && ss[j] == y;
    assert !(i < j) && !(j < i);
  }

  /** StateSet.addState: appends `s` unless a state with its name is already present. */
  function AddState(ss: StateSet, s: State): (r: StateSet)
    ensures UniqueNames(ss) ==> UniqueNames(r)
    ensures Names(r) == Names(ss) + {s.name}
    ensures forall x :: x in r <==> x in ss || (x == s && s.name !in Names(ss))
  {
    if s.name in Names(ss) then ss else ss + [s]
  }

  /** Number of states flagged initial. */
  function CountInitial(ss: StateSet): nat {
    if ss == [] then 0 else (if ss[0].isInitial then 1 else 0) + CountInitial(ss[1..])
  }

  /** FA.initialState: the first state flagged initial. */
  function InitialState(ss: StateSet): (r: Option<State>)
    ensures r.Some? ==> r.value in ss && r.value.isInitial
    ensures r.None? <==> CountInitial(ss) == 0
  {
    if ss == [] then None
    else if ss[0].isInitial then Some(ss[0])
    else InitialState(ss[1..])
  }

  /** A single state carries the initial flag. */
  ghost predicate ExactlyOneInitial(ss: StateSet) {
    exists i :: 0 <= i < |ss| && ss[i].isInitial &&
      forall j :: 0 <= j < |ss| && j != i ==> !ss[j].isInitial
  }

  /** Counting initial states and finding one exactly agree. */
  lemma {:induction false} CountInitialOne(ss: StateSet)
    ensures CountInitial(ss) == 1 <==> ExactlyOneInitial(ss)
  {
    if ss != [] {
      CountInitialOne(ss[1..]);
      var t := ss[1..];
      if ss[0].isInitial {
        if CountInitial(ss) == 1 {
          NoneInitial(t);
          assert forall j :: 0 < j < |ss| ==> ss[j] == t[j - 1];
        } else {
          assert CountInitial(t) != 0;
          var k :| 0 <= k < |t| && t[k].isInitial by { FindInitial(t); }
          assert ss[k + 1].isInitial;
        }
      } else {
        if ExactlyOneInitial(ss) {
          var i :| 0 <= i < |ss| && ss[i].isInitial &&
            forall j :: 0 <= j < |ss| && j != i ==> !ss[j].isInitial;
          assert t[i - 1].isInitial;
          assert forall j :: 0 <= j < |t| && j != i - 1 ==> !t[j].isInitial by {
            forall j | 0 <= j < |t| && j != i - 1 ensures !t[j].isInitial {
              assert t[j] == ss[j + 1];
            }
          }
        }
        if ExactlyOneInitial(t) {
          var i :| 0 <= i < |t| && t[i].isInitial &&
            forall j :: 0 <= j < |t| && j != i ==> !t[j].isInitial;
          assert ss[i + 1].isInitial;
          assert forall j :: 0 <= j < |ss| && j != i + 1 ==> !ss[j].isInitial by {
            forall j | 0 <= j < |ss| && j != i + 1 ensures !ss[j].isInitial {
              if j > 0 { assert ss[j] == t[j - 1]; }
            }
          }
        }
      }
    }
  }

  lemma {:induction false} NoneInitial(ss: StateSet)
    requires CountInitial(ss) == 0
    ensures forall j :: 0 <= j < |ss| ==> !ss[j].isInitial
  {
    if ss != [] {
      NoneInitial(ss[1..]);
      assert forall j :: 0 < j < |ss| ==> ss[j] == ss[1..][j - 1];
    }
  }

  lemma {:induction false} FindInitial(ss: StateSet)
    requires CountInitial(ss) != 0
    ensures exists k :: 0 <= k < |ss| && ss[k].isInitial
  {
    if !ss[0].isInitial {
      FindInitial(ss[1..]);
      var k :| 0 <= k < |ss[1..]| && ss[1..][k].isInitial;
      assert ss[k + 1].isInitial;
    }
  }

  /** The counting loop of repOk over the state set. */
  method CountInitials(ss: StateSet) returns (k: nat)
    ensures k == CountInitial(ss)
    ensures k == 1 <==> ExactlyOneInitial(ss)
  {
    k := 0;
    var i := 0;
    while i < |ss|
      invariant 0 <= i <= |ss|
      invariant k + CountInitial(ss[i..]) == CountInitial(ss)
    {
      assert ss[i..][1..] == ss[i + 1..];
      if ss[i].isInitial {
        k := k + 1;
      }
      i := i + 1;
    }
    CountInitialOne(ss);
  }

  /** The StateSet.contains loop over a destination set. */
  method AllMembers(states: StateSet, p: StateSet) returns (ok: bool)
    ensures ok <==> forall x :: x in p ==> x in states
  {
    var i := 0;
    while i < |p|
      invariant 0 <= i <= |p|
      invariant forall k :: 0 <= k < i ==> p[k] in states
    {
      if p[i] !in states {
        return false;
      }
      i := i + 1;
    }
    return true;
  }

  /** The unique initial state is the one FA.initialState finds. */
  lemma InitialStateOfOne(ss: StateSet, s: State)
    requires CountInitial(ss) == 1 && s in ss && s.isInitial
    ensures InitialState(ss) == Some(s)
  {
    CountInitialOne(ss);
    var i :| 0 <= i < |ss| && ss[i].isInitial &&
      forall j :: 0 <= j < |ss| && j != i ==> !ss[j].isInitial;
    var r := InitialState(ss).value;
    var a :| 0 <= a < |ss| && ss[a] == r;
    var b :| 0 <= b < |ss| && ss[b] == s;
  }

  /** Decimal digits of a natural number. */
  function NatToString(n: nat): (r: string)
    ensures |r| >= 1 && (n < 10 <==> |r| == 1)
    ensures forall k :: 0 <= k < |r| ==> '0' <= r[k] <= '9'
  {
    if n < 10 then [Digit(n)] else NatToString(n / 10) + [Digit(n % 10)]
  }

  function Digit(d: nat): (c: char)
    requires d < 10
    ensures '0' <= c <= '9'
  {
    "0123456789"[d]
  }

  lemma {:induction false} NatToStringInjective(a: nat, b: nat)
    requires NatToString(a) == NatToString(b)
    ensures a == b
  {
    var s := NatToString(a);
    if a >= 10 && b >= 10 {
      assert Digit(a % 10) == s[|s| - 1] == Digit(b % 10);
      assert NatToString(a / 10) == s[..|s| - 1] == NatToString(b / 10);
      NatToStringInjective(a / 10, b / 10);
    }
  }

  /** The name "q" + i that DFA.union gives to the i-th state it copies. */
  function IndexName(i: nat): (r: string)
    ensures |r| >= 2 && r[0] == 'q' && '0' <= r[1] <= '9'
  {
    "q" + NatToString(i)
  }

  /** Distinct indices give distinct names, none of them the fresh initial name q'. */
  lemma IndexNameInjective(i: nat, j: nat)
    ensures IndexName(i) == IndexName(j) <==> i == j
    ensures IndexName(i) != "q'"
  {
    if IndexName(i) == IndexName(j) {
      assert NatToString(i) == IndexName(i)[1..] == IndexName(j)[1..] == NatToString(j);
      NatToStringInjective(i, j);
    }
    assert IndexName(i)[1] != '\'';
  }
}
