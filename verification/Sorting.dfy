/** The order std::sort puts strings in: what the library promises determines the result. */
module Sorting {

  /** Lexicographic order of bytes. */
  predicate AtMost(s: string, t: string) {
    s == "" || (t != "" && (s[0] < t[0] || (s[0] == t[0] && AtMost(s[1..], t[1..]))))
  }

  function InsertSorted(x: string, s: seq<string>): seq<string> {
    if s == [] || AtMost(x, s[0]) then [x] + s else [s[0]] + InsertSorted(x, s[1..])
  }

  function Sorted(s: seq<string>): seq<string> {
    if s == [] then [] else InsertSorted(s[0], Sorted(s[1..]))
  }

  ghost predicate InOrder(s: seq<string>) {
    forall i, j :: 0 <= i < j < |s| ==> AtMost(s[i], s[j])
  }

  lemma {:induction false} AtMostTotal(s: string, t: string)
    ensures AtMost(s, t) || AtMost(t, s)
    ensures AtMost(s, t) && AtMost(t, s) ==> s == t
  {
    if s != "" && t != "" && s[0] == t[0] {
      AtMostTotal(s[1..], t[1..]);
      assert s == [s[0]] + s[1..] && t == [t[0]] + t[1..];
    }
  }

  lemma {:induction false} AtMostTransitive(s: string, t: string, u: string)
    requires AtMost(s, t) && AtMost(t, u)
    ensures AtMost(s, u)
  {
    if s != "" && s[0] == t[0] == u[0] {
      AtMostTransitive(s[1..], t[1..], u[1..]);
    }
  }

  lemma LeastFirst(s: seq<string>, x: string)
    requires InOrder(s) && x in multiset(s)
    ensures AtMost(s[0], x)
  {
    hide AtMost;
    var i :| 0 <= i < |s| && s[i] == x;
    AtMostTotal(s[0], s[0]);
  }

  lemma TailOf(s: seq<string>)
    requires InOrder(s) && s != []
    ensures InOrder(s[1..]) && multiset(s[1..]) == multiset(s) - multiset{s[0]}
  {
    assert s == [s[0]] + s[1..];
  }

  lemma ConsOrders(x: string, s: seq<string>)
    requires InOrder(s) && forall y :: y in multiset(s) ==> AtMost(x, y)
    ensures InOrder([x] + s)
  {
    hide AtMost;
    var t := [x] + s;
    assert forall j :: 0 < j < |t| ==> t[j] == s[j - 1] && s[j - 1] in multiset(s);
  }

  lemma {:induction false} InsertOrders(x: string, s: seq<string>)
    requires InOrder(s)
    ensures InOrder(InsertSorted(x, s)) && multiset(InsertSorted(x, s)) == multiset(s) + multiset{x}
  {
    hide AtMost, InOrder;
    if s == [] {
      ConsOrders(x, s);
    } else if AtMost(x, s[0]) {
      forall y | y in multiset(s)
        ensures AtMost(x, y)
      {
        LeastFirst(s, y);
        AtMostTransitive(x, s[0], y);
      }
      ConsOrders(x, s);
    } else {
      TailOf(s);
      InsertOrders(x, s[1..]);
      AtMostTotal(x, s[0]);
      forall y | y in multiset(InsertSorted(x, s[1..]))
        ensures AtMost(s[0], y)
      {
        if y != x {
          LeastFirst(s, y);
        }
      }
      ConsOrders(s[0], InsertSorted(x, s[1..]));
    }
  }

  /** Sorted delivers an ordered permutation. */
  lemma {:induction false} SortedOrders(s: seq<string>)
    ensures InOrder(Sorted(s)) && multiset(Sorted(s)) == multiset(s)
  {
    if s != [] {
      SortedOrders(s[1..]);
      InsertOrders(s[0], Sorted(s[1..]));
      assert s == [s[0]] + s[1..];
    }
  }

  /** The order is total, so there is only one ordered permutation: whatever algorithm
      the library uses, its result is Sorted. */
  lemma {:induction false} OrderIsUnique(s: seq<string>, t: seq<string>)
    requires InOrder(s) && InOrder(t) && multiset(s) == multiset(t)
    ensures s == t
  {
    hide AtMost, InOrder;
    assert |s| == |multiset(s)| == |t|;
    if s != [] {
      assert s[0] in multiset(t) && t[0] in multiset(s);
      LeastFirst(s, t[0]);
      LeastFirst(t, s[0]);
      AtMostTotal(s[0], t[0]);
      TailOf(s);
      TailOf(t);
      OrderIsUnique(s[1..], t[1..]);
      assert s == [s[0]] + s[1..] && t == [t[0]] + t[1..];
    }
  }
}
