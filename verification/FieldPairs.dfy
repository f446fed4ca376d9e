/** The abstract value of a field map: its pairs in chain order, newest first. */
module FieldPairs {
  import opened Sequences

  type Pairs = seq<(string, string)>

  ghost predicate DistinctFields(ps: Pairs) {
    forall i, j :: 0 <= i < j < |ps| ==> ps[i].0 != ps[j].0
  }

  /** The position of a field, or |ps|. */
  function FieldAt(ps: Pairs, f: string): (k: nat)
    ensures k <= |ps| && (k < |ps| ==> ps[k].0 == f)
    ensures forall i :: 0 <= i < k ==> ps[i].0 != f
  {
    if ps == [] || ps[0].0 == f then 0 else FieldAt(ps[1..], f) + 1
  }

  function MapOf(ps: Pairs): map<string, string> {
    if ps == [] then map[] else MapOf(ps[1..])[ps[0].0 := ps[0].1]
  }

  function Put(ps: Pairs, f: string, v: string): Pairs {
    var k := FieldAt(ps, f);
    if k == |ps| then [(f, v)] + ps else ps[k := (f, v)]
  }

  function Cut(ps: Pairs, f: string): Pairs {
    var k := FieldAt(ps, f);
    if k == |ps| then ps else Without(ps, k)
  }

  /** hget's answer: a missing field reads as the text NULL. */
  function ValueOf(ps: Pairs, f: string): string {
    var k := FieldAt(ps, f);
    if k == |ps| then "NULL" else ps[k].1
  }

  lemma {:induction false} MapLookup(ps: Pairs, f: string)
    ensures f in MapOf(ps) <==> FieldAt(ps, f) < |ps|
    ensures f in MapOf(ps) ==> MapOf(ps)[f] == ps[FieldAt(ps, f)].1
  {
    if ps != [] {
      MapLookup(ps[1..], f);
    }
  }

  /** set_fv refines map update. */
  lemma {:induction false} PutUpdates(ps: Pairs, f: string, v: string)
    ensures MapOf(Put(ps, f, v)) == MapOf(ps)[f := v]
  {
    var qs := Put(ps, f, v);
    if FieldAt(ps, f) == |ps| {
      assert qs[1..] == ps;
    } else if ps[0].0 == f {
      assert qs[1..] == ps[1..];
    } else {
      PutUpdates(ps[1..], f, v);
      assert qs[1..] == Put(ps[1..], f, v);
    }
  }

  lemma PutKeepsDistinct(ps: Pairs, f: string, v: string)
    requires DistinctFields(ps)
    ensures DistinctFields(Put(ps, f, v))
  {
  }

  lemma HeadOnce(ps: Pairs)
    requires DistinctFields(ps) && ps != []
    ensures DistinctFields(ps[1..]) && ps[0].0 !in MapOf(ps[1..])
  {
    assert forall i :: 0 <= i < |ps[1..]| ==> ps[1..][i].0 != ps[0].0;
    MapLookup(ps[1..], ps[0].0);
  }

  lemma MapCons(p: (string, string), ps: Pairs)
    ensures MapOf([p] + ps) == MapOf(ps)[p.0 := p.1]
  {
    assert ([p] + ps)[1..] == ps;
  }

  lemma CutInTail(ps: Pairs, f: string)
    requires ps != [] && ps[0].0 != f
    ensures Cut(ps, f) == [ps[0]] + Cut(ps[1..], f)
  {
    var k := FieldAt(ps[1..], f);
    if k < |ps[1..]| {
      assert ps[..k + 1] == [ps[0]] + ps[1..][..k] && ps[k + 2..] == ps[1..][k + 1..];
    }
  }

  /** del_fv refines map removal. */
  lemma {:induction false} CutRemoves(ps: Pairs, f: string)
    requires DistinctFields(ps)
    ensures MapOf(Cut(ps, f)) == MapOf(ps) - {f}
  {
    if ps == [] {
      assert MapOf(Cut([], f)) == map[];
    } else {
      hide Cut, DistinctFields, MapOf;
      var p, rest := ps[0], ps[1..];
      assert ps == [p] + rest;
      HeadOnce(ps);
      MapCons(p, rest);
      if p.0 == f {
        CutHead(ps);
        RemovedAgain(MapOf(rest), f, p.1);
      } else {
        CutRemoves(rest, f);
        CutInTail(ps, f);
        MapCons(p, Cut(rest, f));
        RemovedElsewhere(MapOf(rest), p.0, p.1, f);
      }
    }
  }

  lemma CutHead(ps: Pairs)
    requires ps != []
    ensures Cut(ps, ps[0].0) == ps[1..]
  {
  }

  lemma RemovedAgain(m: map<string, string>, f: string, v: string)
    requires f !in m
    ensures m[f := v] - {f} == m
  {
  }

  lemma RemovedElsewhere(m: map<string, string>, f: string, v: string, g: string)
    requires f != g
    ensures m[f := v] - {g} == (m - {g})[f := v]
  {
  }

  lemma CutKeepsDistinct(ps: Pairs, f: string)
    requires DistinctFields(ps)
    ensures DistinctFields(Cut(ps, f))
  {
  }

  /** The size counter is the cardinality of the map. */
  lemma {:induction false} MapCount(ps: Pairs)
    requires DistinctFields(ps)
    ensures |MapOf(ps)| == |ps|
  {
    if ps != [] {
      HeadOnce(ps);
      MapCount(ps[1..]);
    }
  }

  function FieldsOf(ps: Pairs): (r: seq<string>)
    ensures |r| == |ps| && forall i :: 0 <= i < |ps| ==> r[i] == ps[i].0
  {
    if ps == [] then [] else [ps[0].0] + FieldsOf(ps[1..])
  }

  function ValuesOf(ps: Pairs): (r: seq<string>)
    ensures |r| == |ps| && forall i :: 0 <= i < |ps| ==> r[i] == ps[i].1
  {
    if ps == [] then [] else [ps[0].1] + ValuesOf(ps[1..])
  }

  /** Fields and values alternating, as a snapshot stores them. */
  function Alternating(ps: Pairs): (r: seq<string>)
    ensures |r| == 2 * |ps|
    ensures forall i :: 0 <= i < |ps| ==> r[2 * i] == ps[i].0 && r[2 * i + 1] == ps[i].1
  {
    if ps == [] then [] else [ps[0].0, ps[0].1] + Alternating(ps[1..])
  }
}
