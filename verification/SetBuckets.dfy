/** The abstract value of a hash set: its 97 buckets, each a sequence of elements. */
module SetBuckets {
  import opened Hashing
  import opened Sequences
  import opened Text

  type Buckets = b: seq<seq<string>> | |b| == SET_S witness seq(SET_S, i => [])

  function NoBuckets(): (b: Buckets)
    ensures |b| == SET_S && forall i :: 0 <= i < SET_S ==> b[i] == []
  {
    seq(SET_S, i => [])
  }

  /** What every reachable set satisfies: each element once, in the bucket of its hash. */
  ghost predicate Placed(b: seq<seq<string>>) {
    && |b| == SET_S
    && (forall i :: 0 <= i < |b| ==> NoRepeats(b[i]))
    && (forall i, x :: 0 <= i < |b| && x in b[i] ==> SetSlot(x) == i)
  }

  ghost function Members(b: seq<seq<string>>): set<string> {
    set i, x | 0 <= i < |b| && x in b[i] :: x
  }

  lemma MemberSlot(b: Buckets, x: string)
    requires Placed(b)
    ensures x in Members(b) <==> x in b[SetSlot(x)]
  {
  }

  // ------------------------------------------------------------ operations

  function Pushed(b: Buckets, x: string): Buckets
  {
    var i := SetSlot(x);
    if x in b[i] then b else b[i := b[i] + [x]]
  }

  /** push refines set insertion. */
  lemma PushInserts(b: Buckets, x: string)
    requires Placed(b)
    ensures Placed(Pushed(b, x)) && Members(Pushed(b, x)) == Members(b) + {x}
  {
    var i, c := SetSlot(x), Pushed(b, x);
    if x !in b[i] {
      assert c[i] == b[i] + [x];
      forall y
        ensures y in Members(c) <==> y in Members(b) + {x}
      {
        if y in Members(b) {
          MemberSlot(b, y);
          assert y in c[SetSlot(y)];
        }
        if y == x {
          assert y in c[i];
        }
      }
    }
  }

  function WithoutAt(b: Buckets, i: nat, k: nat): Buckets
    requires i < |b| && k < |b[i]|
  {
    b[i := Without(b[i], k)]
  }

  /** Taking one occurrence out of its bucket refines set removal. */
  lemma RemovalRemoves(b: Buckets, i: nat, k: nat)
    requires Placed(b) && i < |b| && k < |b[i]|
    ensures Placed(WithoutAt(b, i, k)) && b[i][k] in Members(b)
    ensures Members(WithoutAt(b, i, k)) == Members(b) - {b[i][k]}
  {
    var x, c := b[i][k], WithoutAt(b, i, k);
    assert c[i] == Without(b[i], k);
    assert forall y :: y in c[i] ==> y in b[i];
    assert x in b[i] && x !in c[i];
    forall y
      ensures y in Members(c) <==> y in Members(b) && y != x
    {
      if y in Members(c) {
        var j :| 0 <= j < |c| && y in c[j];
        assert y in b[j];
        assert y == x ==> SetSlot(y) == i;
      }
      if y in Members(b) && y != x {
        var j :| 0 <= j < |b| && y in b[j];
        if j == i {
          var l :| 0 <= l < |b[i]| && b[i][l] == y;
          assert c[i][if l < k then l else l - 1] == y;
        }
        assert y in c[j];
      }
    }
  }

  function FirstNonEmpty(b: seq<seq<string>>): (i: nat)
    ensures i <= |b| && (i < |b| ==> b[i] != [])
    ensures forall j :: 0 <= j < i ==> b[j] == []
  {
    if b == [] || b[0] != [] then 0 else FirstNonEmpty(b[1..]) + 1
  }

  /** The element pop takes: the last one of the first non-empty bucket. */
  function Popped(b: Buckets): (string, Buckets) {
    var i := FirstNonEmpty(b);
    if i == |b| then ("", b) else
      var k := |b[i]| - 1;
      (b[i][k], WithoutAt(b, i, k))
  }

  /** pop refines the choice and removal of a member. */
  lemma PopChooses(b: Buckets)
    requires Placed(b)
    ensures Placed(Popped(b).1)
    ensures Members(b) == {} ==> Popped(b) == ("", b)
    ensures Members(b) != {} ==> Popped(b).0 in Members(b) && Members(Popped(b).1) == Members(b) - {Popped(b).0}
  {
    var i := FirstNonEmpty(b);
    if i < |b| {
      RemovalRemoves(b, i, |b[i]| - 1);
    }
  }

  function Erased(b: Buckets, x: string): (bool, Buckets)
  {
    var i := SetSlot(x);
    if x in b[i] then (true, WithoutAt(b, i, PositionOf(b[i], x))) else (false, b)
  }

  function PositionOf(s: seq<string>, x: string): (k: nat)
    requires x in s
    ensures k < |s| && s[k] == x && x !in s[..k]
  {
    if s[0] == x then 0 else
      var k := PositionOf(s[1..], x) + 1;
      assert s[..k] == [s[0]] + s[1..][..k - 1];
      k
  }

  /** del refines set removal and reports membership. */
  lemma EraseRemoves(b: Buckets, x: string)
    requires Placed(b)
    ensures Placed(Erased(b, x).1) && Members(Erased(b, x).1) == Members(b) - {x}
    ensures Erased(b, x).0 <==> x in Members(b)
  {
    MemberSlot(b, x);
    var i := SetSlot(x);
    if x in b[i] {
      RemovalRemoves(b, i, PositionOf(b[i], x));
    }
  }

  // -------------------------------------------------- enumeration and size

  function Flat(b: seq<seq<string>>): seq<string> {
    if b == [] then [] else b[0] + Flat(b[1..])
  }

  lemma {:induction false} FlatSnoc(b: seq<seq<string>>, c: seq<string>)
    ensures Flat(b + [c]) == Flat(b) + c
  {
    if b == [] {
      assert b + [c] == [c] && [c][1..] == [];
      assert c + [] == [] + c;
    } else {
      assert (b + [c])[1..] == b[1..] + [c];
      FlatSnoc(b[1..], c);
      Assoc(b[0], Flat(b[1..]), c);
    }
  }

  lemma {:induction false} FlatMembers(b: seq<seq<string>>, x: string)
    ensures x in Flat(b) <==> exists i :: 0 <= i < |b| && x in b[i]
  {
    if b != [] {
      FlatMembers(b[1..], x);
      if i :| 0 <= i < |b| && x in b[i] {
        assert i > 0 ==> x in b[1..][i - 1];
      }
      if i :| 0 <= i < |b[1..]| && x in b[1..][i] {
        assert x in b[i + 1];
      }
    }
  }

  lemma LaterBucket(b: Buckets, k: nat, x: string)
    requires Placed(b) && k < |b| && x in b[k]
    ensures x !in Flat(b[k + 1..])
  {
    var rest := b[k + 1..];
    FlatMembers(rest, x);
    assert SetSlot(x) == k;
    assert forall i :: 0 <= i < |rest| ==> rest[i] == b[k + 1 + i];
    assert forall i :: 0 <= i < |rest| && x in rest[i] ==> SetSlot(x) == k + 1 + i;
  }

  /** Enumerating the buckets from k on lists no element twice. */
  lemma {:induction false} FlatNoRepeats(b: Buckets, k: nat)
    requires Placed(b) && k <= |b|
    ensures NoRepeats(Flat(b[k..]))
    decreases |b| - k
  {
    if k < |b| {
      FlatNoRepeats(b, k + 1);
      assert b[k..][0] == b[k] && b[k..][1..] == b[k + 1..];
      forall x | x in b[k]
        ensures x !in Flat(b[k + 1..])
      {
        LaterBucket(b, k, x);
      }
      NoRepeatsConcat(b[k], Flat(b[k + 1..]));
    }
  }

  /** The enumeration lists each member exactly once, so the counters add up to the
      cardinality of the set. */
  lemma FlatEnumerates(b: Buckets)
    requires Placed(b)
    ensures NoRepeats(Flat(b)) && (set x | x in Flat(b)) == Members(b)
    ensures |Flat(b)| == |Members(b)|
  {
    assert b[0..] == b;
    FlatNoRepeats(b, 0);
    forall x
      ensures x in Flat(b) <==> x in Members(b)
    {
      FlatMembers(b, x);
    }
    NoRepeatsCount(Flat(b));
  }

  lemma {:induction false} JoinConcat(s: seq<string>, t: seq<string>, c: char)
    ensures Join(s + t, c) ==
            if s == [] then Join(t, c) else if t == [] then Join(s, c) else Join(s, c) + [c] + Join(t, c)
  {
    if s == [] {
      assert s + t == t;
    } else if t == [] {
      assert s + t == s;
    } else if |s| == 1 {
      assert (s + t)[1..] == t;
    } else {
      assert (s + t)[1..] == s[1..] + t;
      JoinConcat(s[1..], t, c);
      Assoc(s[0] + [c], Join(s[1..], c), [c] + Join(t, c));
    }
  }

  /** The elements are listed bucket by bucket. */
  lemma {:induction false} BucketByBucket(b: seq<seq<string>>, from: int)
    requires forall i, x :: 0 <= i < |b| && x in b[i] ==> SetSlot(x) == from + i
    ensures forall x :: x in Flat(b) ==> from <= SetSlot(x)
    ensures forall i, j :: 0 <= i < j < |Flat(b)| ==> SetSlot(Flat(b)[i]) <= SetSlot(Flat(b)[j])
  {
    hide SetSlot;
    if b != [] {
      var c, rest := b[0], Flat(b[1..]);
      assert forall i :: 0 <= i < |b[1..]| ==> b[1..][i] == b[i + 1];
      BucketByBucket(b[1..], from + 1);
      var xs := Flat(b);
      assert forall i :: 0 <= i < |c| ==> c[i] in c && SetSlot(c[i]) == from;
      assert forall i :: 0 <= i < |rest| ==> rest[i] in rest && SetSlot(rest[i]) >= from;
      forall i, j | 0 <= i < j < |xs|
        ensures SetSlot(xs[i]) <= SetSlot(xs[j])
      {
        if i >= |c| {
          assert xs[i] == rest[i - |c|] && xs[j] == rest[j - |c|];
        }
      }
    }
  }

  lemma FlatEnds(b: seq<seq<string>>)
    ensures Flat(b[..0]) == [] && Join(Flat(b[..0]), ',') == "" && Flat(b[..|b|]) == Flat(b)
  {
    assert b[..|b|] == b;
  }

  lemma FlatJoinStep(b: seq<seq<string>>, i: nat)
    requires i < |b|
    ensures Flat(b[..i + 1]) == Flat(b[..i]) + b[i]
    ensures var done := Flat(b[..i]);
            Join(Flat(b[..i + 1]), ',') ==
            if done == [] then Join(b[i], ',')
            else if b[i] == [] then Join(done, ',')
            else Join(done, ',') + "," + Join(b[i], ',')
  {
    assert b[..i + 1] == b[..i] + [b[i]];
    FlatSnoc(b[..i], b[i]);
    JoinConcat(Flat(b[..i]), b[i], ',');
  }
}
