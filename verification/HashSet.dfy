/** The hash set of src/hashset.cpp: 97 circular lists, refining a set of strings. */
module HashSet {
  import opened Hashing
  import opened LinkedList
  import NumberTheory
  import opened Sequences
  import opened SetBuckets
  import opened Text

  class Hashset {
    var table: seq<List>
    ghost var buckets: Buckets
    ghost var Repr: set<object>

    ghost predicate Valid()
      reads this, Repr
      ensures Valid() ==> this in Repr
    {
      && this in Repr
      && |table| == SET_S
      && (forall i :: 0 <= i < |table| ==>
            && table[i] in Repr && table[i].Repr <= Repr && this !in table[i].Repr
            && table[i].Valid() && table[i].items == buckets[i])
      && (forall i, j :: 0 <= i < j < |table| ==> table[i].Repr !! table[j].Repr)
      && Placed(buckets)
    }

    constructor ()
      ensures Valid() && fresh(Repr) && buckets == NoBuckets()
    {
      table := [];
      buckets := NoBuckets();
      Repr := {this};
      new;
      while |table| < SET_S
        invariant |table| <= SET_S
        invariant this in Repr && fresh(Repr) && buckets == NoBuckets()
        invariant forall i :: 0 <= i < |table| ==>
                    && table[i] in Repr && table[i].Repr <= Repr && this !in table[i].Repr
                    && table[i].Valid() && table[i].items == []
        invariant forall i, j :: 0 <= i < j < |table| ==> table[i].Repr !! table[j].Repr
      {
        var bucket := new List();
        table := table + [bucket];
        Repr := Repr + bucket.Repr;
      }
    }

    /** Records that only the list of bucket i has changed. */
    ghost method BucketChanged(i: nat)
      requires i < |table| && |table| == |buckets| == SET_S && this in Repr
      requires forall j :: 0 <= j < |table| ==>
                 && table[j] in Repr && this !in table[j].Repr
                 && table[j].Valid()
                 && (j != i ==> table[j].Repr <= Repr && table[j].items == buckets[j])
      requires forall j :: 0 <= j < |table| && j != i ==> table[j].Repr !! table[i].Repr
      requires forall j, k :: 0 <= j < k < |table| && j != i && k != i ==> table[j].Repr !! table[k].Repr
      requires Placed(buckets[i := table[i].items])
      modifies this`buckets, this`Repr
      ensures Valid() && buckets == old(buckets)[i := table[i].items]
      ensures Repr == old(Repr) + table[i].Repr
    {
      buckets := buckets[i := table[i].items];
      Repr := Repr + table[i].Repr;
    }

    /** push_back on the list of one bucket. */
    method PushBackAt(i: nat, content: string)
      requires Valid() && i < SET_S && Placed(buckets[i := buckets[i] + [content]])
      modifies Repr
      ensures Valid() && fresh(Repr - old(Repr))
      ensures buckets == old(buckets)[i := old(buckets)[i] + [content]]
    {
      table[i].PushBack(content);
      BucketChanged(i);
    }

    /** pop_back on the list of one bucket. */
    method PopBackAt(i: nat) returns (res: string)
      requires Valid() && i < SET_S && buckets[i] != [] && Placed(WithoutAt(buckets, i, |buckets[i]| - 1))
      modifies Repr
      ensures Valid() && fresh(Repr - old(Repr))
      ensures res == old(buckets)[i][|old(buckets)[i]| - 1]
      ensures buckets == WithoutAt(old(buckets), i, |old(buckets)[i]| - 1)
    {
      res := table[i].PopBack();
      ghost var s, k := old(buckets)[i], |old(buckets)[i]| - 1;
      assert table[i].items + [res] == s;
      assert table[i].items == Without(s, k);
      BucketChanged(i);
    }

    /** del on the list of one bucket. */
    method DelAt(i: nat, index: nat)
      requires Valid() && i < SET_S && index < |buckets[i]| && Placed(WithoutAt(buckets, i, index))
      modifies Repr
      ensures Valid() && fresh(Repr - old(Repr))
      ensures buckets == WithoutAt(old(buckets), i, index)
    {
      NumberTheory.ModUnique(index, |buckets[i]|, 0, index);
      var ok := table[i].Del(index);
      BucketChanged(i);
    }

    method Push(content: string)
      requires Valid()
      modifies Repr
      ensures Valid() && fresh(Repr - old(Repr))
      ensures buckets == Pushed(old(buckets), content)
    {
      PushInserts(buckets, content);
      var index := SetHash(content);
      var at := table[index].Find(content);
      if at < 0 {
        PushBackAt(index, content);
      }
    }

    method Pop() returns (res: string)
      requires Valid()
      modifies Repr
      ensures Valid() && fresh(Repr - old(Repr))
      ensures (res, buckets) == Popped(old(buckets))
    {
      PopChooses(buckets);
      var i := 0;
      while i < SET_S
        invariant 0 <= i <= SET_S
        invariant forall j :: 0 <= j < i ==> buckets[j] == []
      {
        if table[i].GetLength() > 0 {
          break;
        }
        i := i + 1;
      }
      assert i == FirstNonEmpty(buckets);
      if i == SET_S {
        res := "";
      } else {
        res := PopBackAt(i);
      }
    }

    /** Scans all buckets although the element can only be in one. */
    method Del(content: string) returns (ok: bool)
      requires Valid()
      modifies Repr
      ensures Valid() && fresh(Repr - old(Repr))
      ensures (ok, buckets) == Erased(old(buckets), content)
      ensures !ok ==> buckets == old(buckets)
    {
      EraseRemoves(buckets, content);
      var i, index := 0, -1;
      while i < SET_S
        invariant 0 <= i <= SET_S
        invariant forall j :: 0 <= j < i ==> content !in buckets[j]
        modifies {}
      {
        index := table[i].Find(content);
        if index >= 0 {
          break;
        }
        i := i + 1;
      }
      if i < SET_S {
        assert i == SetSlot(content) && index == PositionOf(buckets[i], content);
        DelAt(i, index);
      }
      ok := i < SET_S;
    }

    method GetLength() returns (res: int)
      requires Valid()
      ensures res == |Flat(buckets)| == |Members(buckets)|
    {
      res := 0;
      var i := 0;
      while i < SET_S
        invariant 0 <= i <= SET_S && res == |Flat(buckets[..i])|
      {
        FlatSnoc(buckets[..i], buckets[i]);
        assert buckets[..i + 1] == buckets[..i] + [buckets[i]];
        res := res + table[i].GetLength();
        i := i + 1;
      }
      assert buckets[..i] == buckets;
      FlatEnumerates(buckets);
    }

    method IsEmpty() returns (empty: bool)
      requires Valid()
      ensures empty <==> Members(buckets) == {}
      ensures empty <==> Flat(buckets) == []
    {
      var n := GetLength();
      empty := n == 0;
    }

    method Print() returns (str: string)
      requires Valid()
      ensures str == Join(Flat(buckets), ',')
    {
      hide Flat, Join, Placed;
      FlatEnds(buckets);
      var start := true;
      str := "";
      var i := 0;
      while i < SET_S
        invariant 0 <= i <= SET_S
        invariant start <==> Flat(buckets[..i]) == []
        invariant str == Join(Flat(buckets[..i]), ',')
      {
        FlatJoinStep(buckets, i);
        if !table[i].IsEmpty() {
          var text := table[i].Print();
          if start {
            str := str + text;
            start := false;
          } else {
            str := str + ("," + text);
          }
        }
        i := i + 1;
      }
    }
  }
}
