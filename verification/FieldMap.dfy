/** The field map of src/hashmap.cpp: 97 chains of which only the first is ever used. */
module FieldMap {
  import opened FieldPairs
  import opened Sequences
  import opened Text

  const HASH_SIZE: int := 97

  class MapNode {
    var field: string
    var value: string
    var prev: MapNode?
    var next: MapNode?

    constructor (field: string, value: string)
      ensures this.field == field && this.value == value && prev == null && next == null
    {
      this.field, this.value := field, value;
      prev, next := null, null;
    }
  }

  /** A null-terminated doubly linked chain through exactly these distinct nodes. */
  ghost predicate Chain(head: MapNode?, s: seq<MapNode>)
    reads s
  {
    && (if s == [] then head == null else head == s[0] && s[0].prev == null && s[|s| - 1].next == null)
    && (forall i, j :: 0 <= i && j == i + 1 && j < |s| ==> s[i].next == s[j] && s[j].prev == s[i])
    && NoRepeats(s)
  }

  lemma ChainStep(head: MapNode?, s: seq<MapNode>, i: nat)
    requires Chain(head, s) && i < |s|
    ensures s[i].next == if i + 1 == |s| then null else s[i + 1]
    ensures s[i].prev == if i == 0 then null else s[i - 1]
  {
  }

  lemma ChainPush(head: MapNode?, s: seq<MapNode>, e: MapNode)
    requires e.prev == null
    requires if s == [] then head == null && e.next == null
             else e.next == head == s[0] && s[0].prev == e && s[|s| - 1].next == null
    requires forall i, j :: 0 <= i && j == i + 1 && j < |s| ==> s[i].next == s[j] && s[j].prev == s[i]
    requires e !in s && NoRepeats(s)
    ensures Chain(e, [e] + s)
  {
    hide NoRepeats;
    var t := [e] + s;
    FreshFirst(e, s);
    forall i, j | 0 <= i && j == i + 1 && j < |t|
      ensures t[i].next == t[j] && t[j].prev == t[i]
    {
      if i > 0 {
        assert t[i] == s[i - 1] && t[j] == s[i];
      }
    }
  }

  lemma ChainBypass(head: MapNode?, s: seq<MapNode>, k: nat)
    requires k < |s|
    requires forall i, j :: 0 <= i && j == i + 1 && j < |s| && i != k && j != k ==> s[i].next == s[j] && s[j].prev == s[i]
    requires k + 1 < |s| ==> s[k + 1].prev == if k == 0 then null else s[k - 1]
    requires k > 0 ==> s[k - 1].next == (if k + 1 == |s| then null else s[k + 1]) && head == s[0] && s[0].prev == null
    requires k == 0 ==> head == if |s| == 1 then null else s[1]
    requires k + 1 < |s| ==> s[|s| - 1].next == null
    requires NoRepeats(s)
    ensures Chain(head, Without(s, k))
  {
    var t := Without(s, k);
    forall i, j | 0 <= i && j == i + 1 && j < |t|
      ensures t[i].next == t[j] && t[j].prev == t[i]
    {
      assert t[i] == s[if i < k then i else i + 1] && t[j] == s[if j < k then j else j + 1];
    }
  }

  lemma JoinTwo(parts: seq<string>, i: nat)
    requires 0 < i < |parts| - 1
    ensures Join(parts[..i + 2], ',') == Join(parts[..i], ',') + ("," + parts[i] + "," + parts[i + 1])
  {
    JoinSnoc(parts[..i], parts[i], ',');
    JoinSnoc(parts[..i + 1], parts[i + 1], ',');
    assert parts[..i + 1] == parts[..i] + [parts[i]];
    assert parts[..i + 2] == parts[..i + 1] + [parts[i + 1]];
  }

  class Hashmap {
    const h_map: array<MapNode?>
    var size: int
    ghost var spine: seq<MapNode>
    ghost var pairs: Pairs
    ghost var Repr: set<object>

    /** All nodes sit in bucket 0: a search that misses leaves the caller's index at 0,
        so that is where set_fv links every new node. */
    ghost predicate Valid()
      reads this, Repr
      ensures Valid() ==> this in Repr
    {
      && this in Repr && h_map in Repr
      && h_map.Length == HASH_SIZE
      && (forall i :: 0 <= i < |spine| ==> spine[i] in Repr)
      && Chain(h_map[0], spine)
      && (forall i :: 0 < i < HASH_SIZE ==> h_map[i] == null)
      && size == |spine| == |pairs|
      && (forall i {:trigger pairs[i]} {:trigger spine[i].field} {:trigger spine[i].value} ::
            0 <= i < |spine| ==> pairs[i] == (spine[i].field, spine[i].value))
      && DistinctFields(pairs)
    }

    constructor ()
      ensures Valid() && fresh(Repr) && pairs == []
    {
      h_map := new MapNode?[HASH_SIZE](_ => null);
      size := 0;
      spine, pairs := [], [];
      new;
      Repr := {this, h_map};
    }

    predicate IsEmpty()
      requires Valid()
      reads this, Repr
      ensures IsEmpty() <==> pairs == []
    {
      size == 0
    }

    /** find_hashmapNode: on a hit the index becomes the bucket, on a miss it stays. */
    method FindNode(field: string, index: int) returns (check: MapNode?, found: int)
      requires Valid()
      ensures check == null <==> FieldAt(pairs, field) == |pairs|
      ensures var k := FieldAt(pairs, field);
              if k == |pairs| then check == null && found == index else check == spine[k] && found == 0
    {
      found := index;
      var i := 0;
      while i < HASH_SIZE
        invariant 0 <= i <= HASH_SIZE
        invariant i > 0 ==> FieldAt(pairs, field) == |pairs|
      {
        check := h_map[i];
        ghost var k := 0;
        while check != null
          invariant i > 0 ==> check == null
          invariant i == 0 ==> 0 <= k <= |spine| && check == if k == |spine| then null else spine[k]
          invariant i == 0 ==> forall j :: 0 <= j < k ==> pairs[j].0 != field
          decreases |spine| - k
        {
          if check.field == field {
            found := i;
            return;
          }
          ChainStep(h_map[0], spine, k);
          check := check.next;
          k := k + 1;
        }
        i := i + 1;
      }
      check := null;
    }

    method GetV(field: string) returns (value: string)
      requires Valid()
      ensures value == ValueOf(pairs, field)
    {
      var node, index := FindNode(field, 0);
      value := if node == null then "NULL" else node.value;
    }

    /** Links a new node in front of the chain of bucket 0. */
    method Wire(new_node: MapNode, index: nat)
      requires h_map.Length == HASH_SIZE && index == 0 && Chain(h_map[0], spine)
      requires new_node !in spine && new_node.prev == null && new_node.next == null
      modifies h_map, new_node, set n | n in spine
      ensures Chain(h_map[0], [new_node] + spine)
      ensures forall i :: 0 < i < HASH_SIZE ==> h_map[i] == old(h_map[i])
      ensures forall n :: n in spine || n == new_node ==> n.field == old(n.field) && n.value == old(n.value)
    {
      ghost var head := h_map[index];
      if h_map[index] == null {
        h_map[index] := new_node;
      } else {
        new_node.next := h_map[index];
        h_map[index].prev := new_node;
        h_map[index] := new_node;
      }
      ChainPush(head, spine, new_node);
    }

    /** The ghost side of a change to the chain. */
    ghost method Record(s: seq<MapNode>, ps: Pairs)
      requires {this, h_map} <= Repr && forall i :: 0 <= i < |s| ==> s[i] in Repr
      requires h_map.Length == HASH_SIZE && Chain(h_map[0], s) && forall i :: 0 < i < HASH_SIZE ==> h_map[i] == null
      requires size == |s| == |ps| && DistinctFields(ps)
      requires forall i {:trigger ps[i]} {:trigger s[i].field} {:trigger s[i].value} ::
                 0 <= i < |s| ==> ps[i] == (s[i].field, s[i].value)
      modifies this`spine, this`pairs
      ensures Valid() && spine == s && pairs == ps
    {
      hide Chain, DistinctFields;
      spine, pairs := s, ps;
    }

    /** Puts a new node in front of the pairs. */
    method Insert(new_node: MapNode, index: nat)
      requires Valid() && index == 0
      requires new_node !in Repr && new_node.prev == null && new_node.next == null
      requires FieldAt(pairs, new_node.field) == |pairs|
      modifies Repr, new_node
      ensures Valid() && Repr == old(Repr) + {new_node}
      ensures pairs == [(old(new_node.field), old(new_node.value))] + old(pairs)
    {
      hide Chain;
      Wire(new_node, index);
      size := size + 1;
      Repr := Repr + {new_node};
      Record([new_node] + spine, [(new_node.field, new_node.value)] + pairs);
    }

    /** Gives the k-th node another value. */
    method Update(node: MapNode, ghost k: nat, value: string)
      requires Valid() && k < |spine| && spine[k] == node && DistinctFields(pairs[k := (node.field, value)])
      modifies node`value, this`spine, this`pairs
      ensures Valid() && pairs == old(pairs)[k := (old(node.field), value)]
    {
      hide DistinctFields;
      node.value := value;
      Record(spine, pairs[k := (node.field, value)]);
    }

    method SetFv(field: string, value: string)
      requires Valid()
      modifies Repr
      ensures Valid() && fresh(Repr - old(Repr))
      ensures pairs == Put(old(pairs), field, value)
    {
      hide Chain;
      var node, index := FindNode(field, 0);
      if node == null {
        var new_node := new MapNode(field, value);
        Insert(new_node, index);
      } else {
        Update(node, FieldAt(pairs, field), value);
      }
    }

    /** Takes the k-th node out of the chain. */
    method Bypass(node: MapNode, index: nat, ghost k: nat)
      requires Valid() && index == 0 && k < |spine| && spine[k] == node
      modifies Repr
      ensures size == old(size) && spine == old(spine) && pairs == old(pairs) && Repr == old(Repr)
      ensures Chain(h_map[0], Without(spine, k))
      ensures forall i :: 0 < i < HASH_SIZE ==> h_map[i] == null
      ensures forall n :: n in spine ==> n.field == old(n.field) && n.value == old(n.value)
    {
      ChainStep(h_map[0], spine, k);
      if node.next != null {
        node.next.prev := node.prev;
      }
      if node.prev == null {
        h_map[index] := node.next;
      } else {
        node.prev.next := node.next;
      }
      ChainBypass(h_map[0], spine, k);
    }

    /** The caller has made sure that the field is there. */
    method DelFv(field: string)
      requires Valid() && FieldAt(pairs, field) < |pairs|
      modifies Repr
      ensures Valid() && Repr == old(Repr)
      ensures pairs == Cut(old(pairs), field)
    {
      hide Chain;
      var node, index := FindNode(field, 0);
      ghost var k := FieldAt(pairs, field);
      Bypass(node, index, k);
      size := size - 1;
      CutKeepsDistinct(pairs, field);
      Record(Without(spine, k), Without(pairs, k));
    }

    /** The fields joined by commas, although no comma is put between two buckets. */
    method Fields() returns (result: string)
      requires Valid()
      ensures result == Join(FieldsOf(pairs), ',')
    {
      hide DistinctFields, Join;
      result := "";
      ghost var fs := FieldsOf(pairs);
      JoinEnds(fs, ',');
      var i := 0;
      while i < HASH_SIZE
        invariant 0 <= i <= HASH_SIZE
        invariant result == if i == 0 then "" else Join(fs, ',')
      {
        var node := h_map[i];
        ghost var k := 0;
        if node != null {
          result := result + node.field;
          ChainStep(h_map[0], spine, 0);
          node := node.next;
          k := 1;
        }
        while node != null
          invariant i > 0 ==> node == null
          invariant i == 0 ==> 0 <= k <= |spine| && node == if k == |spine| then null else spine[k]
          invariant node != null ==> k > 0
          invariant result == Join(if i == 0 then fs[..k] else fs, ',')
          decreases |spine| - k
        {
          JoinNext(fs, k, ',');
          result := result + ("," + node.field);
          ChainStep(h_map[0], spine, k);
          node := node.next;
          k := k + 1;
        }
        i := i + 1;
      }
    }

    method Values() returns (result: string)
      requires Valid()
      ensures result == Join(ValuesOf(pairs), ',')
    {
      hide DistinctFields, Join;
      result := "";
      ghost var vs := ValuesOf(pairs);
      JoinEnds(vs, ',');
      var i := 0;
      while i < HASH_SIZE
        invariant 0 <= i <= HASH_SIZE
        invariant result == if i == 0 then "" else Join(vs, ',')
      {
        var node := h_map[i];
        ghost var k := 0;
        if node != null {
          result := result + node.value;
          ChainStep(h_map[0], spine, 0);
          node := node.next;
          k := 1;
        }
        while node != null
          invariant i > 0 ==> node == null
          invariant i == 0 ==> 0 <= k <= |spine| && node == if k == |spine| then null else spine[k]
          invariant node != null ==> k > 0
          invariant result == Join(if i == 0 then vs[..k] else vs, ',')
          decreases |spine| - k
        {
          JoinNext(vs, k, ',');
          result := result + ("," + node.value);
          ChainStep(h_map[0], spine, k);
          node := node.next;
          k := k + 1;
        }
        i := i + 1;
      }
    }

    /** Field and value of every node, all joined by commas. */
    method Fvs() returns (result: string)
      requires Valid()
      ensures result == Join(Alternating(pairs), ',')
    {
      hide DistinctFields;
      result := "";
      ghost var parts := Alternating(pairs);
      var i := 0;
      while i < HASH_SIZE
        invariant 0 <= i <= HASH_SIZE
        invariant result == if i == 0 then "" else Join(parts, ',')
      {
        var node := h_map[i];
        ghost var k := 0;
        if node != null {
          result := result + (node.field + "," + node.value);
          ChainStep(h_map[0], spine, 0);
          node := node.next;
          k := 1;
          assert parts[..2] == [parts[0], parts[1]];
        }
        while node != null
          invariant i > 0 ==> node == null
          invariant i == 0 ==> 0 <= k <= |spine| && node == if k == |spine| then null else spine[k]
          invariant node != null ==> k > 0
          invariant result == Join(if i == 0 then parts[..2 * k] else parts, ',')
          decreases |spine| - k
        {
          JoinTwo(parts, 2 * k);
          result := result + ("," + node.field + "," + node.value);
          ChainStep(h_map[0], spine, k);
          node := node.next;
          k := k + 1;
        }
        assert parts[..|parts|] == parts;
        i := i + 1;
      }
    }
  }
}
