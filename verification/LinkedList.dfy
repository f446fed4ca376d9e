/** The circular doubly linked list of src/linkedlist.cpp, refining a sequence of strings. */
module LinkedList {
  import opened MachineInts
  import NumberTheory
  import opened Sequences
  import opened Text

  /** The element a signed int denotes in a ring of n elements: forwards from the head, or
      backwards as many steps as the remainder of its negation, which wraps around. */
  function Position(index: int, n: nat): (k: nat)
    requires n > 0
    ensures k < n
  {
    if index >= 0 then index % n
    else if TruncRem(Wrap32(-index), n) > 0 then n - TruncRem(Wrap32(-index), n)
    else 0
  }

  /** An int denotes the element at the index modulo n in the Euclidean sense, but for the
      least int, whose negation is itself: it denotes the head, which is right exactly when
      n divides 2^31. */
  lemma PositionIsEuclidean(index: int, n: nat)
    requires n > 0 && -TWO31 <= index < TWO31
    ensures Position(index, n) == index % n <==> index != -TWO31 || TWO31 % n == 0
  {
    if index < 0 {
      NumberTheory.NegatedRemainder(-index, n);
      assert Wrap32(-index) == if index == -TWO31 then index else -index;
    }
  }

  class Node {
    var content: string
    var prev: Node?
    var next: Node?

    constructor (content: string)
      ensures this.content == content && prev == null && next == null
    {
      this.content := content;
      prev, next := null, null;
    }
  }

  /** Neighbours in s are linked both ways. */
  ghost predicate Chain(s: seq<Node>)
    reads s
  {
    forall i, j :: 0 <= i && j == i + 1 && j < |s| ==> s[i].next == s[j] && s[j].prev == s[i]
  }

  /** One ring through exactly these distinct nodes, prev being the inverse of next. */
  ghost predicate Ring(s: seq<Node>)
    reads s
  {
    && Chain(s)
    && (s != [] ==> s[|s| - 1].next == s[0] && s[0].prev == s[|s| - 1])
    && (forall i, j :: 0 <= i < j < |s| ==> s[i] != s[j])
  }

  lemma ChainConcat(a: seq<Node>, b: seq<Node>)
    requires Chain(a) && Chain(b)
    requires a != [] && b != [] ==> a[|a| - 1].next == b[0] && b[0].prev == a[|a| - 1]
    ensures Chain(a + b)
  {
    var s := a + b;
    assert forall i :: 0 <= i < |a| ==> s[i] == a[i];
    assert forall i :: |a| <= i < |s| ==> s[i] == b[i - |a|];
  }

  lemma ChainCut(s: seq<Node>, k: nat)
    requires Chain(s) && k <= |s|
    ensures Chain(s[..k]) && Chain(s[k..])
  {
  }

  lemma DistinctConcat(a: seq<Node>, b: seq<Node>)
    requires forall i, j :: 0 <= i < j < |a| ==> a[i] != a[j]
    requires forall i, j :: 0 <= i < j < |b| ==> b[i] != b[j]
    requires forall i, j :: 0 <= i < |a| && 0 <= j < |b| ==> a[i] != b[j]
    ensures var s := a + b; forall i, j :: 0 <= i < j < |s| ==> s[i] != s[j]
  {
  }

  lemma RingStep(s: seq<Node>, i: nat)
    requires Ring(s) && i < |s|
    ensures s[i].next == s[if i + 1 == |s| then 0 else i + 1]
    ensures s[i].prev == s[if i == 0 then |s| - 1 else i - 1]
    ensures s[i].next == s[0] <==> i + 1 == |s|
    ensures s[i].next == s[i] <==> |s| == 1
  {
  }

  /** The ring through s and e starts at e just as well. */
  lemma RotateRing(s: seq<Node>, e: Node)
    requires Ring(s + [e])
    ensures Ring([e] + s)
  {
    var t := s + [e];
    assert t[|s|] == e && t[..|s|] == s;
    assert forall i :: 0 <= i < |s| ==> t[i] == s[i];
    ChainCut(t, |s|);
    ChainConcat([e], s);
    DistinctConcat([e], s);
  }

  lemma RingBypass(s: seq<Node>, k: nat)
    requires k < |s| && |s| >= 2 && forall i, j :: 0 <= i < j < |s| ==> s[i] != s[j]
    requires forall i, j :: 0 <= i && j == i + 1 && j < |s| && i != k && j != k ==> s[i].next == s[j] && s[j].prev == s[i]
    requires var p, q := if k == 0 then |s| - 1 else k - 1, if k + 1 == |s| then 0 else k + 1;
             s[p].next == s[q] && s[q].prev == s[p]
    requires 0 < k < |s| - 1 ==> s[|s| - 1].next == s[0] && s[0].prev == s[|s| - 1]
    ensures Ring(Without(s, k))
  {
    var t := Without(s, k);
    forall i, j | 0 <= i && j == i + 1 && j < |t|
      ensures t[i].next == t[j] && t[j].prev == t[i]
    {
      assert t[i] == s[if i < k then i else i + 1] && t[j] == s[if j < k then j else j + 1];
    }
  }

  class List {
    var head: Node?
    var length: int
    ghost var spine: seq<Node>
    ghost var items: seq<string>
    ghost var Repr: set<object>

    ghost predicate Valid()
      reads this, Repr
      ensures Valid() ==> this in Repr
    {
      && this in Repr
      && (forall i :: 0 <= i < |spine| ==> spine[i] in Repr)
      && Ring(spine)
      && (if spine == [] then head == null else head == spine[0])
      && length == |spine| == |items|
      && (forall i {:trigger items[i]} {:trigger spine[i].content} :: 0 <= i < |spine| ==> spine[i].content == items[i])
    }

    constructor ()
      ensures Valid() && fresh(Repr) && items == []
    {
      head := null;
      length := 0;
      spine, items := [], [];
      Repr := {this};
    }

    predicate IsEmpty()
      requires Valid()
      reads this, Repr
      ensures IsEmpty() <==> items == []
    {
      head == null
    }

    function GetLength(): (n: int)
      requires Valid()
      reads this, Repr
      ensures n == |items|
    {
      length
    }

    /** Links a new node between the tail and the head; the caller decides which end it is. */
    method Link(content: string) returns (element: Node)
      requires Valid()
      modifies Repr
      ensures fresh(element) && element.content == content
      ensures head == old(head) && length == old(length)
      ensures spine == old(spine) && items == old(items) && Repr == old(Repr)
      ensures Ring(old(spine) + [element])
      ensures forall n :: n in old(spine) ==> n.content == old(n.content)
    {
      element := new Node(content);
      if head == null {
        element.next := element;
        element.prev := element;
      } else {
        element.next := head;
        element.prev := head.prev;
        head.prev.next := element;
        head.prev := element;
        assert Chain(spine);
        ChainConcat(spine, [element]);
        DistinctConcat(spine, [element]);
      }
    }

    method PushBack(content: string)
      requires Valid()
      modifies Repr
      ensures Valid() && fresh(Repr - old(Repr))
      ensures items == old(items) + [content]
    {
      var element := Link(content);
      if head == null {
        head := element;
      }
      length := length + 1;
      spine, items := spine + [element], items + [content];
      Repr := Repr + {element};
    }

    method PushFront(content: string)
      requires Valid()
      modifies Repr
      ensures Valid() && fresh(Repr - old(Repr))
      ensures items == [content] + old(items)
    {
      hide Ring, Chain;
      var element := Link(content);
      RotateRing(spine, element);
      head := element;
      length := length + 1;
      spine, items := [element] + spine, [content] + items;
      Repr := Repr + {element};
    }

    /** Bypasses the k-th node of a ring of at least two. */
    method Unlink(trg: Node, ghost k: nat)
      requires k < |spine| && spine[k] == trg && |spine| >= 2
      requires Ring(spine) && head == spine[0]
      modifies set n | n in spine
      ensures Ring(Without(old(spine), k))
      ensures head.next == (if k == 1 then spine[if |spine| == 2 then 0 else 2] else spine[1])
      ensures forall n :: n in old(spine) ==> n.content == old(n.content)
    {
      RingStep(spine, k);
      RingStep(spine, 0);
      trg.next.prev := trg.prev;
      trg.prev.next := trg.next;
      RingBypass(spine, k);
    }

    /** The ghost side of a removal. */
    ghost method Forget(k: nat)
      requires this in Repr && forall i :: 0 <= i < |spine| ==> spine[i] in Repr
      requires k < |spine| == |items| && length == |spine| - 1 && Ring(Without(spine, k))
      requires if length == 0 then head == null else head == spine[if k == 0 then 1 else 0]
      requires forall i {:trigger items[i]} {:trigger spine[i].content} :: 0 <= i < |spine| ==> spine[i].content == items[i]
      modifies this`spine, this`items
      ensures Valid() && items == Without(old(items), k)
    {
      hide Ring;
      spine, items := Without(spine, k), Without(items, k);
    }

    /** The removal that the pops and del share. */
    method Drop(trg: Node, ghost k: nat)
      requires Valid() && k < |spine| && spine[k] == trg
      modifies Repr
      ensures Valid() && Repr == old(Repr)
      ensures items == Without(old(items), k)
    {
      RingStep(spine, k);
      if trg.next == trg {
        head := null;
      } else {
        Unlink(trg, k);
        if trg == head {
          head := head.next;
        }
      }
      length := length - 1;
      Forget(k);
    }

    method PopFront() returns (res: string)
      requires Valid()
      modifies Repr
      ensures Valid() && fresh(Repr - old(Repr))
      ensures old(items) == [] ==> res == "" && items == []
      ensures old(items) != [] ==> [res] + items == old(items)
    {
      if head == null {
        return "";
      }
      res := head.content;
      Drop(head, 0);
    }

    method PopBack() returns (res: string)
      requires Valid()
      modifies Repr
      ensures Valid() && fresh(Repr - old(Repr))
      ensures old(items) == [] ==> res == "" && items == []
      ensures old(items) != [] ==> items + [res] == old(items)
    {
      if head == null {
        return "";
      }
      RingStep(spine, 0);
      res := head.prev.content;
      Drop(head.prev, |spine| - 1);
    }

    /** The first position of the content, or -1. */
    method Find(content: string) returns (index: int)
      requires Valid()
      ensures -1 <= index < |items|
      ensures index == -1 <==> content !in items
      ensures index >= 0 ==> items[index] == content && content !in items[..index]
    {
      if head == null {
        return -1;
      }
      var res := head;
      index := 0;
      while true
        invariant 0 <= index < |items| && res == spine[index]
        invariant forall k :: 0 <= k < index ==> items[k] != content
        decreases |items| - index
      {
        if res.content == content {
          return;
        }
        RingStep(spine, index);
        res := res.next;
        index := index + 1;
        if res == head {
          break;
        }
      }
      index := -1;
    }

    method At(index: int) returns (res: Node?)
      requires Valid()
      ensures res == null <==> items == []
      ensures items != [] ==> res == spine[Position(index, |items|)]
    {
      if head == null {
        return null;
      }
      res := head;
      var i := 0;
      if index >= 0 {
        while i < index % length
          invariant 0 <= i <= index % length && res == spine[i]
        {
          RingStep(spine, i);
          res := res.next;
          i := i + 1;
        }
      } else {
        while i < TruncRem(Wrap32(-index), length)
          invariant 0 <= i && (i == 0 || i <= TruncRem(Wrap32(-index), length) < length)
          invariant res == spine[if i == 0 then 0 else length - i]
        {
          RingStep(spine, if i == 0 then 0 else length - i);
          res := res.prev;
          i := i + 1;
        }
      }
    }

    method Get(index: int) returns (content: string)
      requires Valid() && items != []
      ensures content == items[Position(index, |items|)]
    {
      var node := At(index);
      content := node.content;
    }

    method Set(index: int, content: string)
      requires Valid() && items != []
      modifies Repr
      ensures Valid() && Repr == old(Repr)
      ensures items == old(items)[Position(index, |old(items)|) := content]
    {
      var node := At(index);
      node.content := content;
      items := items[Position(index, |items|) := content];
    }

    method Del(index: int) returns (ok: bool)
      requires Valid()
      modifies Repr
      ensures Valid() && fresh(Repr - old(Repr))
      ensures ok <==> old(items) != []
      ensures items == if ok then Without(old(items), Position(index, |old(items)|)) else []
    {
      var trg := At(index);
      if trg == null {
        return false;
      }
      Drop(trg, Position(index, |items|));
      return true;
    }

    method Print() returns (str: string)
      requires Valid()
      ensures str == Join(items, ',')
    {
      if head == null {
        return "";
      }
      str := "" + head.content;
      RingStep(spine, 0);
      var it := head.next;
      ghost var i := 1;
      assert items[..1] == [items[0]];
      while it != head
        invariant 1 <= i <= |items|
        invariant it == spine[if i == |spine| then 0 else i]
        invariant str == Join(items[..i], ',')
        decreases |items| - i
      {
        JoinSnoc(items[..i], items[i], ',');
        assert items[..i + 1] == items[..i] + [items[i]];
        str := str + "," + it.content;
        RingStep(spine, i);
        it := it.next;
        i := i + 1;
      }
      assert items[..i] == items;
    }
  }
}
