/** COMMAND of src/command.h and src/command.cpp over the heap table: every command
    refines the step function of module Machine. */
module Commands {
  import opened Entries
  import opened FieldMap
  import opened FieldPairs
  import opened HashSet
  import opened Hashing
  import opened LinkedList
  import opened Machine
  import opened MachineInts
  import opened Sequences
  import opened SetBuckets
  import opened Snapshot
  import opened Sorting
  import opened Store
  import opened Table
  import opened Text
  import opened Values

  // ------------------------------------------------ loops over the arguments

  method PushFrontAll(l: List, args: seq<string>)
    requires l.Valid()
    modifies l.Repr
    ensures l.Valid() && fresh(l.Repr - old(l.Repr))
    ensures l.items == Reverse(args) + old(l.items)
  {
    assert args[..0] == [] && Reverse(args[..0]) + l.items == l.items;
    for i := 0 to |args|
      invariant l.Valid() && fresh(l.Repr - old(l.Repr))
      invariant l.items == Reverse(args[..i]) + old(l.items)
    {
      ReverseSnoc(args, i);
      Assoc([args[i]], Reverse(args[..i]), old(l.items));
      l.PushFront(args[i]);
    }
    assert args[..|args|] == args;
  }

  method PushBackAll(l: List, args: seq<string>)
    requires l.Valid()
    modifies l.Repr
    ensures l.Valid() && fresh(l.Repr - old(l.Repr))
    ensures l.items == old(l.items) + args
  {
    for i := 0 to |args|
      invariant l.Valid() && fresh(l.Repr - old(l.Repr))
      invariant l.items == old(l.items) + args[..i]
    {
      StepAppends(l.items, old(l.items), args, i, l.items + [args[i]]);
      l.PushBack(args[i]);
    }
    assert args[..|args|] == args;
  }

  method InsertAll(s: Hashset, args: seq<string>)
    requires s.Valid()
    modifies s.Repr
    ensures s.Valid() && fresh(s.Repr - old(s.Repr))
    ensures s.buckets == PushAll(old(s.buckets), args)
  {
    assert args[0..] == args;
    for i := 0 to |args|
      invariant s.Valid() && fresh(s.Repr - old(s.Repr))
      invariant PushAll(s.buckets, args[i..]) == PushAll(old(s.buckets), args)
    {
      assert args[i..][0] == args[i] && args[i..][1..] == args[i + 1..];
      s.Push(args[i]);
    }
  }

  /** The loop that joins the arguments of lmake, smake and hmake. */
  method JoinArgs(args: seq<string>) returns (str: string)
    requires args != []
    ensures str == Join(args, ',')
  {
    hide Join;
    JoinEnds(args, ',');
    str := args[0];
    for i := 1 to |args|
      invariant str == Join(args[..i], ',')
    {
      JoinNext(args, i, ',');
      str := str + ("," + args[i]);
    }
  }

  lemma VisibleNone(st: Chains, ks: seq<string>, a: byte)
    requires |st| == TABLE_S
    ensures Visible(st, ks[..0], a) == [] && Join(Visible(st, ks[..0], a), ',') == ""
  {
  }

  lemma VisibleStep(st: Chains, ks: seq<string>, i: nat, a: byte)
    requires |st| == TABLE_S && i < |ks|
    ensures var seen := Visible(st, ks[..i], a);
            var next := Visible(st, ks[..i + 1], a);
            if Lookup(st, ks[i]).Some? && a >= Lookup(st, ks[i]).value.authr
            then next == seen + [ks[i]] && Join(next, ',') == if seen == [] then ks[i] else Join(seen, ',') + [','] + ks[i]
            else next == seen
  {
    hide Lookup, SlotOf;
    VisibleSnoc(st, ks[..i], ks[i], a);
    assert ks[..i + 1] == ks[..i] + [ks[i]];
    var seen := Visible(st, ks[..i], a);
    if seen == [] {
      assert seen + [ks[i]] == [ks[i]];
    } else {
      JoinSnoc(seen, ks[i], ',');
    }
  }

  lemma VisibleCons(st: Chains, k: string, rest: seq<string>, a: byte)
    requires |st| == TABLE_S
    ensures Visible(st, [], a) == []
    ensures Visible(st, [k] + rest, a) == Visible(st, [k], a) + Visible(st, rest, a)
  {
    hide Lookup, SlotOf;
    assert ([k] + rest)[1..] == rest && [k][1..] == [];
  }

  lemma {:induction false} VisibleSnoc(st: Chains, ks: seq<string>, k: string, a: byte)
    requires |st| == TABLE_S
    ensures Visible(st, ks + [k], a) == Visible(st, ks, a) + Visible(st, [k], a)
    decreases |ks|
  {
    hide Visible;
    if ks == [] {
      VisibleCons(st, k, [], a);
      assert ks + [k] == [k];
    } else {
      var rest := ks[1..];
      assert ks == [ks[0]] + rest && ks + [k] == [ks[0]] + (rest + [k]);
      VisibleCons(st, ks[0], rest, a);
      VisibleCons(st, ks[0], rest + [k], a);
      VisibleSnoc(st, rest, k, a);
      Assoc(Visible(st, [ks[0]], a), Visible(st, rest, a), Visible(st, [k], a));
    }
  }

  // --------------------------------------------------------------- dispatch

  /** The tokens a parsed command was made of. */
  ghost predicate Shaped(args: seq<string>, c: Cmd) {
    var n := |args|;
    match c
    case Get(k) => n == 2 && k == args[1]
    case Make(k, v, auths) => 3 <= n <= 5 && k == args[1] && v == args[2] && auths == args[3..]
    case Del(k) => n == 2 && k == args[1]
    case LMake(k, parts) => n >= 3 && k == args[1] && parts == args[2..]
    case LPush(k, xs) => n >= 3 && k == args[1] && xs == args[2..]
    case RPush(k, xs) => n >= 3 && k == args[1] && xs == args[2..]
    case LPop(k) => n == 2 && k == args[1]
    case RPop(k) => n == 2 && k == args[1]
    case LGet(k, index) => n == 3 && k == args[1] && index == args[2]
    case LSet(k, index, x) => n == 4 && k == args[1] && index == args[2] && x == args[3]
    case LErase(k, index) => n == 3 && k == args[1] && index == args[2]
    case SMake(k, parts) => n >= 3 && k == args[1] && parts == args[2..]
    case SPush(k, xs) => n >= 3 && k == args[1] && xs == args[2..]
    case SPop(k) => n == 2 && k == args[1]
    case SErase(k, x) => n == 3 && k == args[1] && x == args[2]
    case Sort(k) => n == 2 && k == args[1]
    case HMake(k, parts) => n >= 4 && k == args[1] && parts == args[2..]
    case HPush(k, f, x) => n == 4 && k == args[1] && f == args[2] && x == args[3]
    case HGet(k, f) => n == 3 && k == args[1] && f == args[2]
    case HFields(k) => n == 2 && k == args[1]
    case HVals(k) => n == 2 && k == args[1]
    case HErase(k, f) => n == 3 && k == args[1] && f == args[2]
    case Keys => n == 1
    case AuthR(k, level) => n == 3 && k == args[1] && level == args[2]
    case AuthW(k, level) => n == 3 && k == args[1] && level == args[2]
    case Expire(k, time) => n == 3 && k == args[1] && time == args[2]
    case Ttl(k) => n == 2 && k == args[1]
    case Save => n == 1
    case Read(password) => n == 2 && password == args[1]
    case Unknown => true
  }

  /** The commands about one key that are not about its value. */
  predicate OnEntry(c: Cmd) {
    HasKey(c) && !OnValue(c)
  }

  lemma ReaderShape(args: seq<string>)
    requires OnValue(Parse(args)) && !Modifies(Parse(args))
    ensures Shaped(args, Parse(args))
  {
  }

  lemma ListShape(args: seq<string>)
    requires var c := Parse(args); OnValue(c) && Modifies(c) && KindFits(c, ListKind)
    ensures Shaped(args, Parse(args))
  {
  }

  lemma SetOrMapShape(args: seq<string>)
    requires var c := Parse(args); OnValue(c) && Modifies(c) && !KindFits(c, ListKind)
    ensures Shaped(args, Parse(args))
  {
  }

  lemma EntryShape(args: seq<string>)
    requires OnEntry(Parse(args))
    ensures Shaped(args, Parse(args))
  {
  }

  lemma ParseShape(args: seq<string>)
    ensures Shaped(args, Parse(args))
  {
    hide Parse;
    var c := Parse(args);
    if OnEntry(c) {
      EntryShape(args);
    } else if HasKey(c) {
      if !Modifies(c) {
        ReaderShape(args);
      } else if KindFits(c, ListKind) {
        ListShape(args);
      } else {
        SetOrMapShape(args);
      }
    } else {
      OtherShape(args);
    }
  }

  lemma OtherShape(args: seq<string>)
    requires !HasKey(Parse(args))
    ensures Shaped(args, Parse(args))
  {
  }

  // ---------------------------------------------------------------- look-up

  /** What every command leaves in order. */
  twostate predicate Kept(h: Hash)
    reads h, h.Repr
  {
    h.Valid() && fresh(h.Repr - old(h.Repr)) && h.start_num == old(h.start_num) && h.end_num == old(h.end_num)
  }

  /** A node of the table with its place and entry. */
  ghost predicate Holds(h: Hash, node: HashNode, k: string, e: Entry)
    reads h, h.Repr
    requires h.Valid()
  {
    && Lookup(h.recs, k) == Some(e)
    && node in h.nodes && node == h.chains[SlotOf(k)][KeyAt(h.recs[SlotOf(k)], k)]
    && node.kv.k == k && Root(node.kv.v) <= h.Repr && ReprOf(node.kv.v) <= h.Repr
    && {h, node, node.kv} <= h.core && ReprOf(node.kv.v) !! h.core
    && ValidValue(node.kv.v) && node.kv.EntryOf() == e
  }

  /** The start of most commands: finds the key and drops its entry if that has expired. */
  method FindLive(h: Hash, k: string, now: int) returns (node: HashNode?)
    requires h.Valid()
    modifies h.Repr
    ensures Kept(h)
    ensures h.recs == Live(old(h.recs), k, now).1
    ensures match Live(old(h.recs), k, now).0 {
              case None => node == null
              case Some(e) => node != null && h.recs == old(h.recs) && Holds(h, node, k, e)
            }
  {
    hide Hash.Valid, SlotOf;
    var index;
    node, index := h.FindNode(k);
    if node != null {
      h.Owned(node);
    }
    if node != null && node.kv.Expired(now) {
      h.Del(k);
      node := null;
    }
  }

  class Command {
    var com: string
    var args: seq<string>
    var num_args: int
    const auth: byte

    constructor (com: string, auth: byte)
      ensures this.com == com && this.auth == auth
    {
      this.com, this.auth := com, auth;
      args, num_args := [], 0;
    }

    /** The command line has been split into at least n tokens. */
    ghost predicate Ready(h: Hash, n: nat)
      reads this, h, h.Repr
    {
      h.Valid() && this !in h.Repr && num_args == |args| >= n && forall i :: 0 <= i < |args| ==> args[i] != ""
    }

    method Get(h: Hash, now: int) returns (reply: string)
      requires Ready(h, 2)
      modifies h.Repr
      ensures Kept(h)
      ensures (reply, h.recs) == StepOnValue(old(h.recs), Cmd.Get(args[1]), auth, now)
    {
      hide Hash.Valid, SlotOf, Lookup, IsExpired, List.Valid, Hashset.Valid, Hashmap.Valid, Decode;
      var k := args[1];
      var node := FindLive(h, k, now);
      if node == null {
        return NoSuchKey(k);
      }
      if auth < node.kv.authr {
        return DENIED;
      }
      reply := DataDecode(node.kv.v);
    }

    method LPush(h: Hash, now: int) returns (reply: string)
      requires Ready(h, 3)
      modifies h.Repr
      ensures Kept(h)
      ensures (reply, h.recs) == StepOnValue(old(h.recs), Cmd.LPush(args[1], args[2..]), auth, now)
    {
      hide Hash.Valid, Hash.AllBut, Replaced, Dropped, KeyAt, Live, SlotOf, Lookup, IsExpired;
      hide List.Valid, Hashset.Valid, Hashmap.Valid, Reverse;
      var k := args[1];
      var node := FindLive(h, k, now);
      if node == null {
        return NoSuchKey(k);
      }
      var v := node.kv.v;
      if !v.VList? {
        return INVALID_TYPE;
      }
      if auth < node.kv.authw {
        return DENIED;
      }
      label live:
      PushFrontAll(v.list, args[2..]);
      h.OthersUnchanged@live(node);
      h.Refresh(node, k);
      return OK;
    }

    method RPush(h: Hash, now: int) returns (reply: string)
      requires Ready(h, 3)
      modifies h.Repr
      ensures Kept(h)
      ensures (reply, h.recs) == StepOnValue(old(h.recs), Cmd.RPush(args[1], args[2..]), auth, now)
    {
      hide Hash.Valid, Hash.AllBut, Replaced, Dropped, KeyAt, Live, SlotOf, Lookup, IsExpired;
      hide List.Valid, Hashset.Valid, Hashmap.Valid;
      var k := args[1];
      var node := FindLive(h, k, now);
      if node == null {
        return NoSuchKey(k);
      }
      var v := node.kv.v;
      if !v.VList? {
        return INVALID_TYPE;
      }
      if auth < node.kv.authw {
        return DENIED;
      }
      label live:
      PushBackAll(v.list, args[2..]);
      h.OthersUnchanged@live(node);
      h.Refresh(node, k);
      return OK;
    }

    method LPop(h: Hash, now: int) returns (reply: string)
      requires Ready(h, 2)
      modifies h.Repr
      ensures Kept(h)
      ensures (reply, h.recs) == StepOnValue(old(h.recs), Cmd.LPop(args[1]), auth, now)
    {
      hide Hash.Valid, Hash.AllBut, Replaced, Dropped, KeyAt, Live, SlotOf, Lookup, IsExpired;
      hide List.Valid, Hashset.Valid, Hashmap.Valid;
      var k := args[1];
      var node := FindLive(h, k, now);
      if node == null {
        return NoSuchKey(k);
      }
      var v := node.kv.v;
      if !v.VList? {
        return INVALID_TYPE;
      }
      if auth < node.kv.authw {
        return DENIED;
      }
      if v.list.IsEmpty() {
        ReplacedBySame(h.recs, k);
        return EMPTY_LIST;
      }
      label live:
      reply := v.list.PopFront();
      h.OthersUnchanged@live(node);
      h.Refresh(node, k);
    }

    method RPop(h: Hash, now: int) returns (reply: string)
      requires Ready(h, 2)
      modifies h.Repr
      ensures Kept(h)
      ensures (reply, h.recs) == StepOnValue(old(h.recs), Cmd.RPop(args[1]), auth, now)
    {
      hide Hash.Valid, Hash.AllBut, Replaced, Dropped, KeyAt, SlotOf, Lookup, IsExpired;
      hide List.Valid, Hashset.Valid, Hashmap.Valid;
      hide Decode, Reverse, Position, Without, PushAll, Popped, Flat, Erased, SortedText, Join, Put;
      hide ValueOf, FieldsOf, ValuesOf, FieldAt, Cut, IntOf, NoSuchElement, NoSuchField;
      var k := args[1];
      var node := FindLive(h, k, now);
      if node == null {
        return NoSuchKey(k);
      }
      var v := node.kv.v;
      if !v.VList? {
        return INVALID_TYPE;
      }
      if auth < node.kv.authw {
        return DENIED;
      }
      if v.list.IsEmpty() {
        ReplacedBySame(h.recs, k);
        return EMPTY_LIST;
      }
      label live:
      reply := v.list.PopBack();
      h.OthersUnchanged@live(node);
      h.Refresh(node, k);
    }

    method LGet(h: Hash, now: int) returns (reply: string)
      requires Ready(h, 3)
      modifies h.Repr
      ensures Kept(h)
      ensures (reply, h.recs) == StepOnValue(old(h.recs), Cmd.LGet(args[1], args[2]), auth, now)
    {
      hide Hash.Valid, SlotOf, Lookup, IsExpired, List.Valid, Hashset.Valid, Hashmap.Valid, IntOf, Position;
      var k := args[1];
      var node := FindLive(h, k, now);
      if node == null {
        return NoSuchKey(k);
      }
      var v := node.kv.v;
      if !v.VList? {
        return INVALID_TYPE;
      }
      if auth < node.kv.authr {
        return DENIED;
      }
      if v.list.IsEmpty() {
        return EMPTY_LIST;
      }
      var ok, index := StrToInt(args[2]);
      if !ok {
        return INVALID_INDEX;
      }
      reply := v.list.Get(index);
    }

    method LSet(h: Hash, now: int) returns (reply: string)
      requires Ready(h, 4)
      modifies h.Repr
      ensures Kept(h)
      ensures (reply, h.recs) == StepOnValue(old(h.recs), Cmd.LSet(args[1], args[2], args[3]), auth, now)
    {
      hide Hash.Valid, Hash.AllBut, Replaced, Dropped, KeyAt, SlotOf, Lookup, IsExpired;
      hide List.Valid, Hashset.Valid, Hashmap.Valid;
      hide Decode, Reverse, Position, Without, PushAll, Popped, Flat, Erased, SortedText, Join, Put;
      hide ValueOf, FieldsOf, ValuesOf, FieldAt, Cut, IntOf, NoSuchElement, NoSuchField;
      var k := args[1];
      var node := FindLive(h, k, now);
      if node == null {
        return NoSuchKey(k);
      }
      var v := node.kv.v;
      if !v.VList? {
        return INVALID_TYPE;
      }
      if auth < node.kv.authw {
        return DENIED;
      }
      if v.list.IsEmpty() {
        ReplacedBySame(h.recs, k);
        return EMPTY_LIST;
      }
      var ok, index := StrToInt(args[2]);
      if !ok {
        ReplacedBySame(h.recs, k);
        return INVALID_INDEX;
      }
      label live:
      v.list.Set(index, args[3]);
      h.OthersUnchanged@live(node);
      h.Refresh(node, k);
      return OK;
    }

    method LErase(h: Hash, now: int) returns (reply: string)
      requires Ready(h, 3)
      modifies h.Repr
      ensures Kept(h)
      ensures (reply, h.recs) == StepOnValue(old(h.recs), Cmd.LErase(args[1], args[2]), auth, now)
    {
      hide Hash.Valid, Hash.AllBut, Replaced, Dropped, KeyAt, SlotOf, Lookup, IsExpired;
      hide List.Valid, Hashset.Valid, Hashmap.Valid;
      hide Decode, Reverse, Position, Without, PushAll, Popped, Flat, Erased, SortedText, Join, Put;
      hide ValueOf, FieldsOf, ValuesOf, FieldAt, Cut, IntOf, NoSuchElement, NoSuchField;
      var k := args[1];
      var node := FindLive(h, k, now);
      if node == null {
        return NoSuchKey(k);
      }
      var v := node.kv.v;
      if !v.VList? {
        return INVALID_TYPE;
      }
      if auth < node.kv.authw {
        return DENIED;
      }
      if v.list.IsEmpty() {
        ReplacedBySame(h.recs, k);
        return EMPTY_LIST;
      }
      var ok, index := StrToInt(args[2]);
      if !ok {
        ReplacedBySame(h.recs, k);
        return INVALID_INDEX;
      }
      EraseElement(h, node, k, index);
      return OK;
    }

    /** The end of lerase: the element goes and the entry is recorded. */
    method EraseElement(h: Hash, node: HashNode, k: string, index: int)
      requires h.Valid() && Holds(h, node, k, node.kv.EntryOf()) && node.kv.v.VList? && node.kv.v.list.items != []
      modifies h.Repr
      ensures Kept(h)
      ensures var items := old(node.kv.v.list.items);
              h.recs == Replaced(old(h.recs), k,
                                 old(node.kv.EntryOf()).(data := Lst(Without(items, Position(index, |items|)))))
    {
      hide Hash.Valid, Hash.AllBut, Replaced, KeyAt, SlotOf, Lookup, List.Valid, Without, Position;
      var deleted := node.kv.v.list.Del(index);
      assert deleted;
      h.OthersUnchanged(node);
      h.Refresh(node, k);
    }

    method SPush(h: Hash, now: int) returns (reply: string)
      requires Ready(h, 3)
      modifies h.Repr
      ensures Kept(h)
      ensures (reply, h.recs) == StepOnValue(old(h.recs), Cmd.SPush(args[1], args[2..]), auth, now)
    {
      hide Hash.Valid, Hash.AllBut, Replaced, Dropped, KeyAt, Live, SlotOf, Lookup, IsExpired;
      hide List.Valid, Hashset.Valid, Hashmap.Valid, PushAll;
      var k := args[1];
      var node := FindLive(h, k, now);
      if node == null {
        return NoSuchKey(k);
      }
      var v := node.kv.v;
      if !v.VSet? {
        return INVALID_TYPE;
      }
      if auth < node.kv.authw {
        return DENIED;
      }
      label live:
      InsertAll(v.table, args[2..]);
      h.OthersUnchanged@live(node);
      h.Refresh(node, k);
      return OK;
    }

    method SPop(h: Hash, now: int) returns (reply: string)
      requires Ready(h, 2)
      modifies h.Repr
      ensures Kept(h)
      ensures (reply, h.recs) == StepOnValue(old(h.recs), Cmd.SPop(args[1]), auth, now)
    {
      hide Hash.Valid, Hash.AllBut, Replaced, Dropped, KeyAt, Live, SlotOf, Lookup, IsExpired;
      hide List.Valid, Hashset.Valid, Hashmap.Valid;
      hide Decode, Reverse, Position, Without, PushAll, Popped, Flat, Erased, SortedText, Join, Put;
      hide ValueOf, FieldsOf, ValuesOf, FieldAt, Cut, IntOf, NoSuchElement, NoSuchField;
      var k := args[1];
      var node := FindLive(h, k, now);
      if node == null {
        return NoSuchKey(k);
      }
      var v := node.kv.v;
      if !v.VSet? {
        return INVALID_TYPE;
      }
      if auth < node.kv.authw {
        return DENIED;
      }
      var empty := v.table.IsEmpty();
      if empty {
        ReplacedBySame(h.recs, k);
        return EMPTY_LIST;
      }
      label live:
      reply := v.table.Pop();
      h.OthersUnchanged@live(node);
      h.Refresh(node, k);
    }

    method SErase(h: Hash, now: int) returns (reply: string)
      requires Ready(h, 3)
      modifies h.Repr
      ensures Kept(h)
      ensures (reply, h.recs) == StepOnValue(old(h.recs), Cmd.SErase(args[1], args[2]), auth, now)
    {
      hide Hash.Valid, Hash.AllBut, Replaced, Dropped, KeyAt, Live, SlotOf, Lookup, IsExpired;
      hide List.Valid, Hashset.Valid, Hashmap.Valid;
      hide Decode, Reverse, Position, Without, PushAll, Popped, Flat, Erased, SortedText, Join, Put;
      hide ValueOf, FieldsOf, ValuesOf, FieldAt, Cut, IntOf, NoSuchElement, NoSuchField;
      var k := args[1];
      var node := FindLive(h, k, now);
      if node == null {
        return NoSuchKey(k);
      }
      var v := node.kv.v;
      if !v.VSet? {
        return INVALID_TYPE;
      }
      if auth < node.kv.authw {
        return DENIED;
      }
      var empty := v.table.IsEmpty();
      if empty {
        ReplacedBySame(h.recs, k);
        return EMPTY_LIST;
      }
      label live:
      var success := v.table.Del(args[2]);
      h.OthersUnchanged@live(node);
      h.Refresh(node, k);
      if !success {
        return NoSuchElement(args[2]);
      }
      return OK;
    }

    /** std::sort is a library call; Sorted stands for it. */
    method Sort(h: Hash, now: int) returns (reply: string)
      requires Ready(h, 2)
      modifies h.Repr
      ensures Kept(h)
      ensures (reply, h.recs) == StepOnValue(old(h.recs), Cmd.Sort(args[1]), auth, now)
    {
      hide Hash.Valid, SlotOf, Lookup, IsExpired;
      hide List.Valid, Hashset.Valid, Hashmap.Valid, Sorted, SplitOf, Join;
      var k := args[1];
      var node := FindLive(h, k, now);
      if node == null {
        return NoSuchKey(k);
      }
      var v := node.kv.v;
      if !v.VList? && !v.VSet? {
        return INVALID_TYPE;
      }
      if auth < node.kv.authr {
        return DENIED;
      }
      var str;
      if v.VList? {
        str := v.list.Print();
      } else {
        str := v.table.Print();
      }
      var splited := Split(str, ',');
      reply := Merge(',', Sorted(splited[..]));
    }

    method HPush(h: Hash, now: int) returns (reply: string)
      requires Ready(h, 4)
      modifies h.Repr
      ensures Kept(h)
      ensures (reply, h.recs) == StepOnValue(old(h.recs), Cmd.HPush(args[1], args[2], args[3]), auth, now)
    {
      hide Hash.Valid, Hash.AllBut, Replaced, Dropped, KeyAt, SlotOf, Lookup, IsExpired;
      hide List.Valid, Hashset.Valid, Hashmap.Valid;
      hide Decode, Reverse, Position, Without, PushAll, Popped, Flat, Erased, SortedText, Join, Put;
      hide ValueOf, FieldsOf, ValuesOf, FieldAt, Cut, IntOf, NoSuchElement, NoSuchField;
      var k := args[1];
      var node := FindLive(h, k, now);
      if node == null {
        return NoSuchKey(k);
      }
      var v := node.kv.v;
      if !v.VMap? {
        return INVALID_TYPE;
      }
      if auth < node.kv.authw {
        return DENIED;
      }
      label live:
      v.map_.SetFv(args[2], args[3]);
      h.OthersUnchanged@live(node);
      h.Refresh(node, k);
      return OK;
    }

    method HGet(h: Hash, now: int) returns (reply: string)
      requires Ready(h, 3)
      modifies h.Repr
      ensures Kept(h)
      ensures (reply, h.recs) == StepOnValue(old(h.recs), Cmd.HGet(args[1], args[2]), auth, now)
    {
      hide Hash.Valid, SlotOf, Lookup, IsExpired, List.Valid, Hashset.Valid, Hashmap.Valid, ValueOf;
      var k := args[1];
      var node := FindLive(h, k, now);
      if node == null {
        return NoSuchKey(k);
      }
      var v := node.kv.v;
      if !v.VMap? {
        return INVALID_TYPE;
      }
      if auth < node.kv.authr {
        return DENIED;
      }
      if v.map_.IsEmpty() {
        return EMPTY_MAP;
      }
      var result := v.map_.GetV(args[2]);
      if result == "NULL" {
        return NoSuchField(args[2]);
      }
      return result;
    }

    method HFields(h: Hash, now: int) returns (reply: string)
      requires Ready(h, 2)
      modifies h.Repr
      ensures Kept(h)
      ensures (reply, h.recs) == StepOnValue(old(h.recs), Cmd.HFields(args[1]), auth, now)
    {
      hide Hash.Valid, SlotOf, Lookup, IsExpired, List.Valid, Hashset.Valid, Hashmap.Valid, Join, FieldsOf;
      var k := args[1];
      var node := FindLive(h, k, now);
      if node == null {
        return NoSuchKey(k);
      }
      var v := node.kv.v;
      if !v.VMap? {
        return INVALID_TYPE;
      }
      if auth < node.kv.authr {
        return DENIED;
      }
      if v.map_.IsEmpty() {
        return EMPTY_MAP;
      }
      reply := v.map_.Fields();
    }

    method HVals(h: Hash, now: int) returns (reply: string)
      requires Ready(h, 2)
      modifies h.Repr
      ensures Kept(h)
      ensures (reply, h.recs) == StepOnValue(old(h.recs), Cmd.HVals(args[1]), auth, now)
    {
      hide Hash.Valid, SlotOf, Lookup, IsExpired, List.Valid, Hashset.Valid, Hashmap.Valid, Join, ValuesOf;
      var k := args[1];
      var node := FindLive(h, k, now);
      if node == null {
        return NoSuchKey(k);
      }
      var v := node.kv.v;
      if !v.VMap? {
        return INVALID_TYPE;
      }
      if auth < node.kv.authr {
        return DENIED;
      }
      if v.map_.IsEmpty() {
        return EMPTY_MAP;
      }
      reply := v.map_.Values();
    }

    method HErase(h: Hash, now: int) returns (reply: string)
      requires Ready(h, 3)
      modifies h.Repr
      ensures Kept(h)
      ensures (reply, h.recs) == StepOnValue(old(h.recs), Cmd.HErase(args[1], args[2]), auth, now)
    {
      hide Hash.Valid, Hash.AllBut, Replaced, Dropped, KeyAt, Live, SlotOf, Lookup, IsExpired;
      hide List.Valid, Hashset.Valid, Hashmap.Valid;
      hide Decode, Reverse, Position, Without, PushAll, Popped, Flat, Erased, SortedText, Join, Put;
      hide ValueOf, FieldsOf, ValuesOf, FieldAt, Cut, IntOf, NoSuchElement, NoSuchField;
      var k := args[1];
      var node := FindLive(h, k, now);
      if node == null {
        return NoSuchKey(k);
      }
      var v := node.kv.v;
      if !v.VMap? {
        return INVALID_TYPE;
      }
      if auth < node.kv.authw {
        return DENIED;
      }
      if v.map_.IsEmpty() {
        ReplacedBySame(h.recs, k);
        return EMPTY_MAP;
      }
      reply := EraseField(h, node, k, args[2]);
      ReplacedBySame(old(h.recs), k);
    }

    /** The end of herase: the field is removed if it is there. */
    method EraseField(h: Hash, node: HashNode, k: string, f: string) returns (reply: string)
      requires h.Valid() && Holds(h, node, k, node.kv.EntryOf()) && node.kv.v.VMap?
      modifies h.Repr
      ensures Kept(h)
      ensures var ps := old(node.kv.v.map_.pairs);
              (reply, h.recs) ==
              if FieldAt(ps, f) == |ps| then (NoSuchField(f), old(h.recs))
              else (OK, Replaced(old(h.recs), k, old(node.kv.EntryOf()).(data := Mp(Cut(ps, f)))))
    {
      hide Hash.Valid, Hash.AllBut, Replaced, KeyAt, SlotOf, Lookup, Hashmap.Valid, Cut, FieldAt, NoSuchField;
      var v := node.kv.v;
      var field, index := v.map_.FindNode(f, 0);
      if field == null {
        return NoSuchField(f);
      }
      v.map_.DelFv(f);
      h.OthersUnchanged(node);
      h.Refresh(node, k);
      return OK;
    }

    method Make(h: Hash) returns (reply: string)
      requires Ready(h, 3) && num_args <= 5
      modifies h.Repr
      ensures Kept(h)
      ensures (reply, h.recs) == StepMake(old(h.recs), Cmd.Make(args[1], args[2], args[3..]), auth)
    {
      hide Hash.Valid, Lookup, KeyAt, SlotOf, List.Valid, Hashset.Valid, Hashmap.Valid;
      hide IntOf, Assigned;
      var k := args[1];
      var v := DataEncode(args[2], StringKind);
      var node, index := h.FindNode(k);
      if node != null && auth < node.kv.authw {
        return DENIED;
      }
      if num_args == 3 {
        h.Set(k, v, 0, auth);
        return OK;
      } else if num_args == 4 {
        var ok, x := StrToInt(args[3]);
        if !ok || x < 0 {
          return INVALID_AUTH;
        }
        if auth < x {
          return DENIED;
        }
        h.Set(k, v, x, auth);
        return OK;
      }
      var ok1, x := StrToInt(args[3]);
      var ok2, w := StrToInt(args[4]);
      if !ok1 || x < 0 {
        return INVALID_AUTH;
      }
      if !ok2 || w < 0 {
        return INVALID_AUTH;
      }
      if auth < x {
        return DENIED;
      }
      if auth < w {
        return DENIED;
      }
      if x > w {
        return INVALID_AUTH;
      }
      h.Set(k, v, x, w);
      return OK;
    }

    method Del(h: Hash) returns (reply: string)
      requires Ready(h, 2)
      modifies h.Repr
      ensures Kept(h)
      ensures (reply, h.recs) == StepDel(old(h.recs), args[1], auth)
    {
      hide Hash.Valid, Lookup, KeyAt, SlotOf, List.Valid, Hashset.Valid, Hashmap.Valid;
      var k := args[1];
      var node, index := h.FindNode(k);
      if node == null {
        return NoSuchKey(k);
      }
      if auth < node.kv.authw {
        return DENIED;
      }
      h.Del(k);
      return OK;
    }

    /** One round of the loop of keys. */
    method AppendKey(h: Hash, key: string, shown: string, first: bool, ghost ks: seq<string>, ghost i: nat)
      returns (res: string, flag: bool)
      requires h.Valid() && i < |ks| && key == ks[i] && Lookup(h.recs, key).Some?
      requires shown == Join(Visible(h.recs, ks[..i], auth), ',')
      requires first <==> Visible(h.recs, ks[..i], auth) == []
      ensures res == Join(Visible(h.recs, ks[..i + 1], auth), ',')
      ensures flag <==> Visible(h.recs, ks[..i + 1], auth) == []
    {
      hide Hash.Valid, SlotOf, Visible, Join;
      VisibleStep(h.recs, ks, i, auth);
      res, flag := shown, first;
      var node, tr := h.FindNode(key);
      if auth >= node.kv.authr {
        if flag {
          res := node.kv.k;
          flag := false;
        } else {
          res := res + ("," + node.kv.k);
        }
      }
    }

    /** The keys the caller may read, expired ones included. */
    method Keys(h: Hash) returns (res: string)
      requires Ready(h, 1)
      ensures res == Join(Visible(h.recs, KeysOf(h.recs), auth), ',')
    {
      hide Hash.Valid, SlotOf, KeysOf, Visible, Join;
      ghost var ks := KeysOf(h.recs);
      res := "";
      VisibleNone(h.recs, ks, auth);
      var keys := h.Keys();
      var size := h.GetSize();
      var flag := true;
      for i := 0 to size
        invariant keys[..] == ks && h.Valid()
        invariant res == Join(Visible(h.recs, ks[..i], auth), ',')
        invariant flag <==> Visible(h.recs, ks[..i], auth) == []
      {
        ListedKeyIsThere(h.recs, i);
        res, flag := AppendKey(h, keys[i], res, flag, ks, i);
      }
      assert ks[..size] == ks;
    }

    method LMake(h: Hash) returns (reply: string)
      requires Ready(h, 3)
      modifies h.Repr
      ensures Kept(h)
      ensures (reply, h.recs) == StepBuild(old(h.recs), Cmd.LMake(args[1], args[2..]), auth)
    {
      hide Hash.Valid, Lookup, KeyAt, SlotOf, List.Valid, Hashset.Valid, Hashmap.Valid, Assigned;
      hide PushAll, PutAll, SplitOf, Join, Decimal, Flat;
      var k := args[1];
      var node, index := h.FindNode(k);
      if node != null && auth < node.kv.authw {
        return DENIED;
      }
      var str := JoinArgs(args[2..]);
      var v := DataEncode(str, ListKind);
      label made:
      h.Set(k, v, 0, auth);
      reply := Decimal(num_args - 2);
    }

    method SMake(h: Hash) returns (reply: string)
      requires Ready(h, 3)
      modifies h.Repr
      ensures Kept(h)
      ensures (reply, h.recs) == StepBuild(old(h.recs), Cmd.SMake(args[1], args[2..]), auth)
    {
      hide Hash.Valid, Lookup, KeyAt, SlotOf, List.Valid, Hashset.Valid, Hashmap.Valid, Assigned;
      hide PushAll, PutAll, SplitOf, Join, Decimal, Flat;
      var k := args[1];
      var node, index := h.FindNode(k);
      if node != null && auth < node.kv.authw {
        return DENIED;
      }
      var str := JoinArgs(args[2..]);
      var v := DataEncode(str, SetKind);
      label made:
      h.Set(k, v, 0, auth);
      ValueStays@made(v);
      var n := v.table.GetLength();
      reply := Decimal(n);
    }

    method HMake(h: Hash) returns (reply: string)
      requires Ready(h, 4)
      modifies h.Repr
      ensures Kept(h)
      ensures (reply, h.recs) == StepBuild(old(h.recs), Cmd.HMake(args[1], args[2..]), auth)
    {
      hide Hash.Valid, Lookup, KeyAt, SlotOf, List.Valid, Hashset.Valid, Hashmap.Valid, Assigned;
      hide PushAll, PutAll, SplitOf, Join, Decimal, Flat;
      if num_args % 2 != 0 {
        return INVALID_COMMAND;
      }
      var k := args[1];
      var node, index := h.FindNode(k);
      if node != null && auth < node.kv.authw {
        return DENIED;
      }
      var str := JoinArgs(args[2..]);
      var v := DataEncode(str, MapKind);
      label made:
      h.Set(k, v, 0, auth);
      reply := OK;
    }

    method AuthR(h: Hash) returns (reply: string)
      requires Ready(h, 3)
      modifies h.Repr
      ensures Kept(h)
      ensures (reply, h.recs) == StepAuth(old(h.recs), args[1], args[2], auth, true)
    {
      hide Hash.Valid, Hash.AllBut, Replaced, Dropped, KeyAt, SlotOf, List.Valid, Hashset.Valid, Hashmap.Valid;
      var k := args[1];
      var node, index := h.FindNode(k);
      if node == null {
        return NoSuchKey(k);
      }
      h.Owned(node);
      var ok, x := StrToInt(args[2]);
      if !ok || x < 0 {
        return INVALID_AUTH;
      }
      if auth < x {
        return DENIED;
      }
      if auth < node.kv.authw {
        return DENIED;
      }
      node.kv.SetAuthr(x);
      h.OthersUnchanged(node);
      h.Refresh(node, k);
      return OK;
    }

    method AuthW(h: Hash) returns (reply: string)
      requires Ready(h, 3)
      modifies h.Repr
      ensures Kept(h)
      ensures (reply, h.recs) == StepAuth(old(h.recs), args[1], args[2], auth, false)
    {
      hide Hash.Valid, Hash.AllBut, Replaced, Dropped, KeyAt, SlotOf, List.Valid, Hashset.Valid, Hashmap.Valid;
      var k := args[1];
      var node, index := h.FindNode(k);
      if node == null {
        return NoSuchKey(k);
      }
      h.Owned(node);
      var ok, x := StrToInt(args[2]);
      if !ok || x < 0 {
        return INVALID_AUTH;
      }
      if auth < x {
        return DENIED;
      }
      if auth < node.kv.authw {
        return DENIED;
      }
      node.kv.SetAuthw(x);
      h.OthersUnchanged(node);
      h.Refresh(node, k);
      return OK;
    }

    method Expire(h: Hash, now: int) returns (reply: string)
      requires Ready(h, 3)
      modifies h.Repr
      ensures Kept(h)
      ensures (reply, h.recs) == StepExpire(old(h.recs), args[1], args[2], auth, now)
    {
      hide Hash.Valid, Hash.AllBut, Replaced, Dropped, KeyAt, SlotOf, List.Valid, Hashset.Valid, Hashmap.Valid;
      var k := args[1];
      var ok, time_ex := StrToInt(args[2]);
      if !ok {
        return INVALID_TIME;
      }
      var node := FindLive(h, k, now);
      if node == null {
        return NoSuchKey(k);
      }
      if auth < node.kv.authw {
        return DENIED;
      }
      label live:
      node.kv.SetTtl(time_ex, now);
      h.OthersUnchanged@live(node);
      h.Refresh(node, k);
      return OK;
    }

    method GetTtl(h: Hash, now: int) returns (reply: string)
      requires Ready(h, 2)
      modifies h.Repr
      ensures Kept(h)
      ensures (reply, h.recs) == StepTtl(old(h.recs), args[1], auth, now)
    {
      hide Hash.Valid, Hash.AllBut, Replaced, Dropped, KeyAt, SlotOf, List.Valid, Hashset.Valid, Hashmap.Valid;
      var k := args[1];
      var node := FindLive(h, k, now);
      if node == null {
        return NoSuchKey(k);
      }
      if auth < node.kv.authr {
        return DENIED;
      }
      label live:
      var left := node.kv.TtlLeft(now);
      h.OthersUnchanged@live(node);
      h.Refresh(node, k);
      reply := Decimal(left);
    }

    method Save(h: Hash, writable: bool) returns (reply: string, file: Option<seq<string>>)
      requires h.Valid()
      ensures writable ==> reply == OK && file == Some(SaveLines(h.recs))
      ensures !writable ==> reply == NO_FILE && file == None
    {
      var ok, lines := h.Save(writable);
      if ok {
        return OK, Some(lines);
      }
      return NO_FILE, None;
    }

    method Read(h: Hash, file: Option<seq<string>>) returns (reply: string)
      requires Ready(h, 2)
      modifies h.Repr
      ensures Kept(h)
      ensures (reply, h.recs) == StepRead(old(h.recs), args[1], file)
    {
      hide Hash.Valid, Lookup, KeyAt, SlotOf, List.Valid, Hashset.Valid, Hashmap.Valid;
      var outcome := h.Read(file, args[1]);
      match outcome
      case Finished(ok) => reply := if ok then OK else READ_FAILED;
      case ReadThrew => reply := ABORTED;
      case ReadDangling => reply := ABORTED;
    }

    /** The commands that act on the value of one entry. */
    method DispatchOnValue(h: Hash, now: int) returns (reply: string)
      requires Ready(h, 1) && OnValue(Parse(args))
      modifies h.Repr
      ensures Kept(h)
      ensures (reply, h.recs) == StepOnValue(old(h.recs), Parse(args), auth, now)
    {
      hide Hash.Valid, StepOnValue, Parse;
      ParseShape(args);
      match Parse(args)
      case Get(_) => reply := Get(h, now);
      case LPush(_, _) => reply := LPush(h, now);
      case RPush(_, _) => reply := RPush(h, now);
      case LPop(_) => reply := LPop(h, now);
      case RPop(_) => reply := RPop(h, now);
      case LGet(_, _) => reply := LGet(h, now);
      case LSet(_, _, _) => reply := LSet(h, now);
      case LErase(_, _) => reply := LErase(h, now);
      case SPush(_, _) => reply := SPush(h, now);
      case SPop(_) => reply := SPop(h, now);
      case SErase(_, _) => reply := SErase(h, now);
      case Sort(_) => reply := Sort(h, now);
      case HPush(_, _, _) => reply := HPush(h, now);
      case HGet(_, _) => reply := HGet(h, now);
      case HFields(_) => reply := HFields(h, now);
      case HVals(_) => reply := HVals(h, now);
      case HErase(_, _) => reply := HErase(h, now);
    }

    /** The other commands about one key. */
    method DispatchOnEntry(h: Hash, now: int) returns (reply: string)
      requires Ready(h, 1) && OnEntry(Parse(args))
      modifies h.Repr
      ensures Kept(h)
      ensures forall env: Env :: env.now == now ==> (reply, h.recs) == Step(old(h.recs), Parse(args), auth, env)
    {
      hide Hash.Valid, StepMake, StepDel, StepBuild, StepAuth, StepExpire, StepTtl, Parse;
      ParseShape(args);
      match Parse(args)
      case Make(_, _, _) => reply := Make(h);
      case Del(_) => reply := Del(h);
      case LMake(_, _) => reply := LMake(h);
      case SMake(_, _) => reply := SMake(h);
      case HMake(_, _) => reply := HMake(h);
      case AuthR(_, _) => reply := AuthR(h);
      case AuthW(_, _) => reply := AuthW(h);
      case Expire(_, _) => reply := Expire(h, now);
      case Ttl(_) => reply := GetTtl(h, now);
    }

    /** The dispatch table; save also yields the file it writes. */
    method Dispatch(h: Hash, env: Env) returns (reply: string, written: Option<seq<string>>)
      requires Ready(h, 1)
      modifies h.Repr
      ensures Kept(h)
      ensures (reply, h.recs) == Step(old(h.recs), Parse(args), auth, env)
      ensures written == if Parse(args).Save? && env.writable then Some(SaveLines(old(h.recs))) else None
    {
      hide Hash.Valid, StepOnValue, StepMake, StepDel, StepBuild, StepAuth;
      hide StepExpire, StepTtl, StepRead, Parse, Visible, SaveLines;
      ParseShape(args);
      written := None;
      if OnEntry(Parse(args)) {
        reply := DispatchOnEntry(h, env.now);
      } else if OnValue(Parse(args)) {
        reply := DispatchOnValue(h, env.now);
      } else {
        match Parse(args)
        case Keys => reply := Keys(h);
        case Save => reply, written := Save(h, env.writable);
        case Read(_) => reply := Read(h, env.file);
        case Unknown => reply := INVALID_COMMAND;
      }
    }

    /** Cuts the command line into tokens. */
    method Tokenize()
      modifies this
      ensures args == Tokens(old(com)) && num_args == |args| && com == TrimOf(old(com))
      ensures forall i :: 0 <= i < |args| ==> args[i] != ""
    {
      TokensAreWords(com);
      WordsAreWords(com);
      com := Trim(com);
      var words := Split(com, ' ');
      args, num_args := words[..], words.Length;
    }

    /** command_type: Read, Write or Invalid. */
    method TypeOf() returns (t: ComType)
      modifies this
      ensures t == CommandType(Tokens(old(com)))
    {
      Tokenize();
      t := CommandType(args);
    }

    /** execute: set-up commands are answered first, then keys of other nodes turned away. */
    method Execute(h: Hash, env: Env) returns (reply: string, written: Option<seq<string>>)
      requires h.Valid() && this !in h.Repr
      modifies this, h.Repr
      ensures Kept(h)
      ensures (reply, h.recs) ==
              Machine.Execute(old(h.recs), old(com), auth, env, Range(old(h.start_num), old(h.end_num)))
      ensures written ==
              if Screen(Tokens(old(com)), Range(old(h.start_num), old(h.end_num))).None?
                 && Parse(Tokens(old(com))).Save? && env.writable
              then Some(SaveLines(old(h.recs))) else None
    {
      hide Hash.Valid, Step, Parse, Tokens, SaveLines;
      Tokenize();
      if num_args == 0 {
        return INVALID_COMMAND, None;
      }
      if IsSetup(args[0]) {
        return MAGIC + args[0], None;
      }
      if num_args > 1 {
        var hash_val := TableHash(args[1]);
        if hash_val < h.start_num || hash_val > h.end_num {
          return "hashval " + Decimal(hash_val), None;
        }
      }
      reply, written := Dispatch(h, env);
    }
  }
}
