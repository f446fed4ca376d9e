/** The main table of src/hash.cpp with its nodes (src/hashnode.cpp) and entries
    (src/kvstore.h): an array of doubly linked chains and an array of counters, refining
    the chains of records of module Store. */
module Table {
  import opened Cipher
  import opened Entries
  import opened Hashing
  import opened Sequences
  import opened Snapshot
  import opened Store
  import opened StringCipher
  import opened Text
  import opened Values

  /** class kv. */
  class KeyValue {
    const k: string
    var v: Value
    var ttl: int
    var timer: int
    var finished: bool
    var authr: int
    var authw: int

    constructor (k: string, v: Value, authr: int, authw: int)
      ensures this.k == k && this.v == v
      ensures EntryOf() == NewEntry(DataOf(v), authr, authw)
    {
      this.k, this.v := k, v;
      ttl, timer, finished := -1, 0, false;
      this.authr, this.authw := authr, authw;
    }

    ghost function EntryOf(): Entry
      reads this, Root(v)
    {
      Entry(DataOf(v), authr, authw, ttl, timer, finished)
    }

    predicate Expired(now: int)
      reads this, Root(v)
      ensures Expired(now) == IsExpired(EntryOf(), now)
    {
      if finished then true else if ttl == -1 then false else !(now - timer < ttl)
    }

    method TtlLeft(now: int) returns (left: int)
      modifies this`finished
      ensures (left, EntryOf()) == GetTtl(old(EntryOf()), now)
    {
      if ttl == -1 {
        return -1;
      }
      if Expired(now) {
        finished := true;
        return 0;
      }
      left := ttl - (now - timer);
    }

    method SetV(v: Value)
      modifies this`v
      ensures this.v == v && EntryOf() == old(EntryOf()).(data := DataOf(v))
    {
      this.v := v;
    }

    method SetTtl(time_ex: int, now: int)
      modifies this`ttl, this`timer
      ensures EntryOf() == WithTtl(old(EntryOf()), time_ex, now)
    {
      ttl, timer := time_ex, now;
    }

    method SetAuthr(r: int)
      modifies this`authr, this`authw
      ensures EntryOf() == WithAuthr(old(EntryOf()), r)
    {
      authr := r;
      if authr > authw {
        authw := authr;
      }
    }

    method SetAuthw(w: int)
      modifies this`authr, this`authw
      ensures EntryOf() == WithAuthw(old(EntryOf()), w)
    {
      authw := w;
      if authr > authw {
        authr := authw;
      }
    }
  }

  class HashNode {
    const kv: KeyValue
    var next: HashNode?
    var prev: HashNode?

    constructor (kv: KeyValue)
      ensures this.kv == kv && next == null && prev == null
    {
      this.kv := kv;
      next, prev := null, null;
    }

    /** get_kv_str: the snapshot record of this node. */
    method GetKvStr() returns (str: string)
      requires ValidValue(kv.v)
      ensures str == RecordText(Rec(kv.k, kv.EntryOf()))
    {
      var dtype := match kv.v case VString(_) => "0" case VList(_) => "1" case VSet(_) => "2" case VMap(_) => "3";
      var v := DataDecode(kv.v);
      str := Field(dtype, Field(Decimal(kv.authw), Field(Decimal(kv.authr), Field(kv.k, v))));
    }
  }

  // ---------------------------------------------------------------- chains

  /** A null-terminated doubly linked chain through exactly these distinct nodes. */
  ghost predicate Linked(head: HashNode?, s: seq<HashNode>)
    reads s
  {
    && (if s == [] then head == null else head == s[0] && s[0].prev == null && s[|s| - 1].next == null)
    && (forall i, j :: 0 <= i && j == i + 1 && j < |s| ==> s[i].next == s[j] && s[j].prev == s[i])
    && NoRepeats(s)
  }

  lemma LinkStep(head: HashNode?, s: seq<HashNode>, i: nat)
    requires Linked(head, s) && i < |s|
    ensures s[i].next == if i + 1 == |s| then null else s[i + 1]
    ensures s[i].prev == if i == 0 then null else s[i - 1]
  {
  }

  lemma LinkPush(head: HashNode?, s: seq<HashNode>, e: HashNode)
    requires e.prev == null && e !in s && NoRepeats(s)
    requires if s == [] then head == null && e.next == null
             else e.next == head == s[0] && s[0].prev == e && s[|s| - 1].next == null
    requires forall i, j :: 0 <= i && j == i + 1 && j < |s| ==> s[i].next == s[j] && s[j].prev == s[i]
    ensures Linked(e, [e] + s)
  {
    hide NoRepeats;
    var t := [e] + s;
    FreshFirst(e, s);
    forall i, j | 0 <= i && j == i + 1 && j < |t|
      ensures t[i].next == t[j] && t[j].prev == t[i]
    {
      if i > 0 {
        assert t[i] == s[i - 1] && t[j] == s[i];
      }
    }
  }

  lemma LinkBypass(head: HashNode?, s: seq<HashNode>, k: nat)
    requires k < |s| && NoRepeats(s)
    requires forall i, j :: 0 <= i && j == i + 1 && j < |s| && i != k && j != k ==> s[i].next == s[j] && s[j].prev == s[i]
    requires k + 1 < |s| ==> s[k + 1].prev == if k == 0 then null else s[k - 1]
    requires k > 0 ==> s[k - 1].next == (if k + 1 == |s| then null else s[k + 1]) && head == s[0] && s[0].prev == null
    requires k == 0 ==> head == if |s| == 1 then null else s[1]
    requires k + 1 < |s| ==> s[|s| - 1].next == null
    ensures Linked(head, Without(s, k))
  {
    var t := Without(s, k);
    forall i, j | 0 <= i && j == i + 1 && j < |t|
      ensures t[i].next == t[j] && t[j].prev == t[i]
    {
      assert t[i] == s[if i < k then i else i + 1] && t[j] == s[if j < k then j else j + 1];
    }
  }

  // -------------------------------------------------------- walks of a chain

  lemma StepAppends<T>(done: seq<T>, was: seq<T>, ks: seq<T>, j: nat, next: seq<T>)
    requires j < |ks| && done == was + ks[..j] && next == done + [ks[j]]
    ensures next == was + ks[..j + 1]
  {
  }

  /** Copies the keys of one chain into the result. */
  method ListChain(head: HashNode?, ghost c: seq<HashNode>, ghost ks: seq<string>, result: array<string>, start: nat)
    returns (index: nat)
    requires Linked(head, c) && |ks| == |c| && forall j :: 0 <= j < |c| ==> c[j].kv.k == ks[j]
    requires start + |ks| <= result.Length
    modifies result
    ensures index == start + |ks| && result[..index] == old(result[..start]) + ks
  {
    var node := head;
    index := start;
    ghost var j := 0;
    while node != null
      invariant 0 <= j <= |c| && index == start + j
      invariant node == if j == |c| then null else c[j]
      invariant result[..index] == old(result[..start]) + ks[..j]
      decreases |c| - j
    {
      LinkStep(head, c, j);
      ghost var done := result[..index];
      result[index] := node.kv.k;
      index := index + 1;
      assert result[..index] == done + [ks[j]];
      StepAppends(done, old(result[..start]), ks, j, result[..index]);
      node := node.next;
      j := j + 1;
    }
  }

  /** The line save writes for a node. */
  ghost predicate Prints(n: HashNode, line: string)
    reads n.kv, Root(n.kv.v), ReprOf(n.kv.v)
  {
    ValidValue(n.kv.v) && RecordLine(Rec(n.kv.k, n.kv.EntryOf())) == line
  }

  method SaveNode(node: HashNode, ghost text: string) returns (line: string)
    requires Prints(node, text)
    ensures line == text
  {
    var str := node.GetKvStr();
    line := EncryptString(SNAPSHOT_N, SNAPSHOT_E, str);
  }

  /** Appends the lines of one chain to the file. */
  method SaveChain(head: HashNode?, ghost c: seq<HashNode>, ghost ls: seq<string>, file: seq<string>)
    returns (lines: seq<string>)
    requires Linked(head, c) && |ls| == |c|
    requires forall j {:trigger ls[j]} :: 0 <= j < |c| ==> Prints(c[j], ls[j])
    ensures lines == file + ls
  {
    hide RecordLine, ValidValue;
    lines := file;
    var node := head;
    ghost var j := 0;
    while node != null
      invariant 0 <= j <= |c|
      invariant node == if j == |c| then null else c[j]
      invariant lines == file + ls[..j]
      decreases |c| - j
    {
      var line := SaveNode(node, ls[j]);
      LinkStep(head, c, j);
      StepAppends(lines, file, ls, j, lines + [line]);
      lines := lines + [line];
      node := node.next;
      j := j + 1;
    }
  }

  /** The loop that joins the arguments from one position on again. */
  method Glue(args: array<string>, first: nat)
    requires first < args.Length
    modifies args
    ensures args[first] == Join(old(args[first..]), ',')
  {
    hide Join;
    ghost var parts := args[first..];
    JoinEnds(parts, ',');
    for i := first + 1 to args.Length
      invariant args[first] == Join(parts[..i - first], ',')
      invariant args[i..] == parts[i - first..]
    {
      JoinNext(parts, i - first, ',');
      args[first] := args[first] + ("," + args[i]);
    }
  }

  /** The fields of a snapshot record. */
  datatype Fields = Fields(key: string, text: string, kind: Kind, authr: int, authw: int)

  /** Takes a decrypted record apart, or says why it is refused; the authorities are
      narrowed to a byte. */
  method ParseFields(message: string) returns (refusal: Option<ReadOutcome>, f: Fields)
    ensures match ParseMessage(message) {
              case Damaged => refusal == Some(Finished(false))
              case LineThrew => refusal == Some(ReadThrew)
              case Dangling => refusal == Some(ReadDangling)
              case Good(key, data, r, w) =>
                refusal == None && f.key == key && f.authr == r && f.authw == w && Encode(f.text, f.kind) == data
            }
  {
    f := Fields("", "", StringKind, 0, 0);
    var args := Split(message, ',');
    if args.Length < 5 {
      return Some(Finished(false)), f;
    }
    if args[0] == "" || args[1] == "" || args[2] == "" {
      return Some(ReadThrew), f;
    }
    ghost var parts := args[..];
    var ok0, dtype := StrToInt(args[0]);
    var ok1, authw := StrToInt(args[1]);
    var ok2, authr := StrToInt(args[2]);
    if !ok0 || !ok1 || !ok2 {
      return Some(Finished(false)), f;
    }
    var key := args[3];
    match KindOfCode(dtype)
    case None =>
      return Some(ReadDangling), f;
    case Some(kind) =>
      assert args[4..] == parts[4..];
      if kind != StringKind {
        Glue(args, 4);
      }
      return None, Fields(key, args[4], kind, authr % 256, authw % 256);
  }

  // ----------------------------------------------------------------- table

  /** A node at position k of the chain of a slot. */
  datatype Spot = Spot(node: HashNode, slot: nat, k: nat)

  class Hash {
    const h: array<HashNode?>
    const size: array<int>
    var start_num: int
    var end_num: int

    /** The nodes of each chain, their set, the records they stand for, the objects that
        are not containers, and all objects. */
    ghost var chains: seq<seq<HashNode>>
    ghost var nodes: set<HashNode>
    ghost var recs: Chains
    ghost var core: set<object>
    ghost var Repr: set<object>

    /** The arrays, the chains and the keys. */
    ghost predicate Shape()
      reads this, h, size, nodes
    {
      && h.Length == size.Length == |chains| == |recs| == TABLE_S
      && {this, h, size} <= core
      && (forall n :: n in nodes ==> n in core && n.kv in core)
      && (forall i, j :: 0 <= i < TABLE_S && 0 <= j < |chains[i]| ==> chains[i][j] in nodes)
      && (forall i :: 0 <= i < TABLE_S ==>
            size[i] == |chains[i]| == |recs[i]| && Linked(h[i], chains[i]))
      && (forall i, j :: 0 <= i < TABLE_S && 0 <= j < |chains[i]| ==> chains[i][j].kv.k == recs[i][j].key)
      && WellFormed(recs)
    }

    /** Every container is valid, apart from the others and from the core. */
    ghost predicate Containers()
      reads this, Repr
    {
      && core <= Repr && this in core
      && (forall n :: n in nodes ==> n in core && n.kv in core)
      && (forall n :: n in nodes ==> Root(n.kv.v) <= Repr)
      && (forall n :: n in nodes ==> ReprOf(n.kv.v) <= Repr)
      && (forall n :: n in nodes ==> ValidValue(n.kv.v) && ReprOf(n.kv.v) !! core)
      && (forall n, m :: n in nodes && m in nodes && n != m ==> n.kv != m.kv && ReprOf(n.kv.v) !! ReprOf(m.kv.v))
    }

    /** Every node holds the entry recorded for its place. */
    ghost predicate Contents()
      reads this, Repr
    {
      && Containers()
      && |chains| == |recs| == TABLE_S
      && (forall i, j :: 0 <= i < TABLE_S && 0 <= j < |chains[i]| ==>
            chains[i][j] in nodes && j < |recs[i]| && chains[i][j].kv.EntryOf() == recs[i][j].entry)
    }

    ghost predicate Valid()
      reads this, Repr
      ensures Valid() ==> {this, h, size} <= Repr && |recs| == TABLE_S && WellFormed(recs)
      ensures Valid() ==> forall n :: n in nodes ==> n in Repr && n.kv in Repr
      ensures Valid() ==>
                && |chains| == TABLE_S
                && forall i, j :: 0 <= i < TABLE_S && 0 <= j < |chains[i]| ==> chains[i][j] in nodes
    {
      Containers() && {h, size} <= core && Shape() && Contents()
    }

    constructor ()
      ensures Valid() && fresh(Repr) && recs == NoChains()
      ensures start_num == 0 && end_num == TABLE_S - 1
    {
      hide Valid;
      h := new HashNode?[TABLE_S](_ => null);
      size := new int[TABLE_S](_ => 0);
      start_num, end_num := 0, TABLE_S - 1;
      chains, recs, nodes := seq(TABLE_S, i => []), NoChains(), {};
      new;
      core := {this, h, size};
      Repr := core;
      EmptyValid();
    }

    lemma EmptyValid()
      requires h.Length == size.Length == |chains| == TABLE_S && recs == NoChains()
      requires forall i :: 0 <= i < TABLE_S ==> h[i] == null && size[i] == 0 && chains[i] == []
      requires nodes == {} && core == Repr == {this, h, size}
      ensures Valid()
    {
      hide WellFormed;
      EmptyIsWellFormed();
    }

    twostate predicate OnlyBoundary()
      reads *
    {
      unchanged(old(Repr) - {this}) && unchanged(this`chains, this`recs, this`nodes, this`core, this`Repr)
    }

    twostate lemma ShapeFree()
      requires old(Valid()) && OnlyBoundary()
      ensures Shape()
    {
    }

    twostate lemma ContainersFree()
      requires old(Valid()) && OnlyBoundary()
      ensures Containers()
    {
    }

    twostate lemma BoundaryFree()
      requires old(Valid()) && OnlyBoundary()
      ensures Valid()
    {
      ShapeFree();
      ContainersFree();
    }

    method SetBoundary(start_n: int, end_n: int)
      requires Valid()
      modifies this`start_num, this`end_num
      ensures Valid() && start_num == start_n && end_num == end_n
    {
      start_num, end_num := start_n, end_n;
      BoundaryFree();
    }

    /** What stands in one slot. */
    lemma SlotHolds(i: nat)
      requires Valid() && i < TABLE_S
      ensures |chains| == TABLE_S == h.Length && |chains[i]| == |recs[i]| && Linked(h[i], chains[i])
      ensures h[i] == if chains[i] == [] then null else chains[i][0]
      ensures forall j :: 0 <= j < |chains[i]| ==> chains[i][j] in nodes && chains[i][j].kv.k == recs[i][j].key
      ensures forall j :: 0 <= j < |chains[i]| ==>
                ValidValue(chains[i][j].kv.v) && chains[i][j].kv.EntryOf() == recs[i][j].entry
    {
      hide WellFormed, ValidValue;
    }

    /** The node of a key and the slot it belongs to. */
    method FindNode(key: string) returns (node: HashNode?, index: nat)
      requires Valid()
      ensures index == SlotOf(key)
      ensures Lookup(recs, key).None? ==> node == null
      ensures Lookup(recs, key).Some? ==>
                && node == chains[index][KeyAt(recs[index], key)] && node in nodes
                && node.kv.k == key && node.kv.EntryOf() == Lookup(recs, key).value
                && ValidValue(node.kv.v)
    {
      hide Valid, SlotOf, ValidValue, Linked, KeyAt;
      index := TableHash(key);
      SlotHolds(index);
      node := h[index];
      ghost var j := 0;
      while node != null
        invariant 0 <= j <= |chains[index]|
        invariant node == if j == |chains[index]| then null else chains[index][j]
        invariant forall l :: 0 <= l < j ==> recs[index][l].key != key
        decreases |chains[index]| - j
      {
        if node.kv.k == key {
          assert KeyAt(recs[index], key) == j;
          return;
        }
        LinkStep(h[index], chains[index], j);
        node := node.next;
        j := j + 1;
      }
    }

    /** A node's container belongs to the table and is apart from everything else. */
    lemma Owned(x: HashNode)
      requires Valid() && x in nodes
      ensures Root(x.kv.v) <= Repr && ReprOf(x.kv.v) <= Repr && ValidValue(x.kv.v)
      ensures {this, x, x.kv} <= core && ReprOf(x.kv.v) !! core
    {
      hide Shape, Contents;
    }

    /** The records of a valid table are well-formed and hold proper containers. */
    lemma RecordsAreProper()
      requires Valid()
      ensures WellFormed(recs) && AllDataOk(recs)
    {
      hide Linked, WellFormed;
      forall i, j | 0 <= i < |recs| && 0 <= j < |recs[i]|
        ensures DataOk(recs[i][j].entry.data)
      {
        var n := chains[i][j];
        Owned(n);
        ValidDataOk(n.kv.v);
        assert recs[i][j].entry == n.kv.EntryOf();
      }
    }

    /** Valid but for the entry of x, whose container may have grown out of Repr. */
    ghost predicate AllBut(x: HashNode)
      reads *
    {
      && Shape() && core <= Repr && {h, size} <= core && x in nodes
      && (forall n :: n in nodes ==> ValidValue(n.kv.v) && ReprOf(n.kv.v) !! core)
      && (forall n :: n in nodes && n != x ==> ReprOf(n.kv.v) <= Repr)
      && (forall n, m :: n in nodes && m in nodes && n != m ==> n.kv != m.kv && ReprOf(n.kv.v) !! ReprOf(m.kv.v))
      && (forall i, j :: 0 <= i < TABLE_S && 0 <= j < |chains[i]| && chains[i][j] != x ==>
            chains[i][j].kv.EntryOf() == recs[i][j].entry)
    }

    /** Touching the entry of x and its container leaves all the rest as it was. */
    twostate lemma OthersUnchanged(x: HashNode)
      requires old(Valid()) && x in old(nodes)
      requires unchanged(old(Repr) - ({x.kv} + old(ReprOf(x.kv.v))))
      requires ValidValue(x.kv.v)
      requires (ReprOf(x.kv.v) - old(ReprOf(x.kv.v))) !! old(Repr)
      ensures AllBut(x)
    {
    }

    /** Only the ghost fields recs and Repr of the table have changed. */
    twostate predicate OnlyRecorded(x: HashNode)
      reads *
    {
      && old(AllBut(x))
      && unchanged(old(Repr) + old(ReprOf(x.kv.v)) - {this})
      && unchanged(this`chains, this`nodes, this`core)
      && Repr == old(Repr) + ReprOf(x.kv.v)
    }

    twostate lemma ContainersRecorded(x: HashNode)
      requires OnlyRecorded(x)
      ensures Containers()
    {
    }

    twostate lemma ShapeRecorded(p: Spot)
      requires OnlyRecorded(p.node) && WellFormed(recs) && ReplacesAt(old(recs), recs, p.slot, p.k, p.node.kv.EntryOf())
      ensures Shape()
    {
      hide WellFormed, Linked, Contents;
    }

    /** A node is at its spot and nowhere else. */
    ghost predicate OnlyAt(p: Spot)
      reads this
    {
      && |chains| == TABLE_S && p.slot < TABLE_S && p.k < |chains[p.slot]| && chains[p.slot][p.k] == p.node
      && (forall i, j :: 0 <= i < TABLE_S && 0 <= j < |chains[i]| && chains[i][j] == p.node ==> i == p.slot && j == p.k)
    }

    twostate lemma EntriesStay(x: HashNode)
      requires OnlyRecorded(x)
      ensures forall n :: n in nodes ==> n.kv.EntryOf() == old(n.kv.EntryOf())
    {
    }

    lemma ContentsFrom(p: Spot, before: Chains)
      requires Containers() && Shape() && OnlyAt(p)
      requires ReplacesAt(before, recs, p.slot, p.k, p.node.kv.EntryOf())
      requires forall i, j :: 0 <= i < TABLE_S && 0 <= j < |chains[i]| && chains[i][j] != p.node ==>
                 j < |before[i]| && chains[i][j].kv.EntryOf() == before[i][j].entry
      ensures Contents()
    {
    }

    twostate lemma ContentsRecorded(p: Spot)
      requires OnlyRecorded(p.node) && Containers() && Shape() && OnlyAt(p)
      requires ReplacesAt(old(recs), recs, p.slot, p.k, p.node.kv.EntryOf())
      ensures Contents()
    {
      hide Containers, Contents, ReplacesAt, Linked, WellFormed;
      EntriesStay(p.node);
      ContentsFrom(p, old(recs));
    }

    twostate lemma RecordedValid(p: Spot)
      requires OnlyRecorded(p.node) && OnlyAt(p)
      requires WellFormed(recs) && ReplacesAt(old(recs), recs, p.slot, p.k, p.node.kv.EntryOf())
      ensures Valid()
    {
      assert {h, size} <= core;
      hide AllBut, Contents, Containers, Shape, WellFormed, Linked, OnlyAt, ReplacesAt;
      ContainersRecorded(p.node);
      ShapeRecorded(p);
      ContentsRecorded(p);
    }

    /** A node is only at the place of its key. */
    lemma PlaceOf(x: HashNode, key: string)
      requires Shape() && x.kv.k == key && Lookup(recs, key).Some?
      requires x == chains[SlotOf(key)][KeyAt(recs[SlotOf(key)], key)]
      ensures OnlyAt(Spot(x, SlotOf(key), KeyAt(recs[SlotOf(key)], key)))
    {
      forall i, j | 0 <= i < TABLE_S && 0 <= j < |chains[i]| && chains[i][j] == x
        ensures i == SlotOf(key) && j == KeyAt(recs[i], key)
      {
        LookupHere(recs, i, j);
        assert ChainOk(recs[i], i);
      }
    }

    ghost method Record(p: Spot, r: Chains)
      requires AllBut(p.node) && OnlyAt(p)
      requires WellFormed(r) && ReplacesAt(recs, r, p.slot, p.k, p.node.kv.EntryOf())
      modifies this`recs, this`Repr
      ensures Valid() && recs == r && Repr == old(Repr) + old(ReprOf(p.node.kv.v))
    {
      hide Valid, AllBut, WellFormed, ReplacesAt;
      recs, Repr := r, Repr + ReprOf(p.node.kv.v);
      RecordedValid(p);
    }

    /** Records the new entry of x. */
    ghost method Refresh(x: HashNode, key: string)
      requires AllBut(x) && x.kv.k == key && Lookup(recs, key).Some?
      requires x == chains[SlotOf(key)][KeyAt(recs[SlotOf(key)], key)]
      modifies this`recs, this`Repr
      ensures Valid() && recs == Replaced(old(recs), key, old(x.kv.EntryOf()))
      ensures Repr == old(Repr) + old(ReprOf(x.kv.v))
    {
      var e := x.kv.EntryOf();
      PlaceOf(x, key);
      ReplacedRefines(recs, key, e, key);
      ReplacedAt(recs, key, e);
      Record(Spot(x, SlotOf(key), KeyAt(recs[SlotOf(key)], key)), Replaced(recs, key, e));
    }

    // -------------------------------------------------------- chain surgery

    /** Beyond the table's own fields only the two arrays and the nodes of one chain may
        have changed. */
    twostate predicate Rewired(slot: nat)
      reads *
    {
      && slot < TABLE_S && |old(chains)| == TABLE_S
      && unchanged(old(Repr) - ({this, h, size} + (set n | n in old(chains)[slot])))
    }

    twostate lemma ValuesStay(slot: nat)
      requires old(Valid()) && Rewired(slot)
      ensures forall n :: n in old(nodes) ==>
                n.kv.v == old(n.kv.v) && ValidValue(n.kv.v) && ReprOf(n.kv.v) == old(ReprOf(n.kv.v))
    {
    }

    twostate lemma EntriesKept(slot: nat)
      requires old(Valid()) && Rewired(slot)
      ensures forall n :: n in old(nodes) ==> n.kv.EntryOf() == old(n.kv.EntryOf())
    {
    }

    /** The chains of the other slots are not affected. */
    twostate lemma OtherChainsStay(slot: nat)
      requires old(Valid()) && Rewired(slot)
      requires forall i :: 0 <= i < TABLE_S && i != slot ==> h[i] == old(h[i])
      ensures forall i :: 0 <= i < TABLE_S && i != slot ==> Linked(h[i], old(chains)[i])
    {
    }

    // ------------------------------------------------------------- insertion

    /** A new node has been linked in front of the chain of its slot and recorded. */
    twostate predicate OnlyLinked(p: Spot)
      reads *
    {
      && Rewired(p.slot) && p.node !in old(Repr) && p.node.kv !in old(Repr)
      && ValidValue(p.node.kv.v) && ReprOf(p.node.kv.v) !! (old(Repr) + {p.node, p.node.kv})
      && nodes == old(nodes) + {p.node} && core == old(core) + {p.node, p.node.kv}
      && Repr == old(Repr) + {p.node, p.node.kv} + ReprOf(p.node.kv.v)
    }

    twostate lemma ContainersLinked(p: Spot)
      requires old(Valid()) && OnlyLinked(p)
      requires forall n :: n in old(nodes) ==>
                 n.kv.v == old(n.kv.v) && ValidValue(n.kv.v) && ReprOf(n.kv.v) == old(ReprOf(n.kv.v))
      ensures Containers()
    {
      hide Shape, Contents;
    }

    /** A new node at the front of its chain, with the record of its entry. */
    twostate predicate InFront(p: Spot)
      reads *
    {
      && p.slot < TABLE_S && |old(chains)| == |old(recs)| == TABLE_S
      && chains == old(chains)[p.slot := [p.node] + old(chains)[p.slot]]
      && recs == old(recs)[p.slot := [Rec(p.node.kv.k, p.node.kv.EntryOf())] + old(recs)[p.slot]]
    }

    twostate lemma ShapeLinked(p: Spot)
      requires old(Valid()) && OnlyLinked(p) && InFront(p) && WellFormed(recs)
      requires forall i :: 0 <= i < TABLE_S && i != p.slot ==> Linked(h[i], old(chains)[i])
      requires Linked(h[p.slot], chains[p.slot])
      requires forall i :: 0 <= i < TABLE_S ==>
                 size[i] == if i == p.slot then old(size[i]) + 1 else old(size[i])
      ensures Shape()
    {
      hide WellFormed, Linked, Contents;
    }

    twostate lemma ContentsLinked(p: Spot)
      requires old(Valid()) && OnlyLinked(p) && InFront(p) && Containers()
      requires forall n :: n in old(nodes) ==> n.kv.EntryOf() == old(n.kv.EntryOf())
      ensures Contents()
    {
      assert old(Contents());
      forall i, j | 0 <= i < TABLE_S && 0 <= j < |chains[i]|
        ensures chains[i][j] in nodes && j < |recs[i]| && chains[i][j].kv.EntryOf() == recs[i][j].entry
      {
        if i == p.slot {
          if j > 0 {
            assert chains[i][j] == old(chains)[i][j - 1] && recs[i][j] == old(recs)[i][j - 1];
          }
        } else {
          assert chains[i] == old(chains)[i] && recs[i] == old(recs)[i];
        }
      }
    }

    /** Links the node in front of the chain of its slot. */
    method Wire(new_node: HashNode, index: nat)
      requires h.Length == size.Length == |chains| && index < |chains| && Linked(h[index], chains[index])
      requires new_node !in chains[index] && new_node.prev == new_node.next == null
      modifies h, size, new_node, set n | n in chains[index]
      ensures Linked(h[index], [new_node] + chains[index])
      ensures size[index] == old(size[index]) + 1
      ensures forall i :: 0 <= i < h.Length && i != index ==> h[i] == old(h[i]) && size[i] == old(size[i])
    {
      ghost var head := h[index];
      if h[index] == null {
        h[index] := new_node;
      } else {
        new_node.next := h[index];
        h[index].prev := new_node;
        h[index] := new_node;
      }
      size[index] := size[index] + 1;
      LinkPush(head, chains[index], new_node);
    }

    /** The ghost side of linking a node. */
    ghost method Enter(x: HashNode, i: nat)
      requires i < TABLE_S && |chains| == |recs| == TABLE_S
      modifies this`chains, this`recs, this`nodes, this`core, this`Repr
      ensures InFront(Spot(x, i, 0))
      ensures nodes == old(nodes) + {x} && core == old(core) + {x, x.kv}
      ensures Repr == old(Repr) + {x, x.kv} + ReprOf(x.kv.v)
    {
      chains := chains[i := [x] + chains[i]];
      recs := recs[i := [Rec(x.kv.k, x.kv.EntryOf())] + recs[i]];
      nodes, core := nodes + {x}, core + {x, x.kv};
      Repr := Repr + {x, x.kv} + ReprOf(x.kv.v);
    }

    /** Links and records a new node. */
    method Link(new_node: HashNode, index: nat)
      requires Shape() && core <= Repr && index < TABLE_S
      requires new_node !in Repr && new_node.kv !in Repr && new_node.prev == new_node.next == null
      requires ValidValue(new_node.kv.v) && ReprOf(new_node.kv.v) !! (Repr + {new_node, new_node.kv})
      modifies this`chains, this`recs, this`nodes, this`core, this`Repr
      modifies h, size, new_node, set n | n in chains[index]
      ensures OnlyLinked(Spot(new_node, index, 0))
      ensures InFront(Spot(new_node, index, 0))
      ensures ReprOf(new_node.kv.v) == old(ReprOf(new_node.kv.v))
      ensures new_node.kv.EntryOf() == old(new_node.kv.EntryOf())
      ensures forall i :: 0 <= i < TABLE_S && i != index ==> h[i] == old(h[i]) && size[i] == old(size[i])
      ensures Linked(h[index], chains[index]) && size[index] == old(size[index]) + 1
    {
      hide WellFormed, Linked, ValidValue;
      assert forall n :: n in chains[index] ==> n in Repr;
      Wire(new_node, index);
      Enter(new_node, index);
      ValueStays(new_node.kv.v);
      assert chains[index] == [new_node] + old(chains[index]);
    }

    twostate lemma LinkedValid(p: Spot)
      requires old(Valid()) && OnlyLinked(p) && InFront(p) && WellFormed(recs)
      requires forall i :: 0 <= i < TABLE_S && i != p.slot ==> h[i] == old(h[i]) && size[i] == old(size[i])
      requires Linked(h[p.slot], chains[p.slot]) && size[p.slot] == old(size[p.slot]) + 1
      ensures Valid()
    {
      hide WellFormed, Linked, Contents, Containers, Shape;
      ValuesStay(p.slot);
      ContainersLinked(p);
      EntriesKept(p.slot);
      OtherChainsStay(p.slot);
      ShapeLinked(p);
      ContentsLinked(p);
    }

    /** Puts a new node in front of its chain. */
    method Insert(new_node: HashNode, index: nat)
      requires Valid() && index == SlotOf(new_node.kv.k) && Lookup(recs, new_node.kv.k).None?
      requires new_node !in Repr && new_node.kv !in Repr && new_node.prev == new_node.next == null
      requires ValidValue(new_node.kv.v) && ReprOf(new_node.kv.v) !! (Repr + {new_node, new_node.kv})
      modifies this`chains, this`recs, this`nodes, this`core, this`Repr
      modifies h, size, new_node, set n | n in chains[index]
      ensures Valid() && recs == Inserted(old(recs), new_node.kv.k, new_node.kv.EntryOf())
      ensures new_node.kv.EntryOf() == old(new_node.kv.EntryOf())
      ensures Repr == old(Repr) + {new_node, new_node.kv} + old(ReprOf(new_node.kv.v))
    {
      hide Shape, Contents, Linked, SlotOf, WellFormed;
      ghost var r := Inserted(recs, new_node.kv.k, new_node.kv.EntryOf());
      InsertedRefines(recs, new_node.kv.k, new_node.kv.EntryOf(), new_node.kv.k);
      assert r == recs[index := [Rec(new_node.kv.k, new_node.kv.EntryOf())] + recs[index]];
      Link(new_node, index);
      assert recs == r;
      LinkedValid(Spot(new_node, index, 0));
    }

    /** set on a key that is there. */
    method Overwrite(node: HashNode, key: string, value: Value, authr: int, authw: int)
      requires Valid() && ValidValue(value) && ReprOf(value) !! Repr
      requires node.kv.k == key && Lookup(recs, key).Some?
      requires node == chains[SlotOf(key)][KeyAt(recs[SlotOf(key)], key)]
      modifies this`recs, this`Repr, node.kv
      ensures Valid() && old(Repr) <= Repr && forall o :: o in Repr ==> o in old(Repr + ReprOf(value)) || fresh(o)
      ensures recs == Replaced(old(recs), key, Overwritten(old(node.kv.EntryOf()), old(DataOf(value)), authr, authw))
    {
      node.kv.SetV(value);
      node.kv.SetAuthr(authr);
      node.kv.SetAuthw(authw);
      ghost var e := node.kv.EntryOf();
      assert e == Overwritten(old(node.kv.EntryOf()), old(DataOf(value)), authr, authw);
      ValueStays(value);
      OthersUnchanged(node);
      Refresh(node, key);
    }

    /** set on a key that is not there. */
    method Create(key: string, index: nat, value: Value, authr: int, authw: int)
      requires Valid() && ValidValue(value) && ReprOf(value) !! Repr
      requires index == SlotOf(key) && Lookup(recs, key).None?
      modifies this`chains, this`recs, this`nodes, this`core, this`Repr
      modifies h, size, set n | n in chains[index]
      ensures Valid() && recs == Inserted(old(recs), key, NewEntry(old(DataOf(value)), authr, authw))
      ensures forall o :: o in Repr ==> o in old(Repr + ReprOf(value)) || fresh(o)
    {
      hide Valid;
      var kv := new KeyValue(key, value, authr, authw);
      var new_node := new HashNode(kv);
      ghost var e := new_node.kv.EntryOf();
      assert e == NewEntry(old(DataOf(value)), authr, authw);
      Insert(new_node, index);
    }

    /** set: overwrites the entry of a key, which keeps its deadline, or links a new one. */
    method Set(key: string, value: Value, authr: int, authw: int)
      requires Valid() && ValidValue(value) && ReprOf(value) !! Repr
      modifies this`chains, this`recs, this`nodes, this`core, this`Repr
      modifies h, size, nodes, set n | n in nodes :: n.kv
      ensures Valid() && recs == Assigned(old(recs), key, old(DataOf(value)), authr, authw)
      ensures forall o :: o in Repr ==> o in old(Repr + ReprOf(value)) || fresh(o)
    {
      hide Valid, SlotOf;
      var node, index := FindNode(key);
      if node == null {
        Create(key, index, value, authr, authw);
      } else {
        Overwrite(node, key, value, authr, authw);
      }
    }

    // -------------------------------------------------------------- deletion

    /** Takes a node out of the chain of its slot. */
    method Unwire(node: HashNode, index: nat, ghost k: nat)
      requires h.Length == size.Length == |chains| && index < |chains| && Linked(h[index], chains[index])
      requires k < |chains[index]| && node == chains[index][k]
      modifies h, size, set n | n in chains[index]
      ensures Linked(h[index], Without(chains[index], k))
      ensures size[index] == old(size[index]) - 1
      ensures forall i :: 0 <= i < h.Length && i != index ==> h[i] == old(h[i]) && size[i] == old(size[i])
    {
      LinkStep(h[index], chains[index], k);
      if node.next != null {
        node.next.prev := node.prev;
      }
      if node.prev == null {
        h[index] := node.next;
      } else {
        node.prev.next := node.next;
      }
      size[index] := size[index] - 1;
      LinkBypass(h[index], chains[index], k);
    }

    /** A node has been unlinked and its record dropped. */
    twostate predicate OnlyUnlinked(p: Spot)
      reads *
    {
      && Rewired(p.slot) && old(OnlyAt(p)) && |old(recs)| == TABLE_S && p.k < |old(recs)[p.slot]|
      && nodes == old(nodes) - {p.node} && core == old(core) && Repr == old(Repr)
      && chains == old(chains)[p.slot := Without(old(chains)[p.slot], p.k)]
      && recs == old(recs)[p.slot := Without(old(recs)[p.slot], p.k)]
    }

    twostate lemma ContainersUnlinked(p: Spot)
      requires old(Valid()) && OnlyUnlinked(p)
      requires forall n :: n in old(nodes) ==>
                 n.kv.v == old(n.kv.v) && ValidValue(n.kv.v) && ReprOf(n.kv.v) == old(ReprOf(n.kv.v))
      ensures Containers()
    {
    }

    /** The elements after the gap have moved up by one. */
    twostate predicate ClosedUp(p: Spot)
      reads this
    {
      && |chains| == |recs| == |old(chains)| == |old(recs)| == TABLE_S
      && (forall i :: 0 <= i < TABLE_S ==> |recs[i]| == |chains[i]|)
      && (forall i, j :: 0 <= i < TABLE_S && 0 <= j < |chains[i]| ==>
            var l := if i == p.slot && j >= p.k then j + 1 else j;
            && l < |old(chains)[i]| == |old(recs)[i]|
            && chains[i][j] in nodes && chains[i][j] == old(chains)[i][l] && recs[i][j] == old(recs)[i][l])
    }

    twostate lemma ChainsUnlinked(p: Spot)
      requires old(Valid()) && OnlyUnlinked(p)
      ensures ClosedUp(p)
    {
      hide WellFormed, Linked, Containers, Contents;
    }

    twostate lemma ShapeUnlinked(p: Spot)
      requires old(Valid()) && OnlyUnlinked(p) && WellFormed(recs)
      requires forall i :: 0 <= i < TABLE_S && i != p.slot ==> Linked(h[i], old(chains)[i])
      requires Linked(h[p.slot], chains[p.slot])
      requires ClosedUp(p)
      requires forall i :: 0 <= i < TABLE_S ==>
                 size[i] == if i == p.slot then old(size[i]) - 1 else old(size[i])
      ensures Shape()
    {
      hide WellFormed, Linked, Contents;
    }

    twostate lemma ContentsUnlinked(p: Spot)
      requires old(Valid()) && OnlyUnlinked(p) && Containers()
      requires forall n :: n in old(nodes) ==> n.kv.EntryOf() == old(n.kv.EntryOf())
      requires ClosedUp(p)
      ensures Contents()
    {
      hide WellFormed, Linked, Shape;
    }

    twostate lemma UnlinkedValid(p: Spot)
      requires old(Valid()) && OnlyUnlinked(p) && WellFormed(recs)
      requires forall i :: 0 <= i < TABLE_S && i != p.slot ==> h[i] == old(h[i]) && size[i] == old(size[i])
      requires Linked(h[p.slot], chains[p.slot]) && size[p.slot] == old(size[p.slot]) - 1
      ensures Valid()
    {
      hide WellFormed, Linked, Contents, Containers, Shape;
      ValuesStay(p.slot);
      ContainersUnlinked(p);
      EntriesKept(p.slot);
      OtherChainsStay(p.slot);
      ChainsUnlinked(p);
      ShapeUnlinked(p);
      ContentsUnlinked(p);
    }

    /** Unlinks a node and drops its record. */
    method Unlink(node: HashNode, index: nat, ghost k: nat)
      requires Shape() && core <= Repr && OnlyAt(Spot(node, index, k))
      modifies this`chains, this`recs, this`nodes
      modifies h, size, set n | n in chains[index]
      ensures OnlyUnlinked(Spot(node, index, k))
      ensures forall i :: 0 <= i < TABLE_S && i != index ==> h[i] == old(h[i]) && size[i] == old(size[i])
      ensures Linked(h[index], chains[index]) && size[index] == old(size[index]) - 1
    {
      hide WellFormed, Linked;
      assert forall n :: n in chains[index] ==> n in Repr;
      Unwire(node, index, k);
      chains := chains[index := Without(chains[index], k)];
      recs := recs[index := Without(recs[index], k)];
      nodes := nodes - {node};
    }

    /** del: the caller has made sure that the key is there. */
    method Del(key: string)
      requires Valid() && Lookup(recs, key).Some?
      modifies this`chains, this`recs, this`nodes, h, size, nodes
      ensures Valid() && recs == Dropped(old(recs), key)
    {
      hide SlotOf, Shape, Contents, Linked, WellFormed;
      var node, index := FindNode(key);
      ghost var k := KeyAt(recs[index], key);
      ghost var r := Dropped(recs, key);
      DroppedRefines(recs, key, key);
      PlaceOf(node, key);
      Unlink(node, index, k);
      assert recs == r;
      UnlinkedValid(Spot(node, index, k));
    }

    // --------------------------------------------------------------- listing

    /** get_size: the counters add up to the number of keys. */
    method GetSize() returns (size_all: int)
      requires Valid()
      ensures size_all == |KeysOf(recs)|
    {
      hide Linked, Containers, Contents, WellFormed;
      size_all := 0;
      for i := 0 to TABLE_S
        invariant size_all == |KeysOf(recs[..i])|
      {
        KeysOfStep(recs, i);
        size_all := size_all + size[i];
      }
      assert recs[..TABLE_S] == recs;
    }

    /** keys: the array it allocates is filled exactly. */
    method Keys() returns (result: array<string>)
      requires Valid()
      ensures fresh(result) && result[..] == KeysOf(recs)
    {
      hide Linked, Containers, Contents, WellFormed;
      var size_all := GetSize();
      result := new string[size_all];
      var index := 0;
      for i := 0 to TABLE_S
        invariant fresh(result) && result.Length == size_all
        invariant index == |KeysOf(recs[..i])| <= size_all
        invariant result[..index] == KeysOf(recs[..i])
        invariant forall k :: 0 <= k < TABLE_S ==> Linked(h[k], chains[k])
      {
        KeysOfStep(recs, i);
        KeysOfPrefix(recs, i + 1);
        index := ListChain(h[i], chains[i], Listed(recs[i]), result, index);
      }
      assert recs[..TABLE_S] == recs;
    }

    // --------------------------------------------------------------- snapshot

    lemma ChainPrints(i: nat)
      requires Valid() && i < TABLE_S
      ensures h.Length == TABLE_S && Linked(h[i], chains[i]) && |chains[i]| == |recs[i]|
      ensures forall j :: 0 <= j < |recs[i]| ==> Prints(chains[i][j], ChainLines(recs[i])[j])
    {
      hide Linked, WellFormed, RecordLine;
      forall j | 0 <= j < |recs[i]|
        ensures Prints(chains[i][j], ChainLines(recs[i])[j])
      {
        ChainLinesAt(recs[i], j);
      }
    }

    /** save: one encrypted line per record, unless the file cannot be opened. */
    method Save(writable: bool) returns (ok: bool, lines: seq<string>)
      requires Valid()
      ensures ok == writable && lines == if ok then SaveLines(recs) else []
    {
      hide Valid;
      if !writable {
        return false, [];
      }
      ok, lines := true, [];
      for i := 0 to TABLE_S
        invariant lines == SaveLines(recs[..i])
      {
        SaveLinesStep(recs, i);
        ChainPrints(i);
        lines := SaveChain(h[i], chains[i], ChainLines(recs[i]), lines);
      }
      assert recs[..TABLE_S] == recs;
    }

    /** Encodes and sets one record. */
    method Restore(key: string, text: string, kind: Kind, authr: int, authw: int)
      requires Valid()
      modifies Repr
      ensures Valid() && recs == Assigned(old(recs), key, Encode(text, kind), authr, authw)
      ensures fresh(Repr - old(Repr)) && start_num == old(start_num) && end_num == old(end_num)
    {
      hide Valid;
      var value := DataEncode(text, kind);
      Set(key, value, authr, authw);
    }

    /** Parses and sets one decrypted record. */
    method ReadMessage(message: string) returns (stop: Option<ReadOutcome>)
      requires Valid()
      modifies Repr
      ensures Valid() && fresh(Repr - old(Repr)) && start_num == old(start_num) && end_num == old(end_num)
      ensures (stop, recs) == AfterLine(old(recs), ParseMessage(message))
    {
      hide Valid;
      var refusal, f := ParseFields(message);
      if refusal.None? {
        Restore(f.key, f.text, f.kind, f.authr, f.authw);
      }
      stop := refusal;
    }

    /** Decrypts, parses and sets one line. */
    method ReadLine(line: string, password: int) returns (stop: Option<ReadOutcome>)
      requires Valid() && line != ""
      modifies Repr
      ensures Valid() && fresh(Repr - old(Repr)) && start_num == old(start_num) && end_num == old(end_num)
      ensures (stop, recs) == AfterLine(old(recs), ParseLine(line, password))
    {
      hide Valid;
      var r := DecodeLine(SNAPSHOT_N, password, line);
      match r
      case Threw => stop := Some(ReadThrew);
      case Cracked => stop := Some(Finished(false));
      case Decoded(message) => stop := ReadMessage(message);
    }

    /** read: stops at the end of the file or at the first bad line and keeps what it has set
        so far. */
    method Read(file: Option<seq<string>>, pw: string) returns (outcome: ReadOutcome)
      requires Valid() && pw != ""
      modifies Repr
      ensures Valid() && fresh(Repr - old(Repr)) && start_num == old(start_num) && end_num == old(end_num)
      ensures (outcome, recs) ==
              if file.None? || !IntOf(pw).0 then (Finished(false), old(recs))
              else ReadLines(old(recs), file.value, IntOf(pw).1)
    {
      hide Valid;
      if file.None? {
        return Finished(false);
      }
      var ok, password := StrToInt(pw);
      if !ok {
        return Finished(false);
      }
      var lines, i := file.value, 0;
      assert lines[0..] == lines;
      while i < |lines| && lines[i] != ""
        invariant 0 <= i <= |lines|
        invariant Valid() && fresh(Repr - old(Repr)) && start_num == old(start_num) && end_num == old(end_num)
        invariant ReadLines(recs, lines[i..], password) == ReadLines(old(recs), lines, password)
      {
        assert lines[i..][0] == lines[i] && lines[i..][1..] == lines[i + 1..];
        var stop := ReadLine(lines[i], password);
        if stop.Some? {
          return stop.value;
        }
        i := i + 1;
      }
      outcome := Finished(true);
    }
  }
}
