/** The main table as a value: one chain of records per slot, newest first. */
module Store {
  import opened Entries
  import opened Hashing
  import opened Sequences

  datatype Rec = Rec(key: string, entry: Entry)

  type Chains = seq<seq<Rec>>

  function NoChains(): (st: Chains)
    ensures |st| == TABLE_S && forall i :: 0 <= i < TABLE_S ==> st[i] == []
  {
    seq(TABLE_S, i => [])
  }

  ghost predicate DistinctKeys(c: seq<Rec>) {
    forall i, j :: 0 <= i < j < |c| ==> c[i].key != c[j].key
  }

  /** A chain holds each key once and only keys of its own slot. */
  ghost predicate ChainOk(c: seq<Rec>, slot: int) {
    DistinctKeys(c) && forall j :: 0 <= j < |c| ==> SlotOf(c[j].key) == slot
  }

  /** Each key once, in the chain of its own hash. */
  ghost predicate WellFormed(st: Chains) {
    |st| == TABLE_S && forall i :: 0 <= i < |st| ==> ChainOk(st[i], i)
  }

  /** Every container in the table meets the invariant of its class. */
  ghost predicate AllDataOk(st: Chains) {
    forall i, j :: 0 <= i < |st| && 0 <= j < |st[i]| ==> DataOk(st[i][j].entry.data)
  }

  function KeyAt(c: seq<Rec>, key: string): (k: nat)
    ensures k <= |c| && (k < |c| ==> c[k].key == key)
    ensures forall i :: 0 <= i < k ==> c[i].key != key
  {
    if c == [] || c[0].key == key then 0 else KeyAt(c[1..], key) + 1
  }

  lemma KeyAtIs(c: seq<Rec>, k: nat)
    requires DistinctKeys(c) && k < |c|
    ensures KeyAt(c, c[k].key) == k
  {
  }

  function Lookup(st: Chains, key: string): Option<Entry>
    requires |st| == TABLE_S
  {
    var c := st[SlotOf(key)];
    var k := KeyAt(c, key);
    if k == |c| then None else Some(c[k].entry)
  }

  lemma EmptyIsWellFormed()
    ensures WellFormed(NoChains()) && forall key :: Lookup(NoChains(), key).None?
  {
    hide SlotOf;
  }

  // ------------------------------------------------------------ operations

  /** Replaces the entry of a key that is there. */
  function Replaced(st: Chains, key: string, e: Entry): (r': Chains)
    requires |st| == TABLE_S && Lookup(st, key).Some?
    ensures |r'| == TABLE_S
  {
    var i := SlotOf(key);
    st[i := st[i][KeyAt(st[i], key) := Rec(key, e)]]
  }

  /** Links a new record in front of its chain. */
  function Inserted(st: Chains, key: string, e: Entry): (r': Chains)
    requires |st| == TABLE_S
    ensures |r'| == TABLE_S
  {
    var i := SlotOf(key);
    st[i := [Rec(key, e)] + st[i]]
  }

  function Dropped(st: Chains, key: string): (r': Chains)
    requires |st| == TABLE_S && Lookup(st, key).Some?
    ensures |r'| == TABLE_S
  {
    var i := SlotOf(key);
    st[i := Without(st[i], KeyAt(st[i], key))]
  }

  /** Hash::set. */
  function Assigned(st: Chains, key: string, d: Data, r: int, w: int): (r': Chains)
    requires |st| == TABLE_S
    ensures |r'| == TABLE_S
  {
    match Lookup(st, key)
    case None => Inserted(st, key, NewEntry(d, r, w))
    case Some(e) => Replaced(st, key, Overwritten(e, d, r, w))
  }

  function Listed(c: seq<Rec>): (ks: seq<string>)
    ensures |ks| == |c| && forall i :: 0 <= i < |c| ==> ks[i] == c[i].key
  {
    if c == [] then [] else [c[0].key] + Listed(c[1..])
  }

  /** Hash::keys: slot by slot, each chain from its front. */
  function KeysOf(st: Chains): seq<string> {
    if st == [] then [] else Listed(st[0]) + KeysOf(st[1..])
  }

  // -------------------------------------- refinement of a map from key to entry

  lemma LookupHere(st: Chains, i: nat, j: nat)
    requires WellFormed(st) && i < |st| && j < |st[i]|
    ensures Lookup(st, st[i][j].key) == Some(st[i][j].entry)
    ensures KeyAt(st[i], st[i][j].key) == j
  {
    KeyAtIs(st[i], j);
  }

  lemma {:induction false} ReplacedInChain(c: seq<Rec>, key: string, e: Entry, other: string)
    requires KeyAt(c, key) < |c|
    ensures KeyAt(c[KeyAt(c, key) := Rec(key, e)], other) == KeyAt(c, other)
  {
    var k := KeyAt(c, key);
    var d := c[k := Rec(key, e)];
    if k > 0 {
      ReplacedInChain(c[1..], key, e, other);
      assert d[1..] == c[1..][k - 1 := Rec(key, e)];
    } else {
      assert d[1..] == c[1..];
    }
  }

  lemma ReplacedChainOk(c: seq<Rec>, k: nat, e: Entry, slot: int)
    requires ChainOk(c, slot) && k < |c|
    ensures ChainOk(c[k := Rec(c[k].key, e)], slot)
  {
  }

  lemma ReplacedRefines(st: Chains, key: string, e: Entry, other: string)
    requires WellFormed(st) && Lookup(st, key).Some?
    ensures WellFormed(Replaced(st, key, e))
    ensures Lookup(Replaced(st, key, e), other) == if other == key then Some(e) else Lookup(st, other)
  {
    var i := SlotOf(key);
    var c, k := st[i], KeyAt(st[i], key);
    ReplacedInChain(c, key, e, other);
    ReplacedChainOk(c, k, e, i);
    KeyAtApart(c, key, other);
  }

  /** r is st with the entry at position k of one slot replaced by e. */
  ghost predicate ReplacesAt(st: Chains, r: Chains, slot: nat, k: nat, e: Entry) {
    && |st| == |r| == TABLE_S && slot < TABLE_S && k < |r[slot]| && r[slot][k].entry == e
    && (forall i :: 0 <= i < TABLE_S ==> |r[i]| == |st[i]|)
    && (forall i, j :: 0 <= i < TABLE_S && 0 <= j < |st[i]| ==> r[i][j].key == st[i][j].key)
    && (forall i, j :: 0 <= i < TABLE_S && 0 <= j < |st[i]| && (i != slot || j != k) ==> r[i][j] == st[i][j])
  }

  lemma ReplacedAt(st: Chains, key: string, e: Entry)
    requires |st| == TABLE_S && Lookup(st, key).Some?
    ensures ReplacesAt(st, Replaced(st, key, e), SlotOf(key), KeyAt(st[SlotOf(key)], key), e)
  {
  }

  lemma KeyAtApart(c: seq<Rec>, key: string, other: string)
    requires KeyAt(c, key) < |c|
    ensures KeyAt(c, other) == KeyAt(c, key) <==> other == key
  {
  }

  lemma InsertedInChain(c: seq<Rec>, key: string, e: Entry, other: string, slot: int)
    requires KeyAt(c, key) == |c| && ChainOk(c, slot) && SlotOf(key) == slot
    ensures ChainOk([Rec(key, e)] + c, slot)
    ensures KeyAt([Rec(key, e)] + c, other) == if other == key then 0 else KeyAt(c, other) + 1
  {
    var d := [Rec(key, e)] + c;
    assert d[1..] == c;
    assert forall j :: 0 < j < |d| ==> d[j] == c[j - 1];
  }

  lemma InsertedRefines(st: Chains, key: string, e: Entry, other: string)
    requires WellFormed(st) && Lookup(st, key).None?
    ensures WellFormed(Inserted(st, key, e))
    ensures Lookup(Inserted(st, key, e), other) == if other == key then Some(e) else Lookup(st, other)
  {
    var i := SlotOf(key);
    InsertedInChain(st[i], key, e, other, i);
  }

  lemma DroppedInChain(c: seq<Rec>, key: string, slot: int)
    requires ChainOk(c, slot) && KeyAt(c, key) < |c|
    ensures ChainOk(Without(c, KeyAt(c, key)), slot)
  {
    var k := KeyAt(c, key);
    var d := Without(c, k);
    assert forall j :: 0 <= j < |d| ==> d[j] == c[if j < k then j else j + 1];
  }

  lemma DroppedKeyAt(c: seq<Rec>, key: string, other: string)
    requires DistinctKeys(c) && KeyAt(c, key) < |c|
    requires DistinctKeys(Without(c, KeyAt(c, key)))
    ensures var d := Without(c, KeyAt(c, key));
            if other == key || KeyAt(c, other) == |c| then KeyAt(d, other) == |d|
            else KeyAt(d, other) < |d| && d[KeyAt(d, other)] == c[KeyAt(c, other)]
  {
    var k, l := KeyAt(c, key), KeyAt(c, other);
    var d := Without(c, k);
    if other != key && l < |c| {
      var m := if l < k then l else l - 1;
      assert d[m] == c[l];
      KeyAtIs(d, m);
    }
  }

  lemma DroppedRefines(st: Chains, key: string, other: string)
    requires WellFormed(st) && Lookup(st, key).Some?
    ensures WellFormed(Dropped(st, key))
    ensures Lookup(Dropped(st, key), other) == if other == key then None else Lookup(st, other)
  {
    var i := SlotOf(key);
    assert ChainOk(st[i], i);
    DroppedInChain(st[i], key, i);
    DroppedKeyAt(st[i], key, other);
  }

  /** set refines map update, keeping the deadline of an entry that was there. */
  lemma AssignedRefines(st: Chains, key: string, d: Data, r: int, w: int, other: string)
    requires WellFormed(st)
    ensures WellFormed(Assigned(st, key, d, r, w))
    ensures other != key ==> Lookup(Assigned(st, key, d, r, w), other) == Lookup(st, other)
    ensures Lookup(Assigned(st, key, d, r, w), key) ==
            match Lookup(st, key) {
              case None => Some(NewEntry(d, r, w))
              case Some(e) => Some(Overwritten(e, d, r, w))
            }
  {
    match Lookup(st, key)
    case None =>
      InsertedRefines(st, key, NewEntry(d, r, w), other);
      InsertedRefines(st, key, NewEntry(d, r, w), key);
    case Some(e) =>
      ReplacedRefines(st, key, Overwritten(e, d, r, w), other);
      ReplacedRefines(st, key, Overwritten(e, d, r, w), key);
  }

  lemma ReplacedBySame(st: Chains, key: string)
    requires |st| == TABLE_S && Lookup(st, key).Some?
    ensures Replaced(st, key, Lookup(st, key).value) == st
  {
    var i := SlotOf(key);
    var k := KeyAt(st[i], key);
    assert st[i][k := st[i][k]] == st[i];
    assert st[i][k] == Rec(key, st[i][k].entry);
  }

  // ------------------------------------------------------- the key listing

  lemma {:induction false} KeysOfSnoc(st: Chains, c: seq<Rec>)
    ensures KeysOf(st + [c]) == KeysOf(st) + Listed(c)
  {
    if st == [] {
      assert st + [c] == [c] && [c][1..] == [];
      assert Listed(c) + [] == [] + Listed(c);
    } else {
      assert (st + [c])[1..] == st[1..] + [c];
      KeysOfSnoc(st[1..], c);
      Assoc(Listed(st[0]), KeysOf(st[1..]), Listed(c));
    }
  }

  /** The listing of a prefix of the slots, one chain further. */
  lemma KeysOfStep(st: Chains, i: nat)
    requires i < |st|
    ensures KeysOf(st[..i + 1]) == KeysOf(st[..i]) + Listed(st[i])
  {
    assert st[..i + 1] == st[..i] + [st[i]];
    KeysOfSnoc(st[..i], st[i]);
  }

  lemma {:induction false} KeysOfPrefix(st: Chains, i: nat)
    requires i <= |st|
    ensures |KeysOf(st[..i])| <= |KeysOf(st)|
    decreases |st| - i
  {
    if i == |st| {
      assert st[..i] == st;
    } else {
      KeysOfStep(st, i);
      KeysOfPrefix(st, i + 1);
    }
  }

  lemma {:induction false} KeysOfMembers(st: Chains, key: string)
    ensures key in KeysOf(st) <==> exists i, j :: 0 <= i < |st| && 0 <= j < |st[i]| && st[i][j].key == key
  {
    if st != [] {
      var rest := st[1..];
      KeysOfMembers(rest, key);
      assert forall i :: 0 <= i < |rest| ==> rest[i] == st[i + 1];
      assert forall i :: 0 < i < |st| ==> st[i] == rest[i - 1];
      if key in Listed(st[0]) {
        var j :| 0 <= j < |st[0]| && Listed(st[0])[j] == key;
        assert st[0][j].key == key;
      }
      if i, j :| 0 <= i < |st| && 0 <= j < |st[i]| && st[i][j].key == key {
        if i == 0 {
          assert Listed(st[0])[j] == key;
        } else {
          assert rest[i - 1][j].key == key;
        }
      }
    }
  }

  lemma KeysElsewhere(st: Chains, k: nat, key: string)
    requires WellFormed(st) && k < |st| && key in Listed(st[k])
    ensures key !in KeysOf(st[k + 1..])
  {
    var rest := st[k + 1..];
    KeysOfMembers(rest, key);
    var l :| 0 <= l < |st[k]| && Listed(st[k])[l] == key;
    assert SlotOf(st[k][l].key) == k;
    assert forall i :: 0 <= i < |rest| ==> rest[i] == st[k + 1 + i];
    assert forall i, j :: 0 <= i < |rest| && 0 <= j < |rest[i]| ==> SlotOf(rest[i][j].key) == k + 1 + i;
  }

  lemma {:induction false} KeysNoRepeats(st: Chains, k: nat)
    requires WellFormed(st) && k <= |st|
    ensures NoRepeats(KeysOf(st[k..]))
    decreases |st| - k
  {
    if k < |st| {
      KeysNoRepeats(st, k + 1);
      assert st[k..][0] == st[k] && st[k..][1..] == st[k + 1..];
      forall key | key in Listed(st[k])
        ensures key !in KeysOf(st[k + 1..])
      {
        KeysElsewhere(st, k, key);
      }
      NoRepeatsConcat(Listed(st[k]), KeysOf(st[k + 1..]));
    }
  }

  /** keys lists every key of the table exactly once. */
  lemma KeysEnumerate(st: Chains)
    requires WellFormed(st)
    ensures NoRepeats(KeysOf(st))
    ensures forall key :: key in KeysOf(st) <==> Lookup(st, key).Some?
  {
    assert st[0..] == st;
    KeysNoRepeats(st, 0);
    forall key
      ensures key in KeysOf(st) <==> Lookup(st, key).Some?
    {
      KeysOfMembers(st, key);
      if i, j :| 0 <= i < |st| && 0 <= j < |st[i]| && st[i][j].key == key {
        LookupHere(st, i, j);
      }
      if Lookup(st, key).Some? {
        var i := SlotOf(key);
        assert st[i][KeyAt(st[i], key)].key == key;
      }
    }
  }

  lemma ListedKeyIsThere(st: Chains, i: nat)
    requires WellFormed(st) && i < |KeysOf(st)|
    ensures Lookup(st, KeysOf(st)[i]).Some?
  {
    KeysEnumerate(st);
  }
}
