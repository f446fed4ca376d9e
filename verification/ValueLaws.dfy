/** What the commands on lists, sets and field maps do, told from outside: the reply and the
    value that is stored afterwards, element by element, as sets and as maps. */
module ValueLaws {
  import opened Entries
  import opened EntryLaws
  import opened FieldPairs
  import opened Hashing
  import opened LinkedList
  import opened Machine
  import opened MachineInts
  import opened Sequences
  import opened SetBuckets
  import opened Sorting
  import opened Store
  import opened Text

  /** The caller may read, or change, the live entry e that is under k. */
  ghost predicate MayRead(st: Chains, k: string, e: Entry, a: byte, now: int) {
    Holds(st, k, e) && Alive(e, now) && e.authr <= a && DataOk(e.data)
  }

  ghost predicate MayWrite(st: Chains, k: string, e: Entry, a: byte, now: int) {
    Holds(st, k, e) && Alive(e, now) && e.authw <= a && DataOk(e.data)
  }

  /** The next table holds d under k, all else being as it was. */
  ghost predicate Stores(st: Chains, st': Chains, k: string, e: Entry, d: Data)
    requires |st| == TABLE_S
  {
    Only(st, st', k, Some(e.(data := d)))
  }

  // ---------------------------------------------------------------- refusals

  predicate ForLists(c: Cmd) {
    c.LPush? || c.RPush? || c.LPop? || c.RPop? || c.LGet? || c.LSet? || c.LErase?
  }

  predicate ForSets(c: Cmd) {
    c.SPush? || c.SPop? || c.SErase?
  }

  predicate ForMaps(c: Cmd) {
    c.HPush? || c.HGet? || c.HFields? || c.HVals? || c.HErase?
  }

  predicate ForReading(c: Cmd) {
    c.Get? || c.LGet? || c.Sort? || c.HGet? || c.HFields? || c.HVals?
  }

  predicate RightType(c: Cmd, d: Data) {
    (ForLists(c) ==> d.Lst?) && (ForSets(c) ==> d.St?) && (ForMaps(c) ==> d.Mp?) && (c.Sort? ==> d.Lst? || d.St?)
  }

  lemma TypesAre(c: Cmd, d: Data)
    requires OnValue(c)
    ensures KindFits(c, KindOf(d)) <==> RightType(c, d)
    ensures Modifies(c) <==> !ForReading(c)
  {
  }

  /** What turns a command on a value away, in this order: no live entry, the wrong type,
      too little authority. Only an expired entry is dropped. */
  lemma RefusalLaw(st: Chains, c: Cmd, a: byte, env: Env)
    requires WellFormed(st) && (c.Get? || c.Sort? || ForLists(c) || ForSets(c) || ForMaps(c))
    ensures var (reply, st') := Step(st, c, a, env);
            match Lookup(st, c.k) {
              case None => (reply, st') == (NoSuchKey(c.k), st)
              case Some(e) =>
                if !Alive(e, env.now) then reply == NoSuchKey(c.k) && Only(st, st', c.k, None)
                else if !RightType(c, e.data) then (reply, st') == (INVALID_TYPE, st)
                else a < (if ForReading(c) then e.authr else e.authw) ==> (reply, st') == (DENIED, st)
            }
  {
    hide ChainOk, Lookup, Dropped, Replaced, Effect, KindFits, RightType, NoSuchKey, Modifies, ForReading;
    if Lookup(st, c.k).Some? {
      DroppedOnly(st, c.k);
      TypesAre(c, Lookup(st, c.k).value.data);
    }
  }

  lemma Changes(st: Chains, c: Cmd, a: byte, env: Env, e: Entry)
    requires OnValue(c) && Modifies(c) && MayWrite(st, c.k, e, a, env.now) && KindFits(c, KindOf(e.data))
    ensures Step(st, c, a, env).0 == Effect(c, e.data).0
    ensures Stores(st, Step(st, c, a, env).1, c.k, e, Effect(c, e.data).1)
    ensures Effect(c, e.data).1 == e.data ==> Step(st, c, a, env).1 == st
  {
    hide ChainOk, Lookup, Replaced, Effect, KindFits;
    AliveIs(e, env.now);
    ReplacedOnly(st, c.k, e.(data := Effect(c, e.data).1));
    ReplacedBySame(st, c.k);
  }

  lemma Reads(st: Chains, c: Cmd, a: byte, env: Env, e: Entry)
    requires OnValue(c) && !Modifies(c) && MayRead(st, c.k, e, a, env.now) && KindFits(c, KindOf(e.data))
    ensures Step(st, c, a, env) == (Effect(c, e.data).0, st)
  {
    hide ChainOk, Lookup, Replaced, Effect, KindFits;
    AliveIs(e, env.now);
  }

  // ------------------------------------------------------------------- lists

  /** lpush: the arguments stand in front, the last one first. */
  lemma LPushLaw(st: Chains, k: string, xs: seq<string>, a: byte, env: Env, e: Entry) returns (ys: seq<string>)
    requires MayWrite(st, k, e, a, env.now) && e.data.Lst?
    ensures Step(st, LPush(k, xs), a, env).0 == OK && Stores(st, Step(st, LPush(k, xs), a, env).1, k, e, Lst(ys))
    ensures |ys| == |xs| + |e.data.items|
    ensures forall i :: 0 <= i < |xs| ==> ys[i] == xs[|xs| - 1 - i]
    ensures forall i :: |xs| <= i < |ys| ==> ys[i] == e.data.items[i - |xs|]
  {
    hide Step, Stores, MayWrite;
    Changes(st, LPush(k, xs), a, env, e);
    ys := Reverse(xs) + e.data.items;
    forall i | 0 <= i < |xs|
      ensures ys[i] == xs[|xs| - 1 - i]
    {
      ReverseAt(xs, i);
    }
  }

  lemma RPushLaw(st: Chains, k: string, xs: seq<string>, a: byte, env: Env, e: Entry) returns (ys: seq<string>)
    requires MayWrite(st, k, e, a, env.now) && e.data.Lst?
    ensures Step(st, RPush(k, xs), a, env).0 == OK && Stores(st, Step(st, RPush(k, xs), a, env).1, k, e, Lst(ys))
    ensures |ys| == |e.data.items| + |xs|
    ensures forall i :: 0 <= i < |e.data.items| ==> ys[i] == e.data.items[i]
    ensures forall i :: 0 <= i < |xs| ==> ys[|e.data.items| + i] == xs[i]
  {
    hide Step, Stores, MayWrite;
    Changes(st, RPush(k, xs), a, env, e);
    ys := e.data.items + xs;
  }

  /** lpop: the reply in front of what is left is the list that was. */
  lemma LPopLaw(st: Chains, k: string, a: byte, env: Env, e: Entry) returns (ys: seq<string>)
    requires MayWrite(st, k, e, a, env.now) && e.data.Lst?
    ensures var (reply, st') := Step(st, LPop(k), a, env);
            if e.data.items == [] then (reply, st') == (EMPTY_LIST, st)
            else [reply] + ys == e.data.items && Stores(st, st', k, e, Lst(ys))
  {
    hide Step, Stores, MayWrite;
    Changes(st, LPop(k), a, env, e);
    ys := if e.data.items == [] then [] else e.data.items[1..];
  }

  lemma RPopLaw(st: Chains, k: string, a: byte, env: Env, e: Entry) returns (ys: seq<string>)
    requires MayWrite(st, k, e, a, env.now) && e.data.Lst?
    ensures var (reply, st') := Step(st, RPop(k), a, env);
            if e.data.items == [] then (reply, st') == (EMPTY_LIST, st)
            else ys + [reply] == e.data.items && Stores(st, st', k, e, Lst(ys))
  {
    hide Step, Stores, MayWrite;
    Changes(st, RPop(k), a, env, e);
    ys := if e.data.items == [] then [] else e.data.items[..|e.data.items| - 1];
  }

  /** The element an index text denotes: counted from the front, or from the end if it is
      negative, going round; for the least int it is the head. */
  ghost predicate Denotes(index: string, n: nat, p: nat) {
    p < n && p == if IntOf(index).1 == -TWO31 then 0 else IntOf(index).1 % n
  }

  lemma IndexInRange(index: string)
    ensures -TWO31 <= IntOf(index).1 < TWO31
  {
    hide AllDigits;
    if IntOf(index).0 && (index == "" || index[0] != '-') {
      ValueInRange(index);
    }
  }

  lemma ValueInRange(ds: string)
    ensures -TWO31 <= DigitsValue(ds) < TWO31
  {
  }

  lemma LeastIsHead(n: nat)
    requires n > 0
    ensures Position(-TWO31, n) == 0
  {
  }

  lemma DenotedIs(index: string, n: nat) returns (p: nat)
    requires n > 0
    ensures p == Position(IntOf(index).1, n) && Denotes(index, n, p)
  {
    hide IntOf;
    p := Position(IntOf(index).1, n);
    IndexInRange(index);
    LeastIsHead(n);
    PositionIsEuclidean(IntOf(index).1, n);
  }

  lemma LGetLaw(st: Chains, k: string, index: string, a: byte, env: Env, e: Entry) returns (p: nat)
    requires MayRead(st, k, e, a, env.now) && e.data.Lst?
    ensures var items := e.data.items;
            var (reply, st') := Step(st, LGet(k, index), a, env);
            && st' == st
            && if items == [] then reply == EMPTY_LIST
               else if !IntOf(index).0 then reply == INVALID_INDEX
               else Denotes(index, |items|, p) && reply == items[p]
  {
    hide Step, MayRead, IntOf, Position, Denotes;
    Reads(st, LGet(k, index), a, env, e);
    p := 0;
    if e.data.items != [] {
      p := DenotedIs(index, |e.data.items|);
      assert p < |e.data.items|;
    }
  }

  lemma LSetLaw(st: Chains, k: string, index: string, x: string, a: byte, env: Env, e: Entry)
    returns (p: nat, ys: seq<string>)
    requires MayWrite(st, k, e, a, env.now) && e.data.Lst?
    ensures var items := e.data.items;
            var (reply, st') := Step(st, LSet(k, index, x), a, env);
            if items == [] then (reply, st') == (EMPTY_LIST, st)
            else if !IntOf(index).0 then (reply, st') == (INVALID_INDEX, st)
            else && reply == OK && Stores(st, st', k, e, Lst(ys)) && Denotes(index, |items|, p)
                 && |ys| == |items| && forall i :: 0 <= i < |ys| ==> ys[i] == if i == p then x else items[i]
  {
    hide Step, Stores, MayWrite, IntOf, Position, Denotes;
    Changes(st, LSet(k, index, x), a, env, e);
    p, ys := 0, [];
    if e.data.items != [] {
      p := DenotedIs(index, |e.data.items|);
      ys := e.data.items[p := x];
    }
  }

  lemma LEraseLaw(st: Chains, k: string, index: string, a: byte, env: Env, e: Entry)
    returns (p: nat, ys: seq<string>)
    requires MayWrite(st, k, e, a, env.now) && e.data.Lst?
    ensures var items := e.data.items;
            var (reply, st') := Step(st, LErase(k, index), a, env);
            if items == [] then (reply, st') == (EMPTY_LIST, st)
            else if !IntOf(index).0 then (reply, st') == (INVALID_INDEX, st)
            else && reply == OK && Stores(st, st', k, e, Lst(ys)) && Denotes(index, |items|, p)
                 && p <= |ys| < |items| && ys[..p] + [items[p]] + ys[p..] == items
  {
    hide Step, Stores, MayWrite, IntOf, Position, Denotes;
    Changes(st, LErase(k, index), a, env, e);
    p, ys := 0, [];
    if e.data.items != [] {
      p := DenotedIs(index, |e.data.items|);
      ys := Without(e.data.items, p);
      WithoutAround(e.data.items, p);
    }
  }

  lemma WithoutAround(s: seq<string>, p: nat)
    requires p < |s|
    ensures var t := Without(s, p); p <= |t| && t[..p] + [s[p]] + t[p..] == s
  {
    var t := Without(s, p);
    assert t[..p] == s[..p] && t[p..] == s[p + 1..];
  }

  /** lget after lpush: the arguments from the last one on, then what lget answered before. */
  lemma LPushThenLGet(st: Chains, k: string, xs: seq<string>, i: nat, a: byte, b: byte, env: Env, env': Env, e: Entry)
    requires MayWrite(st, k, e, a, env.now) && e.data.Lst? && Alive(e, env'.now) && e.authr <= b
    requires i < |xs| + |e.data.items| && i < TWO31
    ensures var st' := Step(st, LPush(k, xs), a, env).1;
            && |st'| == TABLE_S
            && var reply := Step(st', LGet(k, Decimal(i)), b, env').0;
               if i < |xs| then reply == xs[|xs| - 1 - i]
               else reply == Step(st, LGet(k, Decimal(i - |xs|)), b, env').0
  {
    hide Step, ChainOk, Lookup, Decimal, IntOf;
    var st' := Step(st, LPush(k, xs), a, env).1;
    var ys := LPushLaw(st, k, xs, a, env, e);
    PrintedIntReadsBack(i);
    SmallMod(i, |ys|);
    var p := LGetLaw(st', k, Decimal(i), b, env', e.(data := Lst(ys)));
    if i >= |xs| {
      PrintedIntReadsBack(i - |xs|);
      SmallMod(i - |xs|, |e.data.items|);
      var q := LGetLaw(st, k, Decimal(i - |xs|), b, env', e);
    }
  }

  lemma SmallMod(i: nat, n: nat)
    requires i < n
    ensures i % n == i
  {
  }

  // -------------------------------------------------------------------- sets

  lemma SPushLaw(st: Chains, k: string, xs: seq<string>, a: byte, env: Env, e: Entry) returns (b: Buckets)
    requires MayWrite(st, k, e, a, env.now) && e.data.St?
    ensures Step(st, SPush(k, xs), a, env).0 == OK && Stores(st, Step(st, SPush(k, xs), a, env).1, k, e, St(b))
    ensures Placed(b) && Members(b) == Members(e.data.buckets) + set x | x in xs
  {
    hide Step, Stores, Placed, Members, PushAll, ChainOk, Lookup;
    Changes(st, SPush(k, xs), a, env, e);
    PushAllPlaced(e.data.buckets, xs);
    b := PushAll(e.data.buckets, xs);
  }

  /** x is the last element of the first bucket of b that is not empty, and b' is the rest. */
  ghost predicate TakenLast(b: Buckets, x: string, b': Buckets) {
    exists i :: 0 <= i < SET_S && b[i] == b'[i] + [x]
                && (forall j :: 0 <= j < i ==> b[j] == [])
                && (forall j :: 0 <= j < SET_S && j != i ==> b'[j] == b[j])
  }

  lemma PoppedIsLast(b: Buckets)
    requires Members(b) != {}
    ensures TakenLast(b, Popped(b).0, Popped(b).1)
  {
    var i := FirstNonEmpty(b);
    assert i < |b| by {
      var x :| x in Members(b);
    }
    var c := Popped(b).1;
    assert c[i] == b[i][..|b[i]| - 1];
    assert b[i] == c[i] + [b[i][|b[i]| - 1]];
  }

  lemma SPopLaw(st: Chains, k: string, a: byte, env: Env, e: Entry) returns (b: Buckets)
    requires MayWrite(st, k, e, a, env.now) && e.data.St?
    ensures var m := Members(e.data.buckets);
            var (reply, st') := Step(st, SPop(k), a, env);
            if m == {} then (reply, st') == (EMPTY_LIST, st)
            else && reply in m && Stores(st, st', k, e, St(b)) && Placed(b) && Members(b) == m - {reply}
                 && TakenLast(e.data.buckets, reply, b)
  {
    hide Step, Stores, Placed, Members, Popped, TakenLast, Flat, ChainOk, Lookup;
    Changes(st, SPop(k), a, env, e);
    PopChooses(e.data.buckets);
    FlatEnumerates(e.data.buckets);
    b := Popped(e.data.buckets).1;
    if Members(e.data.buckets) != {} {
      PoppedIsLast(e.data.buckets);
    }
  }

  lemma SEraseLaw(st: Chains, k: string, x: string, a: byte, env: Env, e: Entry) returns (b: Buckets)
    requires MayWrite(st, k, e, a, env.now) && e.data.St?
    ensures var m := Members(e.data.buckets);
            var (reply, st') := Step(st, SErase(k, x), a, env);
            if m == {} then (reply, st') == (EMPTY_LIST, st)
            else if x !in m then (reply, st') == (NoSuchElement(x), st)
            else reply == OK && Stores(st, st', k, e, St(b)) && Placed(b) && Members(b) == m - {x}
  {
    hide Step, Stores, Placed, Members, Erased, Flat, ChainOk, Lookup, NoSuchElement;
    Changes(st, SErase(k, x), a, env, e);
    EraseRemoves(e.data.buckets, x);
    FlatEnumerates(e.data.buckets);
    b := Erased(e.data.buckets, x).1;
  }

  // -------------------------------------------------------------- field maps

  /** hpush: the field gets the value; a field that is there keeps its place, a new one
      comes first. */
  lemma HPushLaw(st: Chains, k: string, f: string, x: string, a: byte, env: Env, e: Entry) returns (qs: Pairs)
    requires MayWrite(st, k, e, a, env.now) && e.data.Mp?
    ensures Step(st, HPush(k, f, x), a, env).0 == OK && Stores(st, Step(st, HPush(k, f, x), a, env).1, k, e, Mp(qs))
    ensures var ps := e.data.pairs;
            && DistinctFields(qs) && MapOf(qs) == MapOf(ps)[f := x]
            && FieldsOf(qs) == if f in MapOf(ps) then FieldsOf(ps) else [f] + FieldsOf(ps)
  {
    hide Step, Stores, ChainOk, Lookup, DistinctFields, MapOf, Put;
    Changes(st, HPush(k, f, x), a, env, e);
    var ps := e.data.pairs;
    PutUpdates(ps, f, x);
    PutKeepsDistinct(ps, f, x);
    PutPlaces(ps, f, x);
    qs := Put(ps, f, x);
  }

  lemma SameFields(ps: Pairs, qs: Pairs)
    requires |ps| == |qs| && forall i :: 0 <= i < |ps| ==> ps[i].0 == qs[i].0
    ensures FieldsOf(ps) == FieldsOf(qs)
  {
    hide FieldsOf;
  }

  lemma NewField(ps: Pairs, f: string, x: string)
    ensures FieldsOf([(f, x)] + ps) == [f] + FieldsOf(ps)
  {
    assert ([(f, x)] + ps)[1..] == ps;
  }

  lemma PutPlaces(ps: Pairs, f: string, x: string)
    ensures FieldsOf(Put(ps, f, x)) == if f in MapOf(ps) then FieldsOf(ps) else [f] + FieldsOf(ps)
  {
    hide FieldsOf, MapOf, FieldAt;
    MapLookup(ps, f);
    if f in MapOf(ps) {
      SameFields(ps, Put(ps, f, x));
    } else {
      NewField(ps, f, x);
    }
  }

  /** herase: the field goes and the pairs around it stay. */
  lemma HEraseLaw(st: Chains, k: string, f: string, a: byte, env: Env, e: Entry) returns (qs: Pairs, p: nat)
    requires MayWrite(st, k, e, a, env.now) && e.data.Mp?
    ensures var ps := e.data.pairs;
            var (reply, st') := Step(st, HErase(k, f), a, env);
            if ps == [] then (reply, st') == (EMPTY_MAP, st)
            else if f !in MapOf(ps) then (reply, st') == (NoSuchField(f), st)
            else && reply == OK && Stores(st, st', k, e, Mp(qs)) && MapOf(qs) == MapOf(ps) - {f}
                 && DistinctFields(qs) && p < |ps| && ps[p].0 == f && qs == ps[..p] + ps[p + 1..]
  {
    hide Step, Stores, ChainOk, Lookup, DistinctFields, MapOf, NoSuchField;
    Changes(st, HErase(k, f), a, env, e);
    var ps := e.data.pairs;
    MapLookup(ps, f);
    CutRemoves(ps, f);
    CutKeepsDistinct(ps, f);
    qs, p := Cut(ps, f), FieldAt(ps, f);
  }

  /** hget: a field that holds the text NULL counts as missing. */
  lemma HGetLaw(st: Chains, k: string, f: string, a: byte, env: Env, e: Entry)
    requires MayRead(st, k, e, a, env.now) && e.data.Mp?
    ensures var m := MapOf(e.data.pairs);
            Step(st, HGet(k, f), a, env) ==
            (if e.data.pairs == [] then EMPTY_MAP else if f in m && m[f] != "NULL" then m[f] else NoSuchField(f), st)
  {
    hide Step, MayRead, MapOf, NoSuchField;
    Reads(st, HGet(k, f), a, env, e);
    MapLookup(e.data.pairs, f);
  }

  /** hfields and hvals: fields and values in the same order. */
  lemma HListLaw(st: Chains, k: string, a: byte, env: Env, e: Entry) returns (fs: seq<string>, vs: seq<string>)
    requires MayRead(st, k, e, a, env.now) && e.data.Mp?
    ensures var m := MapOf(e.data.pairs);
            && |fs| == |vs| == |m| && NoRepeats(fs)
            && forall i :: 0 <= i < |fs| ==> fs[i] in m && m[fs[i]] == vs[i]
    ensures Step(st, HFields(k), a, env) == (if fs == [] then EMPTY_MAP else Join(fs, ','), st)
    ensures Step(st, HVals(k), a, env) == (if vs == [] then EMPTY_MAP else Join(vs, ','), st)
  {
    hide Step, ChainOk, Lookup, Join;
    Reads(st, HFields(k), a, env, e);
    Reads(st, HVals(k), a, env, e);
    var ps := e.data.pairs;
    fs, vs := FieldsOf(ps), ValuesOf(ps);
    FieldsAreMap(ps);
  }

  lemma FieldsAreMap(ps: Pairs)
    requires DistinctFields(ps)
    ensures |FieldsOf(ps)| == |ValuesOf(ps)| == |MapOf(ps)| && NoRepeats(FieldsOf(ps))
    ensures forall i :: 0 <= i < |ps| ==> FieldsOf(ps)[i] in MapOf(ps) && MapOf(ps)[FieldsOf(ps)[i]] == ValuesOf(ps)[i]
  {
    hide MapOf;
    MapCount(ps);
    forall i | 0 <= i < |ps|
      ensures FieldsOf(ps)[i] in MapOf(ps) && MapOf(ps)[FieldsOf(ps)[i]] == ValuesOf(ps)[i]
    {
      MapLookup(ps, ps[i].0);
      assert FieldAt(ps, ps[i].0) == i;
    }
  }

  // ------------------------------------------------------------ get and sort

  /** get: a text as it is, a list or set as its elements joined by commas, a field map as
      its fields and values in turn; what prints as nothing is shown as (empty). */
  lemma GetLaw(st: Chains, k: string, a: byte, env: Env, e: Entry) returns (ps: seq<string>)
    requires MayRead(st, k, e, a, env.now)
    ensures var text := Join(ps, ',');
            Step(st, Get(k), a, env) == (if !e.data.Str? && text == "" then "(empty)" else text, st)
    ensures match e.data {
              case Str(s) => ps == [s]
              case Lst(items) => ps == items
              case St(b) => NoRepeats(ps) && (set x | x in ps) == Members(b)
              case Mp(qs) =>
                |ps| == 2 * |qs| && forall i :: 0 <= i < |qs| ==> ps[2 * i] == qs[i].0 && ps[2 * i + 1] == qs[i].1
            }
  {
    hide Step, ChainOk, Lookup, Alternating, Flat, Placed, Members;
    Reads(st, Get(k), a, env, e);
    match e.data
    case Str(s) => ps := [s];
    case Lst(items) => ps := items;
    case St(b) =>
      FlatEnumerates(b);
      ps := Flat(b);
    case Mp(qs) =>
      ps := Alternating(qs);
      if qs != [] {
        JoinLong(ps);
      }
  }

  lemma JoinLong(ps: seq<string>)
    requires |ps| >= 2
    ensures Join(ps, ',') != ""
  {
  }

  /** sort: the reply, split at commas, is in byte order and has the pieces of the printed
      value, each as often; the table stays. */
  lemma SortLaw(st: Chains, k: string, a: byte, env: Env, e: Entry) returns (ps: seq<string>)
    requires MayRead(st, k, e, a, env.now) && (e.data.Lst? || e.data.St?)
    ensures if e.data.Lst? then ps == e.data.items else NoRepeats(ps) && (set x | x in ps) == Members(e.data.buckets)
    ensures var (reply, st') := Step(st, Sort(k), a, env);
            var sorted := SplitOf(reply, ',');
            && st' == st && InOrder(sorted)
            && multiset(sorted) == multiset(SplitOf(Join(ps, ','), ','))
  {
    hide Step, ChainOk, Lookup, Flat, Placed, Members, Join, SplitOf, Sorted, InOrder, NoRepeats;
    Reads(st, Sort(k), a, env, e);
    if e.data.Lst? {
      ps := e.data.items;
    } else {
      FlatEnumerates(e.data.buckets);
      ps := Flat(e.data.buckets);
    }
    SortedSplits(Join(ps, ','));
  }

  lemma SortedSplits(text: string)
    ensures var sorted := SplitOf(SortedText(text), ',');
            InOrder(sorted) && multiset(sorted) == multiset(SplitOf(text, ','))
  {
    hide SplitOf, InOrder, Join, Sorted;
    var ps := SplitOf(text, ',');
    SortedOrders(ps);
    PiecesApart(text);
    SamePiecesFree(ps, Sorted(ps));
    SplitUndoesMerge(Sorted(ps), ',');
  }

  lemma PiecesApart(text: string)
    ensures SeparatorFree(SplitOf(text, ','), ',') && SplitOf(text, ',') != [""]
  {
    PiecesFree(text, ',');
    MergeUndoesSplit(text, ',');
  }

  lemma SamePiecesFree(ps: seq<string>, qs: seq<string>)
    requires multiset(ps) == multiset(qs) && SeparatorFree(ps, ',') && ps != [""]
    ensures SeparatorFree(qs, ',') && qs != [""]
  {
    assert |ps| == |multiset(ps)| == |multiset(qs)| == |qs|;
    forall i | 0 <= i < |qs|
      ensures ',' !in qs[i] && qs[i] in ps
    {
      assert qs[i] in multiset(ps);
    }
  }

  /** The order: at the first place where two texts differ the smaller byte decides, and a
      text comes after its beginnings. */
  lemma {:induction false} ByteOrder(s: string, t: string)
    ensures AtMost(s, t) <==>
            (|s| <= |t| && t[..|s|] == s) || exists i :: 0 <= i < |s| && i < |t| && s[..i] == t[..i] && s[i] < t[i]
  {
    if s != "" && t != "" && s[0] == t[0] {
      var u, w := s[1..], t[1..];
      ByteOrder(u, w);
      assert s == [s[0]] + u && t == [t[0]] + w;
      if |u| <= |w| && w[..|u|] == u {
        assert t[..|s|] == [t[0]] + w[..|u|];
      }
      if |s| <= |t| && t[..|s|] == s {
        assert w[..|u|] == t[..|s|][1..];
      }
      if i :| 0 <= i < |u| && i < |w| && u[..i] == w[..i] && u[i] < w[i] {
        assert s[..i + 1] == [s[0]] + u[..i] && t[..i + 1] == [t[0]] + w[..i];
        assert s[i + 1] < t[i + 1];
      }
      if i :| 0 <= i < |s| && i < |t| && s[..i] == t[..i] && s[i] < t[i] {
        assert i > 0;
        assert u[..i - 1] == s[..i][1..] && w[..i - 1] == t[..i][1..];
        assert u[i - 1] < w[i - 1];
      }
    } else if s != "" && t != "" {
      HeadsDiffer(s, t);
      assert s[..0] == t[..0];
    }
  }

  lemma HeadsDiffer(s: string, t: string)
    requires s != "" && t != "" && s[0] != t[0]
    ensures |s| <= |t| ==> t[..|s|] != s
    ensures forall i :: 0 < i < |s| && i < |t| ==> s[..i] != t[..i]
  {
    assert |s| <= |t| ==> t[..|s|][0] == t[0];
    forall i | 0 < i < |s| && i < |t|
      ensures s[..i] != t[..i]
    {
      assert s[..i][0] == s[0] && t[..i][0] == t[0];
    }
  }
}
