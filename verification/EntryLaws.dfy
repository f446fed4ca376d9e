/** What the commands about entries do, told from outside: the reply and what a look-up of
    every key yields afterwards, for the commands that create, delete or mark an entry and
    for keys. The conditions and results are written out in the fields of an entry. */
module EntryLaws {
  import opened Entries
  import opened FieldPairs
  import opened Hashing
  import opened Machine
  import opened MachineInts
  import opened Sequences
  import opened SetBuckets
  import opened Store
  import opened Text

  /** The next table differs from st at most in the entry of k, which is o. */
  ghost predicate Only(st: Chains, st': Chains, k: string, o: Option<Entry>)
    requires |st| == TABLE_S
  {
    && |st'| == TABLE_S && WellFormed(st')
    && forall key :: Lookup(st', key) == if key == k then o else Lookup(st, key)
  }

  /** Not finished, and before the deadline if there is one. */
  ghost predicate Alive(e: Entry, now: int) {
    !e.finished && (e.ttl == -1 || now < e.timer + e.ttl)
  }

  ghost predicate Holds(st: Chains, k: string, e: Entry) {
    |st| == TABLE_S && WellFormed(st) && Lookup(st, k) == Some(e)
  }

  lemma AliveIs(e: Entry, now: int)
    ensures Alive(e, now) <==> !IsExpired(e, now)
  {
  }

  // ----------------------------------------------------------- three updates

  lemma ReplacedOnly(st: Chains, k: string, e: Entry)
    requires WellFormed(st) && Lookup(st, k).Some?
    ensures Only(st, Replaced(st, k, e), k, Some(e))
  {
    hide ChainOk, Lookup, Replaced;
    ReplacedRefines(st, k, e, k);
    forall key
      ensures Lookup(Replaced(st, k, e), key) == if key == k then Some(e) else Lookup(st, key)
    {
      ReplacedRefines(st, k, e, key);
    }
  }

  lemma DroppedOnly(st: Chains, k: string)
    requires WellFormed(st) && Lookup(st, k).Some?
    ensures Only(st, Dropped(st, k), k, None)
  {
    hide ChainOk, Lookup, Dropped;
    DroppedRefines(st, k, k);
    forall key
      ensures Lookup(Dropped(st, k), key) == if key == k then None else Lookup(st, key)
    {
      DroppedRefines(st, k, key);
    }
  }

  /** The entry a creating command leaves: the value and the authorities it was given, and
      the deadline of the entry it overwrites, or none. */
  ghost predicate Made(was: Option<Entry>, e: Entry, d: Data, r: int, w: int) {
    && e.data == d && e.authr == r && e.authw == w
    && match was
       case None => e.ttl == -1 && !e.finished
       case Some(o) => e.ttl == o.ttl && e.timer == o.timer && e.finished == o.finished
  }

  lemma AssignedOnly(st: Chains, k: string, d: Data, r: int, w: int) returns (e: Entry)
    requires WellFormed(st) && r <= w
    ensures Only(st, Assigned(st, k, d, r, w), k, Some(e)) && Made(Lookup(st, k), e, d, r, w)
  {
    hide ChainOk, Lookup, Assigned;
    AssignedRefines(st, k, d, r, w, k);
    e := Lookup(Assigned(st, k, d, r, w), k).value;
    forall key
      ensures Lookup(Assigned(st, k, d, r, w), key) == if key == k then Some(e) else Lookup(st, key)
    {
      AssignedRefines(st, k, d, r, w, key);
    }
  }

  // -------------------------------------------------------------------- make

  /** The caller lacks the write authority of the entry that is there. */
  ghost predicate Barred(st: Chains, k: string, a: byte)
    requires |st| == TABLE_S
  {
    Lookup(st, k).Some? && a < Lookup(st, k).value.authw
  }

  /** A text that reads as a number which is not negative. */
  ghost predicate IsLevel(s: string) {
    IntOf(s).0 && IntOf(s).1 >= 0
  }

  /** make without authorities. */
  lemma MakePlainLaw(st: Chains, k: string, v: string, a: byte, env: Env) returns (e: Entry)
    requires WellFormed(st)
    ensures var (reply, st') := Step(st, Make(k, v, []), a, env);
            if Barred(st, k, a) then (reply, st') == (DENIED, st)
            else reply == OK && Only(st, st', k, Some(e)) && Made(Lookup(st, k), e, Str(v), 0, a)
  {
    hide ChainOk, Lookup, Assigned;
    e := AssignedOnly(st, k, Str(v), 0, a);
  }

  /** make with a read authority. */
  lemma MakeReadLaw(st: Chains, k: string, v: string, x: string, a: byte, env: Env) returns (e: Entry)
    requires WellFormed(st)
    ensures var (reply, st') := Step(st, Make(k, v, [x]), a, env);
            if Barred(st, k, a) then (reply, st') == (DENIED, st)
            else if !IsLevel(x) then (reply, st') == (INVALID_AUTH, st)
            else if a < IntOf(x).1 then (reply, st') == (DENIED, st)
            else reply == OK && Only(st, st', k, Some(e)) && Made(Lookup(st, k), e, Str(v), IntOf(x).1, a)
  {
    hide ChainOk, Lookup, Assigned, IntOf;
    assert [x][0] == x;
    e := AssignedOnly(st, k, Str(v), if IntOf(x).1 <= a then IntOf(x).1 else 0, a);
  }

  /** make with a read and a write authority. */
  lemma MakeBothLaw(st: Chains, k: string, v: string, x: string, w: string, a: byte, env: Env) returns (e: Entry)
    requires WellFormed(st)
    ensures var (reply, st') := Step(st, Make(k, v, [x, w]), a, env);
            if Barred(st, k, a) then (reply, st') == (DENIED, st)
            else if !IsLevel(x) || !IsLevel(w) then (reply, st') == (INVALID_AUTH, st)
            else if a < IntOf(x).1 || a < IntOf(w).1 then (reply, st') == (DENIED, st)
            else if IntOf(x).1 > IntOf(w).1 then (reply, st') == (INVALID_AUTH, st)
            else reply == OK && Only(st, st', k, Some(e)) && Made(Lookup(st, k), e, Str(v), IntOf(x).1, IntOf(w).1)
  {
    hide ChainOk, Lookup, Assigned, IntOf;
    assert [x, w][0] == x && [x, w][1] == w;
    var r, l := IntOf(x).1, IntOf(w).1;
    e := AssignedOnly(st, k, Str(v), if r <= l then r else l, l);
  }

  // ------------------------------------------------ commands that build values

  /** The pieces the joined arguments fall into: the arguments themselves unless one of
      them contains a comma. */
  ghost predicate Pieced(parts: seq<string>, xs: seq<string>) {
    && Join(xs, ',') == Join(parts, ',') && SeparatorFree(xs, ',')
    && (SeparatorFree(parts, ',') && parts != [""] ==> xs == parts)
  }

  lemma JoinedPieces(parts: seq<string>) returns (xs: seq<string>)
    ensures xs == SplitOf(Join(parts, ','), ',') && Pieced(parts, xs)
  {
    hide Pieces, Join;
    var text := Join(parts, ',');
    xs := SplitOf(text, ',');
    MergeUndoesSplit(text, ',');
    PiecesFree(text, ',');
    SplitUndoesMerge(parts, ',');
  }

  lemma LMakeLaw(st: Chains, k: string, parts: seq<string>, a: byte, env: Env) returns (e: Entry, xs: seq<string>)
    requires WellFormed(st)
    ensures Pieced(parts, xs)
    ensures var (reply, st') := Step(st, LMake(k, parts), a, env);
            if Barred(st, k, a) then (reply, st') == (DENIED, st)
            else reply == Decimal(|parts|) && Only(st, st', k, Some(e)) && Made(Lookup(st, k), e, Lst(xs), 0, a)
  {
    hide ChainOk, Lookup, Assigned, Join, SplitOf, Decimal, Pieced;
    xs := JoinedPieces(parts);
    e := AssignedOnly(st, k, Lst(xs), 0, a);
  }

  lemma SMakeLaw(st: Chains, k: string, parts: seq<string>, a: byte, env: Env)
    returns (e: Entry, xs: seq<string>, b: Buckets)
    requires WellFormed(st)
    ensures Pieced(parts, xs) && Placed(b) && Members(b) == set x | x in xs
    ensures var (reply, st') := Step(st, SMake(k, parts), a, env);
            if Barred(st, k, a) then (reply, st') == (DENIED, st)
            else reply == Decimal(|Members(b)|) && Only(st, st', k, Some(e)) && Made(Lookup(st, k), e, St(b), 0, a)
  {
    hide ChainOk, Lookup, Assigned, Join, SplitOf, Decimal, Pieced, PushAll, Placed, Members, Flat;
    xs := JoinedPieces(parts);
    b := PushAll(NoBuckets(), xs);
    NoBucketsEmpty();
    PushAllPlaced(NoBuckets(), xs);
    FlatEnumerates(b);
    e := AssignedOnly(st, k, St(b), 0, a);
  }

  lemma NoBucketsEmpty()
    ensures Placed(NoBuckets()) && Members(NoBuckets()) == {}
  {
  }

  /** Every second piece named by the one before it; of equal names the last counts. */
  ghost function Named(xs: seq<string>): map<string, string> {
    if |xs| < 2 then map[] else map[xs[0] := xs[1]] + Named(xs[2..])
  }

  lemma {:induction false} PutAllNames(ps: Pairs, xs: seq<string>)
    ensures MapOf(PutAll(ps, xs)) == MapOf(ps) + Named(xs)
    decreases |xs|
  {
    hide MapOf, Put;
    if |xs| >= 2 {
      PutAllNames(Put(ps, xs[0], xs[1]), xs[2..]);
      PutUpdates(ps, xs[0], xs[1]);
      assert MapOf(ps)[xs[0] := xs[1]] + Named(xs[2..]) == MapOf(ps) + (map[xs[0] := xs[1]] + Named(xs[2..]));
    }
  }

  lemma HMakeLaw(st: Chains, k: string, parts: seq<string>, a: byte, env: Env)
    returns (e: Entry, xs: seq<string>, ps: Pairs)
    requires WellFormed(st)
    ensures Pieced(parts, xs) && DistinctFields(ps) && MapOf(ps) == Named(xs)
    ensures var (reply, st') := Step(st, HMake(k, parts), a, env);
            if |parts| % 2 == 1 then (reply, st') == (INVALID_COMMAND, st)
            else if Barred(st, k, a) then (reply, st') == (DENIED, st)
            else reply == OK && Only(st, st', k, Some(e)) && Made(Lookup(st, k), e, Mp(ps), 0, a)
  {
    hide ChainOk, Lookup, Assigned, Join, SplitOf, Pieced, PutAll, DistinctFields, Named;
    xs := JoinedPieces(parts);
    ps := PutAll([], xs);
    NoPairs();
    PutAllDistinct([], xs);
    PutAllNames([], xs);
    assert map[] + Named(xs) == Named(xs);
    e := AssignedOnly(st, k, Mp(ps), 0, a);
  }

  lemma NoPairs()
    ensures DistinctFields([]) && MapOf([]) == map[]
  {
  }

  // ------------------------------------------------------ del, authr and authw

  lemma DelLaw(st: Chains, k: string, a: byte, env: Env)
    requires WellFormed(st)
    ensures var (reply, st') := Step(st, Del(k), a, env);
            if Lookup(st, k).None? then (reply, st') == (NoSuchKey(k), st)
            else if Barred(st, k, a) then (reply, st') == (DENIED, st)
            else reply == OK && Only(st, st', k, None)
  {
    hide ChainOk, Lookup, Dropped, NoSuchKey;
    if Lookup(st, k).Some? {
      DroppedOnly(st, k);
    }
  }

  /** The read authority is set; the write authority stays, unless it is below. */
  lemma AuthRLaw(st: Chains, k: string, x: string, a: byte, env: Env) returns (e: Entry)
    requires WellFormed(st)
    ensures var (reply, st') := Step(st, AuthR(k, x), a, env);
            if Lookup(st, k).None? then (reply, st') == (NoSuchKey(k), st)
            else if !IsLevel(x) then (reply, st') == (INVALID_AUTH, st)
            else if a < IntOf(x).1 || Barred(st, k, a) then (reply, st') == (DENIED, st)
            else var was := Lookup(st, k).value;
                 && reply == OK && Only(st, st', k, Some(e)) && e.data == was.data
                 && e.authr == IntOf(x).1 && e.authw == (if was.authw >= IntOf(x).1 then was.authw else IntOf(x).1)
                 && e.ttl == was.ttl && e.timer == was.timer && e.finished == was.finished
  {
    hide ChainOk, Lookup, Replaced, NoSuchKey, IntOf;
    if Lookup(st, k).Some? {
      e := WithAuthr(Lookup(st, k).value, IntOf(x).1);
      ReplacedOnly(st, k, e);
    } else {
      e := NewEntry(Str(""), 0, 0);
    }
  }

  /** The write authority is set; the read authority stays, unless it is above. */
  lemma AuthWLaw(st: Chains, k: string, w: string, a: byte, env: Env) returns (e: Entry)
    requires WellFormed(st)
    ensures var (reply, st') := Step(st, AuthW(k, w), a, env);
            if Lookup(st, k).None? then (reply, st') == (NoSuchKey(k), st)
            else if !IsLevel(w) then (reply, st') == (INVALID_AUTH, st)
            else if a < IntOf(w).1 || Barred(st, k, a) then (reply, st') == (DENIED, st)
            else var was := Lookup(st, k).value;
                 && reply == OK && Only(st, st', k, Some(e)) && e.data == was.data
                 && e.authw == IntOf(w).1 && e.authr == (if was.authr <= IntOf(w).1 then was.authr else IntOf(w).1)
                 && e.ttl == was.ttl && e.timer == was.timer && e.finished == was.finished
  {
    hide ChainOk, Lookup, Replaced, NoSuchKey, IntOf;
    if Lookup(st, k).Some? {
      e := WithAuthw(Lookup(st, k).value, IntOf(w).1);
      ReplacedOnly(st, k, e);
    } else {
      e := NewEntry(Str(""), 0, 0);
    }
  }

  // ---------------------------------------------------------- expire and ttl

  /** A live entry gets its deadline; an expired one is dropped first. */
  lemma ExpireLaw(st: Chains, k: string, time: string, a: byte, env: Env)
    requires WellFormed(st)
    ensures var (reply, st') := Step(st, Expire(k, time), a, env);
            if !IntOf(time).0 then (reply, st') == (INVALID_TIME, st)
            else match Lookup(st, k) {
              case None => (reply, st') == (NoSuchKey(k), st)
              case Some(e) =>
                if !Alive(e, env.now) then reply == NoSuchKey(k) && Only(st, st', k, None)
                else if a < e.authw then (reply, st') == (DENIED, st)
                else reply == OK && Only(st, st', k, Some(e.(ttl := IntOf(time).1, timer := env.now)))
            }
  {
    hide ChainOk, Lookup, Replaced, Dropped, NoSuchKey, IntOf;
    if Lookup(st, k).Some? {
      DroppedOnly(st, k);
      ReplacedOnly(st, k, Lookup(st, k).value.(ttl := IntOf(time).1, timer := env.now));
    }
  }

  /** ttl answers the distance to the deadline and changes nothing; an expired entry goes. */
  lemma TtlLaw(st: Chains, k: string, a: byte, env: Env)
    requires WellFormed(st)
    ensures var (reply, st') := Step(st, Ttl(k), a, env);
            match Lookup(st, k) {
              case None => (reply, st') == (NoSuchKey(k), st)
              case Some(e) =>
                if !Alive(e, env.now) then reply == NoSuchKey(k) && Only(st, st', k, None)
                else if a < e.authr then (reply, st') == (DENIED, st)
                else (reply, st') == (Decimal(if e.ttl == -1 then -1 else e.timer + e.ttl - env.now), st)
            }
  {
    hide ChainOk, Lookup, Replaced, Dropped, NoSuchKey, Decimal;
    if Lookup(st, k).Some? {
      DroppedOnly(st, k);
      ReplacedBySame(st, k);
    }
  }

  /** After a granted expire with m seconds at time t, ttl at t' answers m - (t' - t) before
      t + m; from then on the key is gone. */
  lemma ExpireThenTtl(st: Chains, k: string, e: Entry, time: string, a: byte, b: byte, env: Env, env': Env)
    requires Holds(st, k, e) && Alive(e, env.now) && a >= e.authw && b >= e.authr
    requires IntOf(time).0 && IntOf(time).1 != -1
    ensures var m, st1 := IntOf(time).1, Step(st, Expire(k, time), a, env).1;
            var (reply, st2) := Step(st1, Ttl(k), b, env');
            if env'.now < env.now + m then (reply, st2) == (Decimal(m - (env'.now - env.now)), st1)
            else reply == NoSuchKey(k) && Only(st, st2, k, None)
  {
    hide ChainOk, Lookup, Step, NoSuchKey, Decimal, IntOf;
    ExpireLaw(st, k, time, a, env);
    var st1 := Step(st, Expire(k, time), a, env).1;
    TtlLaw(st1, k, b, env');
  }

  /** What was made can be read exactly at its read authority and above. */
  lemma MakeThenGet(st: Chains, k: string, v: string, x: string, a: byte, b: byte, env: Env, env': Env)
    requires WellFormed(st) && Lookup(st, k).None? && IsLevel(x) && IntOf(x).1 <= a
    ensures var st' := Step(st, Make(k, v, [x]), a, env).1;
            |st'| == TABLE_S && Step(st', Get(k), b, env') == (if b >= IntOf(x).1 then v else DENIED, st')
  {
    hide ChainOk, Lookup, StepMake, IntOf;
    var e := MakeReadLaw(st, k, v, x, a, env);
    AliveIs(e, env'.now);
  }

  // -------------------------------------------------------------------- keys

  lemma {:induction false} VisibleAre(st: Chains, keys: seq<string>, a: byte)
    requires |st| == TABLE_S && NoRepeats(keys)
    ensures NoRepeats(Visible(st, keys, a))
    ensures forall k :: k in Visible(st, keys, a) <==>
              k in keys && Lookup(st, k).Some? && Lookup(st, k).value.authr <= a
    decreases |keys|
  {
    hide Lookup;
    if keys != [] {
      var k, rest := keys[0], keys[1..];
      assert keys == [k] + rest;
      TailNoRepeats(keys);
      VisibleAre(st, rest, a);
      FreshFirst(k, Visible(st, rest, a));
    }
  }

  lemma TailNoRepeats(keys: seq<string>)
    requires NoRepeats(keys) && keys != []
    ensures NoRepeats(keys[1..]) && keys[0] !in keys[1..]
  {
  }

  /** keys answers the keys the caller may read, each once, joined by commas. */
  lemma KeysLaw(st: Chains, a: byte, env: Env) returns (ks: seq<string>)
    requires WellFormed(st)
    ensures Step(st, Keys, a, env) == (Join(ks, ','), st) && NoRepeats(ks)
    ensures forall k :: k in ks <==> Lookup(st, k).Some? && Lookup(st, k).value.authr <= a
  {
    hide ChainOk, Lookup, KeysOf, Visible, Join, NoRepeats;
    KeysEnumerate(st);
    VisibleAre(st, KeysOf(st), a);
    ks := Visible(st, KeysOf(st), a);
  }

  ghost predicate InSlotOrder(ks: seq<string>, from: int) {
    && (forall i :: 0 <= i < |ks| ==> from <= SlotOf(ks[i]))
    && (forall i, j :: 0 <= i < j < |ks| ==> SlotOf(ks[i]) <= SlotOf(ks[j]))
  }

  lemma OrderConcat(c: seq<string>, ks: seq<string>, from: int)
    requires (forall i :: 0 <= i < |c| ==> SlotOf(c[i]) == from) && InSlotOrder(ks, from + 1)
    ensures InSlotOrder(c + ks, from)
  {
    hide SlotOf;
  }

  /** Chains whose records hash to their positions, counted from one on. */
  ghost predicate SlotsFrom(b: Chains, from: int) {
    forall i, j :: 0 <= i < |b| && 0 <= j < |b[i]| ==> SlotOf(b[i][j].key) == from + i
  }

  lemma SlotsTail(b: Chains, from: int)
    requires SlotsFrom(b, from) && b != []
    ensures SlotsFrom(b[1..], from + 1) && forall i :: 0 <= i < |Listed(b[0])| ==> SlotOf(Listed(b[0])[i]) == from
  {
    hide SlotOf;
    assert forall i :: 0 <= i < |b[1..]| ==> b[1..][i] == b[i + 1];
  }

  lemma {:induction false} SlotBySlot(b: Chains, from: int)
    requires SlotsFrom(b, from)
    ensures InSlotOrder(KeysOf(b), from)
  {
    hide SlotOf, SlotsFrom;
    if b != [] {
      SlotsTail(b, from);
      SlotBySlot(b[1..], from + 1);
      OrderConcat(Listed(b[0]), KeysOf(b[1..]), from);
    }
  }

  /** The keys are listed slot by slot, and save writes the records in the same order. */
  lemma KeysInSlotOrder(st: Chains)
    requires WellFormed(st)
    ensures InSlotOrder(KeysOf(st), 0)
  {
    hide SlotOf, InSlotOrder;
    assert SlotsFrom(st, 0) by {
      assert forall i :: 0 <= i < |st| ==> ChainOk(st[i], i);
    }
    SlotBySlot(st, 0);
  }
}
