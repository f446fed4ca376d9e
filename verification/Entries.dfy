/** Values, entries and their authority and time-to-live rules: the class kv of
    src/kvstore.h and the two identical data encoders, on values. */
module Entries {
  import opened FieldPairs
  import opened SetBuckets
  import opened Text

  datatype Option<+T> = None | Some(value: T)

  datatype Kind = StringKind | ListKind | SetKind | MapKind

  datatype Data =
    | Str(text: string)
    | Lst(items: seq<string>)
    | St(buckets: Buckets)
    | Mp(pairs: Pairs)

  function KindOf(d: Data): Kind {
    match d
    case Str(_) => StringKind
    case Lst(_) => ListKind
    case St(_) => SetKind
    case Mp(_) => MapKind
  }

  /** What every container the program builds satisfies. */
  ghost predicate DataOk(d: Data) {
    match d
    case Str(_) => true
    case Lst(_) => true
    case St(b) => Placed(b)
    case Mp(ps) => DistinctFields(ps)
  }

  const EMPTY: string := "(empty)"

  function OrEmpty(s: string): string {
    if s != "" then s else EMPTY
  }

  /** data_decode: the text shown for a value and stored in a snapshot. */
  function Decode(d: Data): string {
    match d
    case Str(s) => s
    case Lst(items) => OrEmpty(Join(items, ','))
    case St(b) => OrEmpty(Join(Flat(b), ','))
    case Mp(ps) => if ps == [] then EMPTY else Join(Alternating(ps), ',')
  }

  function PushAll(b: Buckets, xs: seq<string>): Buckets
    decreases |xs|
  {
    if xs == [] then b else PushAll(Pushed(b, xs[0]), xs[1..])
  }

  function PutAll(ps: Pairs, xs: seq<string>): Pairs
    decreases |xs|
  {
    if |xs| < 2 then ps else PutAll(Put(ps, xs[0], xs[1]), xs[2..])
  }

  /** data_encode: containers are read from comma-separated text; an odd field at the end
      is ignored. */
  function Encode(text: string, kind: Kind): Data {
    match kind
    case StringKind => Str(text)
    case ListKind => Lst(SplitOf(text, ','))
    case SetKind => St(PushAll(NoBuckets(), SplitOf(text, ',')))
    case MapKind => Mp(PutAll([], SplitOf(text, ',')))
  }

  lemma {:induction false} PushAllPlaced(b: Buckets, xs: seq<string>)
    requires Placed(b)
    ensures Placed(PushAll(b, xs))
    ensures Members(PushAll(b, xs)) == Members(b) + (set x | x in xs)
    decreases |xs|
  {
    hide Placed, Members, Pushed;
    if xs != [] {
      PushInserts(b, xs[0]);
      PushAllPlaced(Pushed(b, xs[0]), xs[1..]);
      assert xs == [xs[0]] + xs[1..];
    }
  }

  lemma {:induction false} PutAllDistinct(ps: Pairs, xs: seq<string>)
    requires DistinctFields(ps)
    ensures DistinctFields(PutAll(ps, xs))
    decreases |xs|
  {
    if |xs| >= 2 {
      PutKeepsDistinct(ps, xs[0], xs[1]);
      PutAllDistinct(Put(ps, xs[0], xs[1]), xs[2..]);
    }
  }

  lemma EncodeOk(text: string, kind: Kind)
    ensures DataOk(Encode(text, kind)) && KindOf(Encode(text, kind)) == kind
  {
    PushAllPlaced(NoBuckets(), SplitOf(text, ','));
    PutAllDistinct([], SplitOf(text, ','));
  }

  // --------------------------------------------------------------- entries

  datatype Entry = Entry(data: Data, authr: int, authw: int, ttl: int, timer: int, finished: bool)

  /** A fresh entry takes the authorities as they are; its timer is not read while ttl is -1. */
  function NewEntry(d: Data, r: int, w: int): Entry {
    Entry(d, r, w, -1, 0, false)
  }

  function WithAuthr(e: Entry, r: int): Entry {
    e.(authr := r, authw := if r > e.authw then r else e.authw)
  }

  function WithAuthw(e: Entry, w: int): Entry {
    e.(authw := w, authr := if e.authr > w then w else e.authr)
  }

  function WithTtl(e: Entry, ttl: int, now: int): Entry {
    e.(ttl := ttl, timer := now)
  }

  /** set on an existing key: value, then both authorities; the deadline stays. */
  function Overwritten(e: Entry, d: Data, r: int, w: int): Entry {
    WithAuthw(WithAuthr(e.(data := d), r), w)
  }

  predicate IsExpired(e: Entry, now: int) {
    e.finished || (e.ttl != -1 && now - e.timer >= e.ttl)
  }

  /** get_ttl may set the finished flag. */
  function GetTtl(e: Entry, now: int): (int, Entry) {
    if e.ttl == -1 then (-1, e)
    else if IsExpired(e, now) then (0, e.(finished := true))
    else (e.ttl - (now - e.timer), e)
  }

  /** get_ttl: -1 without a deadline; on a live entry the seconds until it expires, exactly;
      on an expired one 0, and from then on the entry is expired at every time. */
  lemma TtlIsDistance(e: Entry, now: int)
    ensures var (n, e') := GetTtl(e, now);
            if e.ttl == -1 then n == -1 && e' == e
            else if IsExpired(e, now) then n == 0 && forall t: int :: IsExpired(e', t)
            else e' == e && n >= 1 && !IsExpired(e, now + n - 1) && IsExpired(e, now + n)
  {
  }

  ghost predicate AuthOrdered(e: Entry) {
    0 <= e.authr <= e.authw < 256
  }

  /** Whichever setter runs, the read authority never exceeds the write authority after it. */
  lemma SettersKeepOrder(e: Entry, d: Data, r: int, w: int)
    requires AuthOrdered(e) && 0 <= r < 256 && 0 <= w < 256
    ensures AuthOrdered(WithAuthr(e, r)) && WithAuthr(e, r).authr == r
    ensures AuthOrdered(WithAuthw(e, w)) && WithAuthw(e, w).authw == w
    ensures AuthOrdered(Overwritten(e, d, r, w)) && Overwritten(e, d, r, w).authw == w
    ensures Overwritten(e, d, r, w).authr == if r <= w then r else w
    ensures forall now :: IsExpired(Overwritten(e, d, r, w), now) == IsExpired(e, now)
  {
  }
}
