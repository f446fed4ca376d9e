/** The snapshot format: Hash::save prints one encrypted line per record, Hash::read parses
    the lines back into a table. */
module Snapshot {
  import opened Cipher
  import opened Entries
  import opened FieldPairs
  import opened Hashing
  import opened Sequences
  import opened SetBuckets
  import opened Store
  import opened StringCipher
  import opened Text

  function KindCode(k: Kind): string {
    match k
    case StringKind => "0"
    case ListKind => "1"
    case SetKind => "2"
    case MapKind => "3"
  }

  function Field(s: string, rest: string): string {
    s + [','] + rest
  }

  /** get_kv_str: type, write authority, read authority, key, value. */
  function RecordText(r: Rec): string {
    Field(KindCode(KindOf(r.entry.data)),
          Field(Decimal(r.entry.authw),
                Field(Decimal(r.entry.authr), Field(r.key, Decode(r.entry.data)))))
  }

  function RecordLine(r: Rec): string {
    Cipherline(SNAPSHOT_N, SNAPSHOT_E, RecordText(r))
  }

  function ChainLines(c: seq<Rec>): (ls: seq<string>)
    ensures |ls| == |c|
  {
    if c == [] then [] else [RecordLine(c[0])] + ChainLines(c[1..])
  }

  /** The file save writes. */
  function SaveLines(st: Chains): seq<string> {
    if st == [] then [] else ChainLines(st[0]) + SaveLines(st[1..])
  }

  lemma {:induction false} ChainLinesAt(c: seq<Rec>, k: nat)
    requires k < |c|
    ensures ChainLines(c)[k] == RecordLine(c[k])
  {
    hide RecordLine;
    if k > 0 {
      ChainLinesAt(c[1..], k - 1);
    }
  }

  lemma {:induction false} SaveLinesStep(st: Chains, i: nat)
    requires i < |st|
    ensures SaveLines(st[..i + 1]) == SaveLines(st[..i]) + ChainLines(st[i])
    decreases i, st
  {
    if i == 0 {
      assert st[..1] == [st[0]] && [st[0]][1..] == [];
      assert ChainLines(st[0]) + [] == [] + ChainLines(st[0]);
    } else {
      var a, b := st[..i + 1], st[..i];
      assert a[1..] == st[1..][..i] && b[1..] == st[1..][..i - 1];
      SaveLinesStep(st[1..], i - 1);
      Assoc(ChainLines(st[0]), SaveLines(b[1..]), ChainLines(st[i]));
    }
  }

  // --------------------------------------------------------------- reading

  /** What one line yields: a record to set, a refusal, an exception out of strtoint, or a
      type code outside 0..3, for which the code stores a dangling value. */
  datatype Line = Good(key: string, data: Data, authr: int, authw: int) | Damaged | LineThrew | Dangling

  function KindOfCode(code: int): Option<Kind> {
    if code == 0 then Some(StringKind)
    else if code == 1 then Some(ListKind)
    else if code == 2 then Some(SetKind)
    else if code == 3 then Some(MapKind)
    else None
  }

  function ParseMessage(message: string): Line {
    var args := SplitOf(message, ',');
    if |args| < 5 then Damaged
    else if args[0] == "" || args[1] == "" || args[2] == "" then LineThrew
    else if !IntOf(args[0]).0 || !IntOf(args[1]).0 || !IntOf(args[2]).0 then Damaged
    else match KindOfCode(IntOf(args[0]).1)
      case None => Dangling
      case Some(kind) =>
        var text := if kind == StringKind then args[4] else Join(args[4..], ',');
        Good(args[3], Encode(text, kind), IntOf(args[2]).1 % 256, IntOf(args[1]).1 % 256)
  }

  function ParseLine(line: string, password: int): Line {
    match DecodeText(SNAPSHOT_N, password, line)
    case Threw => LineThrew
    case Cracked => Damaged
    case Decoded(message) => ParseMessage(message)
  }

  datatype ReadOutcome = Finished(ok: bool) | ReadThrew | ReadDangling

  /** A file is the sequence of its whitespace-separated words, since the reader takes them
      with >>; the empty text is what it gets at the end of the file. */
  function Parsed(lines: seq<string>, password: int): seq<Line> {
    if lines == [] || lines[0] == "" then []
    else [ParseLine(lines[0], password)] + Parsed(lines[1..], password)
  }

  /** The table after one line, and the outcome if the line ends the reading. */
  function AfterLine(st: Chains, l: Line): (r: (Option<ReadOutcome>, Chains))
    requires |st| == TABLE_S
    ensures |r.1| == TABLE_S
  {
    match l
    case Damaged => (Some(Finished(false)), st)
    case LineThrew => (Some(ReadThrew), st)
    case Dangling => (Some(ReadDangling), st)
    case Good(key, data, r, w) => (None, Assigned(st, key, data, r, w))
  }

  /** Sets record after record and stops at the first bad line, keeping what it has set. */
  function ApplyLines(st: Chains, ls: seq<Line>): (r: (ReadOutcome, Chains))
    requires |st| == TABLE_S
    ensures |r.1| == TABLE_S
    decreases |ls|
  {
    if ls == [] then (Finished(true), st)
    else match AfterLine(st, ls[0])
      case (None, st') => ApplyLines(st', ls[1..])
      case (Some(outcome), st') => (outcome, st')
  }

  /** The reading loop. */
  function ReadLines(st: Chains, lines: seq<string>, password: int): (r: (ReadOutcome, Chains))
    requires |st| == TABLE_S
    ensures |r.1| == TABLE_S
  {
    ApplyLines(st, Parsed(lines, password))
  }

  // -------------------------------------------------------- storable values

  ghost predicate CleanText(s: string) {
    IsBytes(s) && '\0' !in s
  }

  ghost predicate AllClean(ps: seq<string>) {
    forall i :: 0 <= i < |ps| ==> CleanText(ps[i])
  }

  /** The pieces a value is printed as. */
  function ValueParts(d: Data): seq<string> {
    match d
    case Str(s) => [s]
    case Lst(items) => items
    case St(b) => Flat(b)
    case Mp(ps) => Alternating(ps)
  }

  /** The values a snapshot preserves: no piece contains a comma, and a list or set does
      not print as the empty text. An empty field map does survive. */
  ghost predicate Storable(d: Data) {
    && SeparatorFree(ValueParts(d), ',')
    && (d.Lst? || d.St? ==> ValueParts(d) != [] && ValueParts(d) != [""])
  }

  ghost predicate RecOk(r: Rec) {
    && CleanText(r.key) && AllClean(ValueParts(r.entry.data)) && DataOk(r.entry.data)
    && 0 <= r.entry.authr < 256 && 0 <= r.entry.authw < 256
  }

  ghost predicate StorableRec(r: Rec) {
    RecOk(r) && ',' !in r.key && Storable(r.entry.data)
  }

  ghost predicate StorableTable(st: Chains) {
    WellFormed(st) && forall i, j :: 0 <= i < |st| && 0 <= j < |st[i]| ==> StorableRec(st[i][j])
  }

  // ------------------------------------------- what reading makes of a value

  /** Field maps come back with their chain reversed, everything else as it was. */
  function MirrorData(d: Data): Data {
    if d.Mp? then Mp(Reverse(d.pairs)) else d
  }

  /** A record that was read back: authorities kept, deadline gone. */
  function MirrorRec(r: Rec): Rec {
    Rec(r.key, NewEntry(MirrorData(r.entry.data), r.entry.authr, r.entry.authw))
  }

  /** A chain read back: the records in reverse order. */
  function MirrorChain(c: seq<Rec>): (m: seq<Rec>)
    ensures |m| == |c|
  {
    if c == [] then [] else MirrorChain(c[1..]) + [MirrorRec(c[0])]
  }

  ghost predicate IsMirror(c: seq<Rec>, m: seq<Rec>) {
    |m| == |c| && forall i, j :: 0 <= i < |c| && j == |c| - 1 - i ==> m[j] == MirrorRec(c[i])
  }

  lemma {:induction false} MirrorChainIs(c: seq<Rec>)
    ensures IsMirror(c, MirrorChain(c))
  {
    if c != [] {
      var m := MirrorChain(c);
      MirrorChainIs(c[1..]);
      forall i, j | 0 <= i < |c| && j == |c| - 1 - i
        ensures m[j] == MirrorRec(c[i])
      {
        if i > 0 {
          assert c[1..][i - 1] == c[i];
        }
      }
    }
  }

  /** Reading back the alternating list of a field map rebuilds it back to front. */
  lemma {:induction false} PutAllReverses(ps: Pairs, qs: Pairs)
    requires DistinctFields(qs + ps)
    ensures PutAll(ps, Alternating(qs)) == Reverse(qs) + ps
    decreases |qs|
  {
    if qs == [] {
      assert [] + ps == ps;
    } else {
      var (f, v) := qs[0];
      NewField(ps, qs);
      var as' := Alternating(qs);
      assert as'[2..] == Alternating(qs[1..]);
      MiddleMoves(qs, ps);
      PutAllReverses([(f, v)] + ps, qs[1..]);
      Assoc(Reverse(qs[1..]), [qs[0]], ps);
    }
  }

  lemma NewField(ps: Pairs, qs: Pairs)
    requires DistinctFields(qs + ps) && qs != []
    ensures Put(ps, qs[0].0, qs[0].1) == [qs[0]] + ps
  {
    var s := qs + ps;
    assert forall i :: 0 <= i < |ps| ==> s[|qs| + i] == ps[i];
    assert s[0] == qs[0];
  }

  lemma MiddleMoves(qs: Pairs, ps: Pairs)
    requires DistinctFields(qs + ps) && qs != []
    ensures DistinctFields(qs[1..] + ([qs[0]] + ps))
  {
    var s, t := qs + ps, qs[1..] + ([qs[0]] + ps);
    var n := |qs| - 1;
    assert t[n] == s[0];
    assert forall i :: 0 <= i < |t| && i != n ==> t[i] == s[if i < n then i + 1 else i];
  }

  // ---------------------------------------------------- sets come back whole

  lemma {:induction false} PushAllConcat(b: Buckets, xs: seq<string>, ys: seq<string>)
    ensures PushAll(b, xs + ys) == PushAll(PushAll(b, xs), ys)
    decreases |xs|
  {
    if xs == [] {
      assert xs + ys == ys;
    } else {
      assert (xs + ys)[1..] == xs[1..] + ys;
      PushAllConcat(Pushed(b, xs[0]), xs[1..], ys);
    }
  }

  /** Pushing the elements of one bucket appends them to it in order. */
  lemma {:induction false} PushAllInBucket(b: Buckets, i: nat, xs: seq<string>)
    requires i < SET_S && NoRepeats(b[i] + xs)
    requires forall x :: x in xs ==> SetSlot(x) == i
    ensures PushAll(b, xs) == b[i := b[i] + xs]
    decreases |xs|
  {
    if xs == [] {
      assert b[i] + xs == b[i];
    } else {
      var s := b[i] + xs;
      var c := b[i := b[i] + [xs[0]]];
      assert forall k :: 0 <= k < |b[i]| ==> s[k] == b[i][k];
      assert s[|b[i]|] == xs[0];
      assert Pushed(b, xs[0]) == c;
      Assoc(b[i], [xs[0]], xs[1..]);
      assert [xs[0]] + xs[1..] == xs;
      PushAllInBucket(c, i, xs[1..]);
    }
  }

  /** b up to bucket k, and nothing behind it. */
  ghost predicate FilledTo(b: Buckets, c: Buckets, k: nat) {
    forall i :: 0 <= i < SET_S ==> c[i] == if i < k then b[i] else []
  }

  lemma BucketFills(b: Buckets, c: Buckets, k: nat)
    requires Placed(b) && k < SET_S && FilledTo(b, c, k)
    ensures PushAll(c, b[k]) == c[k := b[k]] && FilledTo(b, c[k := b[k]], k + 1)
  {
    hide SetSlot, PushAll;
    assert c[k] + b[k] == b[k];
    PushAllInBucket(c, k, b[k]);
  }

  lemma FlatFrom(b: Buckets, k: nat)
    requires k < SET_S
    ensures Flat(b[k..]) == b[k] + Flat(b[k + 1..])
  {
    assert b[k..][0] == b[k] && b[k..][1..] == b[k + 1..];
  }

  lemma {:induction false} PushAllFlat(b: Buckets, c: Buckets, k: nat)
    requires Placed(b) && k <= SET_S && FilledTo(b, c, k)
    ensures PushAll(c, Flat(b[k..])) == b
    decreases SET_S - k
  {
    if k == SET_S {
      assert c == b && b[k..] == [];
    } else {
      hide Flat, Placed, SetSlot, PushAll, FilledTo;
      FlatFrom(b, k);
      BucketFills(b, c, k);
      PushAllConcat(c, b[k], Flat(b[k + 1..]));
      PushAllFlat(b, c[k := b[k]], k + 1);
    }
  }

  lemma SetReadsBack(b: Buckets)
    requires Placed(b)
    ensures PushAll(NoBuckets(), Flat(b)) == b
  {
    hide PushAll, Flat, Placed;
    assert b[0..] == b;
    PushAllFlat(b, NoBuckets(), 0);
  }
}
