/** What a snapshot preserves: record by record, for whole tables, and over repeated
    saving and reading. */
module SnapshotLaws {
  import opened Cipher
  import opened Entries
  import opened FieldPairs
  import opened Hashing
  import opened Sequences
  import opened SetBuckets
  import opened Snapshot
  import opened Store
  import opened StringCipher
  import opened Text

  /** A password that inverts the key save encrypts with. */
  ghost predicate Opens(password: int) {
    KeyPair(1021, 1453, SNAPSHOT_E, password)
  }

  // ------------------------------------------------------- one record's text

  /** The value a record's text is read back as. */
  function ReadBack(d: Data): Data {
    if d.Str? then Str(Pieces(d.text, ',')[0]) else Encode(Decode(d), KindOf(d))
  }

  lemma KindCodeReads(k: Kind)
    ensures var t := KindCode(k); t != "" && ',' !in t && CleanText(t)
    ensures IntOf(KindCode(k)).0 && KindOfCode(IntOf(KindCode(k)).1) == Some(k)
  {
    var n := match k case StringKind => 0 case ListKind => 1 case SetKind => 2 case MapKind => 3;
    assert Digits(n) == KindCode(k) by {
      match k
      case StringKind => assert DigitChar(0) == '0';
      case ListKind => assert DigitChar(1) == '1';
      case SetKind => assert DigitChar(2) == '2';
      case MapKind => assert DigitChar(3) == '3';
    }
    PrintedIntReadsBack(n);
  }

  lemma AuthorityReads(a: int)
    requires 0 <= a < 256
    ensures var t := Decimal(a); t != "" && ',' !in t && CleanText(t) && IntOf(t) == (true, a)
  {
    DigitsAreDigits(a);
    PrintedIntReadsBack(a);
  }

  lemma FieldPieces(p: string, rest: string, more: seq<string>)
    requires ',' !in p && Pieces(rest, ',') == more
    ensures Pieces(Field(p, rest), ',') == [p] + more
  {
    PiecesFirst(p, rest, ',');
  }

  lemma FourInFront<T>(a: T, b: T, c: T, d: T, s: seq<T>)
    ensures [a] + ([b] + ([c] + ([d] + s))) == [a, b, c, d] + s
  {
  }

  lemma FourFields(a: string, b: string, c: string, k: string, v: string, vs: seq<string>)
    requires ',' !in a && ',' !in b && ',' !in c && ',' !in k && Pieces(v, ',') == vs
    ensures Pieces(Field(a, Field(b, Field(c, Field(k, v)))), ',') == [a, b, c, k] + vs
  {
    FieldPieces(k, v, vs);
    FieldPieces(c, Field(k, v), [k] + vs);
    FieldPieces(b, Field(c, Field(k, v)), [c] + ([k] + vs));
    FieldPieces(a, Field(b, Field(c, Field(k, v))), [b] + ([c] + ([k] + vs)));
    FourInFront(a, b, c, k, vs);
  }

  lemma ParsePieces(message: string, code: string, w: string, a: string, key: string, vs: seq<string>, kind: Kind)
    requires SplitOf(message, ',') == [code, w, a, key] + vs && |vs| >= 1
    requires code != "" && w != "" && a != ""
    requires IntOf(code).0 && KindOfCode(IntOf(code).1) == Some(kind)
    requires IntOf(w).0 && 0 <= IntOf(w).1 < 256 && IntOf(a).0 && 0 <= IntOf(a).1 < 256
    ensures ParseMessage(message) ==
            Good(key, Encode(if kind == StringKind then vs[0] else Join(vs, ','), kind), IntOf(a).1, IntOf(w).1)
  {
    hide SplitOf, IntOf, Encode, Join, KindOfCode;
    var args := SplitOf(message, ',');
    assert args[4..] == vs && args[4] == vs[0];
    NumberTheory.ModUnique(IntOf(a).1, 256, 0, IntOf(a).1);
    NumberTheory.ModUnique(IntOf(w).1, 256, 0, IntOf(w).1);
  }

  /** The form of a record: a digit for the type, then write authority, read authority, key
      and printed value, with commas between. */
  lemma RecordForm(r: Rec)
    ensures var code := match r.entry.data
                        case Str(_) => "0"
                        case Lst(_) => "1"
                        case St(_) => "2"
                        case Mp(_) => "3";
            RecordText(r) == code + "," + (Decimal(r.entry.authw) + "," +
                             (Decimal(r.entry.authr) + "," + (r.key + "," + Decode(r.entry.data))))
  {
    hide Decimal, Decode;
  }

  /** A line whose type, authorities and key are read as they stand, whatever numbers the
      authorities are: they are narrowed to the byte with the same residue. */
  lemma NarrowedParse(code: string, w: string, a: string, key: string, v: string, kind: Kind)
    requires ',' !in code && ',' !in w && ',' !in a && ',' !in key && code != "" && w != "" && a != ""
    requires IntOf(code).0 && KindOfCode(IntOf(code).1) == Some(kind) && IntOf(w).0 && IntOf(a).0
    ensures var l := ParseMessage(Field(code, Field(w, Field(a, Field(key, v)))));
            && l.Good? && l.key == key && KindOf(l.data) == kind
            && 0 <= l.authw < 256 && (IntOf(w).1 - l.authw) % 256 == 0
            && 0 <= l.authr < 256 && (IntOf(a).1 - l.authr) % 256 == 0
  {
    hide IntOf, Encode, Join, KindOfCode, Pieces;
    FourFields(code, w, a, key, v, Pieces(v, ','));
    var ps := Pieces(v, ',');
    var args := [code, w, a, key] + ps;
    assert args[4..] == ps && args[4] == ps[0];
    EncodeOk(if kind == StringKind then ps[0] else Join(ps, ','), kind);
    NumberTheory.ModDiff(IntOf(w).1, IntOf(w).1 % 256, 256);
    NumberTheory.ModDiff(IntOf(a).1, IntOf(a).1 % 256, 256);
  }

  /** The reader finds the fields of a record again; a string value is cut at its first
      comma, every other value is encoded from the whole printed text. */
  lemma RecordParses(r: Rec)
    requires RecOk(r) && ',' !in r.key
    ensures ParseMessage(RecordText(r)) == Good(r.key, ReadBack(r.entry.data), r.entry.authr, r.entry.authw)
  {
    var e := r.entry;
    var code, w, a, v := KindCode(KindOf(e.data)), Decimal(e.authw), Decimal(e.authr), Decode(e.data);
    KindCodeReads(KindOf(e.data));
    AuthorityReads(e.authw);
    AuthorityReads(e.authr);
    FourFields(code, w, a, r.key, v, Pieces(v, ','));
    JoinPieces(v, ',');
    ParsePieces(RecordText(r), code, w, a, r.key, Pieces(v, ','), KindOf(e.data));
  }

  // ------------------------------------------------ which values come back

  /** Equal as a string, a list, a set or a map. */
  ghost predicate SameMeaning(d: Data, d': Data) {
    match (d, d')
    case (Str(s), Str(s')) => s == s'
    case (Lst(xs), Lst(xs')) => xs == xs'
    case (St(b), St(b')) => Members(b) == Members(b')
    case (Mp(ps), Mp(ps')) => MapOf(ps) == MapOf(ps')
    case _ => false
  }

  lemma {:induction false} ReversePreserves(ps: Pairs)
    requires DistinctFields(ps)
    ensures DistinctFields(Reverse(ps)) && MapOf(Reverse(ps)) == MapOf(ps)
  {
    forall k | 0 <= k < |ps|
      ensures Reverse(ps)[k] == ps[|ps| - 1 - k]
    {
      ReverseAt(ps, k);
    }
    forall f
      ensures f in MapOf(ps) <==> f in MapOf(Reverse(ps))
      ensures f in MapOf(ps) ==> MapOf(ps)[f] == MapOf(Reverse(ps))[f]
    {
      MapLookup(ps, f);
      MapLookup(Reverse(ps), f);
      var k, l := FieldAt(ps, f), FieldAt(Reverse(ps), f);
      if k < |ps| {
        assert Reverse(ps)[|ps| - 1 - k] == ps[k];
      }
    }
  }

  /** Storable values come back exactly, but for the chain order of a field map. */
  lemma StorableReadsBack(d: Data)
    requires DataOk(d) && Storable(d)
    ensures ReadBack(d) == MirrorData(d) && SameMeaning(ReadBack(d), d)
  {
    match d
    case Str(s) =>
      assert ValueParts(d)[0] == s;
      PiecesJoin([s], ',');
    case Lst(items) =>
      SplitUndoesMerge(items, ',');
    case St(b) =>
      SplitUndoesMerge(Flat(b), ',');
      SetReadsBack(b);
    case Mp(ps) =>
      if ps == [] {
        EmptyMapReadsBack();
      } else {
        SplitUndoesMerge(Alternating(ps), ',');
        assert ps + [] == ps && Reverse(ps) + [] == Reverse(ps);
        PutAllReverses([], ps);
        ReversePreserves(ps);
      }
  }

  lemma EmptyMapReadsBack()
    ensures Encode(EMPTY, MapKind) == Mp([])
  {
    var commas := IndexOf(EMPTY, ',');
    assert ',' !in EMPTY;
    PiecesJoin([EMPTY], ',');
  }

  lemma NotSeparatorFree(ps: seq<string>, c: char) returns (i: nat)
    requires !SeparatorFree(ps, c)
    ensures i < |ps| && c in ps[i]
  {
    i :| 0 <= i < |ps| && c in ps[i];
  }

  /** A list that is not storable comes back as another list. */
  lemma ListLost(items: seq<string>)
    requires !Storable(Lst(items))
    ensures ReadBack(Lst(items)) != Lst(items)
  {
    SplitUndoesMerge(items, ',');
    SplitUndoesMerge([EMPTY], ',');
    EmptyTextIsClean();
    if Join(items, ',') == "" {
      assert ReadBack(Lst(items)) == Lst([EMPTY]);
      assert Join([EMPTY], ',') == EMPTY;
    }
  }

  lemma EmptyTextIsClean()
    ensures ',' !in EMPTY && SplitOf(EMPTY, ',') == [EMPTY]
  {
    PiecesJoin([EMPTY], ',');
  }

  /** A set that is not storable comes back as another set. */
  lemma SetLost(b: Buckets)
    requires Placed(b) && !Storable(St(b))
    ensures ReadBack(St(b)).St? && Members(ReadBack(St(b)).buckets) != Members(b)
  {
    var text := Decode(St(b));
    var parts := SplitOf(text, ',');
    PushAllPlaced(NoBuckets(), parts);
    assert Members(NoBuckets()) == {};
    FlatEnumerates(b);
    EmptyTextIsClean();
    if Join(Flat(b), ',') == "" {
      assert EMPTY in parts;
      if EMPTY in Members(b) {
        assert EMPTY in Flat(b);
        JoinOfNonEmpty(Flat(b), EMPTY);
      }
    } else {
      var i := NotSeparatorFree(Flat(b), ',');
      PiecesFree(text, ',');
      assert Flat(b)[i] in Members(b) && Flat(b)[i] !in parts;
    }
  }

  lemma {:induction false} JoinOfNonEmpty(ps: seq<string>, x: string)
    requires x in ps && x != ""
    ensures Join(ps, ',') != ""
  {
    if |ps| == 1 {
      assert ps[0] == x;
    }
  }

  /** Every field and value a field map is read back with comes from the text. */
  lemma {:induction false} PutAllFrom(ps: Pairs, xs: seq<string>, f: string)
    requires f in MapOf(PutAll(ps, xs))
    ensures f in MapOf(ps) || f in xs
    ensures MapOf(PutAll(ps, xs))[f] in xs || (f in MapOf(ps) && MapOf(PutAll(ps, xs))[f] == MapOf(ps)[f])
    decreases |xs|
  {
    if |xs| >= 2 {
      PutAllFrom(Put(ps, xs[0], xs[1]), xs[2..], f);
      PutUpdates(ps, xs[0], xs[1]);
    }
  }

  lemma FieldHere(ps: Pairs, k: nat)
    requires DistinctFields(ps) && k < |ps|
    ensures ps[k].0 in MapOf(ps) && MapOf(ps)[ps[k].0] == ps[k].1
  {
    hide MapOf;
    MapLookup(ps, ps[k].0);
    assert FieldAt(ps, ps[k].0) == k;
  }

  /** Reading pieces among which a field or its value is missing builds another map. */
  lemma MappingLost(ps: Pairs, k: nat, xs: seq<string>)
    requires DistinctFields(ps) && k < |ps| && (ps[k].0 !in xs || ps[k].1 !in xs)
    ensures MapOf(PutAll([], xs)) != MapOf(ps)
  {
    hide PutAll, DistinctFields, MapOf;
    var f := ps[k].0;
    FieldHere(ps, k);
    if f in MapOf(PutAll([], xs)) {
      PutAllFrom([], xs, f);
      EmptyMapping(f);
    }
  }

  /** A field map that is not storable comes back as another map. */
  lemma MapLost(ps: Pairs)
    requires DistinctFields(ps) && !Storable(Mp(ps))
    ensures ReadBack(Mp(ps)).Mp? && MapOf(ReadBack(Mp(ps)).pairs) != MapOf(ps)
  {
    hide PutAll, Pieces, Join, DistinctFields, MapOf, SeparatorFree;
    var xs := SplitOf(Decode(Mp(ps)), ',');
    var i := NotSeparatorFree(Alternating(ps), ',');
    NotAPiece(Decode(Mp(ps)), Alternating(ps)[i]);
    AlternatingAt(ps, i);
    MappingLost(ps, i / 2, xs);
  }

  lemma NotAPiece(s: string, x: string)
    requires ',' in x
    ensures x !in SplitOf(s, ',')
  {
    PiecesFree(s, ',');
  }

  lemma AlternatingAt(ps: Pairs, i: nat)
    requires i < 2 * |ps|
    ensures Alternating(ps)[i] == if i % 2 == 0 then ps[i / 2].0 else ps[i / 2].1
  {
    hide Alternating;
    var r, k := Alternating(ps), i / 2;
    assert r[2 * k] == ps[k].0 && r[2 * k + 1] == ps[k].1;
    if i % 2 == 0 {
      assert i == 2 * k;
    } else {
      assert i == 2 * k + 1;
    }
  }

  lemma EmptyMapping(f: string)
    ensures f !in MapOf([])
  {
  }

  /** A value keeps its meaning through a snapshot exactly when it is storable. */
  lemma ValueSurvives(d: Data)
    requires DataOk(d)
    ensures SameMeaning(ReadBack(d), d) <==> Storable(d)
  {
    if Storable(d) {
      StorableReadsBack(d);
    } else {
      match d
      case Str(s) =>
        PiecesFree(s, ',');
        assert ValueParts(d)[0] == s;
      case Lst(items) => ListLost(items);
      case St(b) => SetLost(b);
      case Mp(ps) => MapLost(ps);
    }
  }

  // -------------------------------------------------- one record's whole line

  lemma CleanField(s: string, rest: string)
    requires CleanText(s) && CleanText(rest)
    ensures CleanText(Field(s, rest))
  {
  }

  lemma {:induction false} CleanJoin(ps: seq<string>)
    requires AllClean(ps)
    ensures CleanText(Join(ps, ','))
  {
    if |ps| > 1 {
      CleanJoin(ps[1..]);
      CleanField(ps[0], Join(ps[1..], ','));
    }
  }

  lemma RecordIsClean(r: Rec)
    requires RecOk(r)
    ensures CleanText(RecordText(r)) && RecordText(r) != ""
  {
    var d := r.entry.data;
    CleanJoin(ValueParts(d));
    assert CleanText(EMPTY);
    assert CleanText(Decode(d)) by {
      if d.Str? {
        assert ValueParts(d)[0] == d.text;
      }
    }
    KindCodeReads(KindOf(d));
    AuthorityReads(r.entry.authw);
    AuthorityReads(r.entry.authr);
    CleanField(r.key, Decode(d));
    CleanField(Decimal(r.entry.authr), Field(r.key, Decode(d)));
    CleanField(Decimal(r.entry.authw), Field(Decimal(r.entry.authr), Field(r.key, Decode(d))));
  }

  lemma RecordDecrypts(r: Rec, password: int)
    requires RecOk(r) && Opens(password)
    ensures RecordLine(r) != "" && ParseLine(RecordLine(r), password) == ParseMessage(RecordText(r))
  {
    RecordIsClean(r);
    TextRoundTrip(1021, 1453, SNAPSHOT_E, password, RecordText(r));
  }

  /** The key, the authorities and the meaning of the value all come back from a line
      exactly when the key contains no comma and the value is storable. */
  lemma RecordSurvives(r: Rec, password: int)
    requires RecOk(r) && Opens(password)
    ensures var line := ParseLine(RecordLine(r), password);
            (line.Good? && line.key == r.key && SameMeaning(line.data, r.entry.data)
             && line.authr == r.entry.authr && line.authw == r.entry.authw)
            <==> ',' !in r.key && Storable(r.entry.data)
  {
    RecordDecrypts(r, password);
    if ',' in r.key {
      PiecesFree(RecordText(r), ',');
    } else {
      RecordParses(r);
      ValueSurvives(r.entry.data);
    }
  }

  predicate NoBlank(s: string) {
    forall i :: 0 <= i < |s| ==> IsDigit(s[i]) || s[i] == '\\'
  }

  /** A line holds digits and backslashes only, so the whitespace-separated reads of the
      file see each line whole. */
  lemma {:induction false} LinesHaveNoBlank(N: int, e: int, s: string)
    requires N > 0
    ensures NoBlank(Cipherline(N, e, s))
  {
    if s != "" {
      DigitsAreDigits(ModExp(N, e, s[0] as int % 256));
      LinesHaveNoBlank(N, e, s[1..]);
    }
  }

  // ------------------------------------------------------------ whole tables

  function MirrorTable(st: Chains): (m: Chains)
    ensures |m| == |st| && forall i :: 0 <= i < |st| ==> m[i] == MirrorChain(st[i])
  {
    if st == [] then [] else [MirrorChain(st[0])] + MirrorTable(st[1..])
  }

  function GoodLine(r: Rec): Line {
    Good(r.key, MirrorData(r.entry.data), r.entry.authr, r.entry.authw)
  }

  function GoodLines(c: seq<Rec>): (ls: seq<Line>)
    ensures |ls| == |c|
  {
    if c == [] then [] else [GoodLine(c[0])] + GoodLines(c[1..])
  }

  lemma ParsedCons(line: string, rest: seq<string>, password: int)
    requires line != ""
    ensures Parsed([line] + rest, password) == [ParseLine(line, password)] + Parsed(rest, password)
  {
    assert ([line] + rest)[1..] == rest;
  }

  lemma RecordReads(r: Rec, password: int)
    requires Opens(password) && StorableRec(r)
    ensures RecordLine(r) != "" && ParseLine(RecordLine(r), password) == GoodLine(r)
  {
    RecordDecrypts(r, password);
    RecordParses(r);
    StorableReadsBack(r.entry.data);
  }

  lemma {:induction false} ChainParses(c: seq<Rec>, rest: seq<string>, password: int)
    requires Opens(password) && forall j :: 0 <= j < |c| ==> StorableRec(c[j])
    ensures Parsed(ChainLines(c) + rest, password) == GoodLines(c) + Parsed(rest, password)
    decreases |c|
  {
    if c == [] {
      assert ChainLines(c) + rest == rest;
    } else {
      RecordReads(c[0], password);
      ChainParses(c[1..], rest, password);
      ParsedCons(RecordLine(c[0]), ChainLines(c[1..]) + rest, password);
      Assoc([RecordLine(c[0])], ChainLines(c[1..]), rest);
      Assoc([GoodLine(c[0])], GoodLines(c[1..]), Parsed(rest, password));
    }
  }

  lemma RecordApplies(st: Chains, i: nat, r: Rec, ls: seq<Line>)
    requires |st| == TABLE_S && SlotOf(r.key) == i && KeyAt(st[i], r.key) == |st[i]|
    ensures ApplyLines(st, [GoodLine(r)] + ls) == ApplyLines(st[i := [MirrorRec(r)] + st[i]], ls)
  {
    assert Assigned(st, r.key, MirrorData(r.entry.data), r.entry.authr, r.entry.authw)
        == st[i := [MirrorRec(r)] + st[i]];
    assert ([GoodLine(r)] + ls)[1..] == ls;
  }

  /** No key of c is in the chain s. */
  ghost predicate Apart(c: seq<Rec>, s: seq<Rec>) {
    forall j :: 0 <= j < |c| ==> KeyAt(s, c[j].key) == |s|
  }

  lemma ApartStep(c: seq<Rec>, s: seq<Rec>, x: Rec)
    requires c != [] && DistinctKeys(c) && Apart(c, s) && x.key == c[0].key
    ensures Apart(c[1..], [x] + s)
  {
    assert ([x] + s)[1..] == s;
  }

  lemma UpdateTwice<T>(s: seq<T>, i: nat, x: T, y: T)
    requires i < |s|
    ensures s[i := x][i := y] == s[i := y]
  {
  }

  /** Setting the records of one chain links them in front of the slot, last one first. */
  lemma {:induction false} ChainApplies(st: Chains, i: nat, c: seq<Rec>, ls: seq<Line>)
    requires |st| == TABLE_S && i < TABLE_S && ChainOk(c, i) && Apart(c, st[i])
    ensures ApplyLines(st, GoodLines(c) + ls) == ApplyLines(st[i := MirrorChain(c) + st[i]], ls)
    decreases |c|
  {
    if c == [] {
      assert GoodLines(c) + ls == ls;
      assert MirrorChain(c) + st[i] == st[i];
      assert st[i := st[i]] == st;
    } else {
      var s := [MirrorRec(c[0])] + st[i];
      Assoc([GoodLine(c[0])], GoodLines(c[1..]), ls);
      RecordApplies(st, i, c[0], GoodLines(c[1..]) + ls);
      ApartStep(c, st[i], MirrorRec(c[0]));
      ChainApplies(st[i := s], i, c[1..], ls);
      Assoc(MirrorChain(c[1..]), [MirrorRec(c[0])], st[i]);
      UpdateTwice(st, i, s, MirrorChain(c[1..]) + s);
    }
  }

  lemma {:induction false} TableReads(st: Chains, t: Chains, k: nat, password: int)
    requires StorableTable(st) && Opens(password) && k <= TABLE_S && |t| == TABLE_S
    requires forall i :: 0 <= i < TABLE_S ==> t[i] == if i < k then MirrorChain(st[i]) else []
    ensures ReadLines(t, SaveLines(st[k..]), password) == (Finished(true), MirrorTable(st))
    decreases TABLE_S - k
  {
    if k == TABLE_S {
      assert t == MirrorTable(st);
    } else {
      assert st[k..][0] == st[k] && st[k..][1..] == st[k + 1..];
      var rest := SaveLines(st[k + 1..]);
      assert ChainOk(st[k], k);
      ChainParses(st[k], rest, password);
      ChainApplies(t, k, st[k], Parsed(rest, password));
      assert MirrorChain(st[k]) + t[k] == MirrorChain(st[k]);
      TableReads(st, t[k := MirrorChain(st[k])], k + 1, password);
    }
  }

  /** Reading a saved storable table into an empty one succeeds and yields its mirror. */
  lemma ReadUndoesSave(st: Chains, password: int)
    requires StorableTable(st) && Opens(password)
    ensures ReadLines(NoChains(), SaveLines(st), password) == (Finished(true), MirrorTable(st))
  {
    assert st[0..] == st;
    TableReads(st, NoChains(), 0, password);
  }

  lemma MirrorKeyAt(c: seq<Rec>, m: seq<Rec>, key: string)
    requires DistinctKeys(c) && DistinctKeys(m) && IsMirror(c, m)
    ensures KeyAt(c, key) == |c| ==> KeyAt(m, key) == |m|
    ensures KeyAt(c, key) < |c| ==> KeyAt(m, key) < |m| && m[KeyAt(m, key)] == MirrorRec(c[KeyAt(c, key)])
  {
    var k, l := KeyAt(c, key), KeyAt(m, key);
    if k < |c| {
      assert m[|c| - 1 - k] == MirrorRec(c[k]);
      KeyAtIs(m, |c| - 1 - k);
    } else {
      forall j | 0 <= j < |m|
        ensures m[j].key != key
      {
        var i := |c| - 1 - j;
        assert m[j] == MirrorRec(c[i]);
      }
    }
  }

  lemma MirrorDistinct(c: seq<Rec>, m: seq<Rec>)
    requires DistinctKeys(c) && IsMirror(c, m)
    ensures DistinctKeys(m)
  {
    forall i, j | 0 <= i < j < |m|
      ensures m[i].key != m[j].key
    {
      var k, l := |c| - 1 - i, |c| - 1 - j;
      assert m[i] == MirrorRec(c[k]) && m[j] == MirrorRec(c[l]);
    }
  }

  lemma MirrorChainOk(c: seq<Rec>, m: seq<Rec>, slot: int)
    requires ChainOk(c, slot) && IsMirror(c, m)
    ensures ChainOk(m, slot)
  {
    MirrorDistinct(c, m);
    forall j | 0 <= j < |m|
      ensures SlotOf(m[j].key) == slot
    {
      var i := |c| - 1 - j;
      assert m[j] == MirrorRec(c[i]);
      assert m[j].key == c[i].key;
    }
  }

  lemma MirrorWellFormed(st: Chains)
    requires WellFormed(st)
    ensures WellFormed(MirrorTable(st))
  {
    forall i | 0 <= i < |st|
      ensures ChainOk(MirrorChain(st[i]), i)
    {
      MirrorChainIs(st[i]);
      MirrorChainOk(st[i], MirrorChain(st[i]), i);
    }
  }

  /** The same value and authorities, without a deadline. */
  ghost predicate SameButTtl(e: Entry, e': Entry) {
    && SameMeaning(e'.data, e.data) && KindOf(e'.data) == KindOf(e.data)
    && e'.authr == e.authr && e'.authw == e.authw && e'.ttl == -1 && !e'.finished
  }

  lemma MirrorRecSame(r: Rec)
    requires DataOk(r.entry.data)
    ensures MirrorRec(r).key == r.key && SameButTtl(r.entry, MirrorRec(r).entry)
  {
    if r.entry.data.Mp? {
      ReversePreserves(r.entry.data.pairs);
    }
  }

  lemma MirrorLookup(st: Chains, key: string)
    requires WellFormed(st)
    ensures match Lookup(st, key) {
              case None => Lookup(MirrorTable(st), key).None?
              case Some(e) => Lookup(MirrorTable(st), key) == Some(MirrorRec(Rec(key, e)).entry)
            }
  {
    var i := SlotOf(key);
    var c := st[i];
    assert ChainOk(c, i) && MirrorTable(st)[i] == MirrorChain(c);
    MirrorChainIs(c);
    MirrorDistinct(c, MirrorChain(c));
    MirrorKeyAt(c, MirrorChain(c), key);
    if KeyAt(c, key) < |c| {
      assert c[KeyAt(c, key)] == Rec(key, c[KeyAt(c, key)].entry);
    }
  }

  /** The same map: each key has a value of the same meaning and the same authorities
      before saving and after reading back, and no other key appears. */
  lemma MirrorSameMap(st: Chains, key: string)
    requires WellFormed(st) && AllDataOk(st)
    ensures WellFormed(MirrorTable(st))
    ensures match (Lookup(st, key), Lookup(MirrorTable(st), key)) {
              case (None, None) => true
              case (Some(e), Some(e')) => SameButTtl(e, e')
              case _ => false
            }
  {
    MirrorWellFormed(st);
    MirrorLookup(st, key);
    if Lookup(st, key).Some? {
      var i := SlotOf(key);
      assert DataOk(st[i][KeyAt(st[i], key)].entry.data);
      MirrorRecSame(Rec(key, Lookup(st, key).value));
    }
  }

  lemma MirrorRecTwice(r: Rec)
    ensures RecordLine(MirrorRec(MirrorRec(r))) == RecordLine(r)
  {
    if r.entry.data.Mp? {
      ReverseTwice(r.entry.data.pairs);
    }
  }

  lemma MirrorStorableRec(r: Rec)
    requires StorableRec(r)
    ensures StorableRec(MirrorRec(r))
  {
    var d := r.entry.data;
    if d.Mp? {
      var ps := d.pairs;
      ReversePreserves(ps);
      var xs, ys := Alternating(ps), Alternating(Reverse(ps));
      forall i | 0 <= i < |ys|
        ensures CleanText(ys[i]) && ',' !in ys[i]
      {
        ReverseAt(ps, i / 2);
        var k := |ps| - 1 - i / 2;
        assert ys[i] == if i % 2 == 0 then xs[2 * k] else xs[2 * k + 1];
      }
    }
  }

  lemma MirrorStorableChain(c: seq<Rec>, m: seq<Rec>)
    requires IsMirror(c, m) && forall j :: 0 <= j < |c| ==> StorableRec(c[j])
    ensures forall j :: 0 <= j < |m| ==> StorableRec(m[j])
  {
    forall j | 0 <= j < |m|
      ensures StorableRec(m[j])
    {
      var i := |c| - 1 - j;
      assert m[j] == MirrorRec(c[i]);
      MirrorStorableRec(c[i]);
    }
  }

  lemma MirrorStorable(st: Chains)
    requires StorableTable(st)
    ensures StorableTable(MirrorTable(st))
  {
    MirrorWellFormed(st);
    forall i | 0 <= i < |st|
      ensures forall j :: 0 <= j < |st[i]| ==> StorableRec(MirrorTable(st)[i][j])
    {
      MirrorChainIs(st[i]);
      MirrorStorableChain(st[i], MirrorChain(st[i]));
    }
  }

  lemma MirrorChainTwice(c: seq<Rec>, m: seq<Rec>, n: seq<Rec>)
    requires IsMirror(c, m) && IsMirror(m, n)
    ensures ChainLines(n) == ChainLines(c)
  {
    forall k | 0 <= k < |c|
      ensures ChainLines(n)[k] == ChainLines(c)[k]
    {
      var j := |c| - 1 - k;
      assert m[j] == MirrorRec(c[k]) && n[k] == MirrorRec(m[j]);
      MirrorRecTwice(c[k]);
      ChainLinesAt(n, k);
      ChainLinesAt(c, k);
    }
  }

  lemma {:induction false} SameChainsSameFile(s: Chains, t: Chains)
    requires |s| == |t| && forall i :: 0 <= i < |s| ==> ChainLines(s[i]) == ChainLines(t[i])
    ensures SaveLines(s) == SaveLines(t)
  {
    if s != [] {
      SameChainsSameFile(s[1..], t[1..]);
    }
  }

  /** Saving, reading, saving, reading and saving again writes the first file again,
      although each reading turns every chain around. */
  lemma ThirdFileIsFirst(st: Chains, password: int)
    requires StorableTable(st) && Opens(password)
    ensures var once := ReadLines(NoChains(), SaveLines(st), password).1;
            |once| == TABLE_S &&
            var twice := ReadLines(NoChains(), SaveLines(once), password).1;
            SaveLines(twice) == SaveLines(st)
  {
    ReadUndoesSave(st, password);
    MirrorStorable(st);
    ReadUndoesSave(MirrorTable(st), password);
    forall i | 0 <= i < |st|
      ensures ChainLines(MirrorTable(MirrorTable(st))[i]) == ChainLines(st[i])
    {
      var m := MirrorChain(st[i]);
      MirrorChainIs(st[i]);
      MirrorChainIs(m);
      MirrorChainTwice(st[i], m, MirrorChain(m));
    }
    SameChainsSameFile(MirrorTable(MirrorTable(st)), st);
  }
}
