/** Snapshots as maps: what reading the file of one table does to any other, key by key,
    and exactly when a whole table comes back as the same map. */
module SnapshotMaps {
  import opened Entries
  import opened Hashing
  import opened Snapshot
  import opened SnapshotLaws
  import opened Store
  import opened Text

  // ------------------------------------------------------- records and lines

  /** The records of a table in the order in which save writes them. */
  function Records(st: Chains): seq<Rec> {
    if st == [] then [] else st[0] + Records(st[1..])
  }

  lemma {:induction false} FileLines(st: Chains)
    ensures |SaveLines(st)| == |Records(st)| == |KeysOf(st)|
    ensures forall i :: 0 <= i < |Records(st)| ==> SaveLines(st)[i] == RecordLine(Records(st)[i])
    ensures forall i :: 0 <= i < |Records(st)| ==> KeysOf(st)[i] == Records(st)[i].key
  {
    hide RecordLine;
    if st != [] {
      var c, rest := st[0], st[1..];
      FileLines(rest);
      forall i | 0 <= i < |Records(st)|
        ensures SaveLines(st)[i] == RecordLine(Records(st)[i]) && KeysOf(st)[i] == Records(st)[i].key
      {
        if i < |c| {
          ChainLinesAt(c, i);
        } else {
          assert Records(st)[i] == Records(rest)[i - |c|];
        }
      }
    }
  }

  lemma {:induction false} RecordPlace(st: Chains, i: nat) returns (a: nat, b: nat)
    requires i < |Records(st)|
    ensures a < |st| && b < |st[a]| && st[a][b] == Records(st)[i]
  {
    if i < |st[0]| {
      a, b := 0, i;
    } else {
      a, b := RecordPlace(st[1..], i - |st[0]|);
      a := a + 1;
    }
  }

  lemma {:induction false} PlaceRecord(st: Chains, a: nat, b: nat) returns (i: nat)
    requires a < |st| && b < |st[a]|
    ensures i < |Records(st)| && Records(st)[i] == st[a][b]
  {
    if a == 0 {
      i := b;
    } else {
      i := PlaceRecord(st[1..], a - 1, b);
      i := |st[0]| + i;
    }
  }

  /** The records of a well-formed table are its map, each key once. */
  lemma RecordsAreMap(st: Chains, i: nat)
    requires WellFormed(st) && i < |Records(st)|
    ensures Lookup(st, Records(st)[i].key) == Some(Records(st)[i].entry)
    ensures forall j :: 0 <= j < |Records(st)| && j != i ==> Records(st)[j].key != Records(st)[i].key
  {
    hide SlotOf;
    var a, b := RecordPlace(st, i);
    LookupHere(st, a, b);
    FileLines(st);
    KeysEnumerate(st);
    var ks := KeysOf(st);
    forall j | 0 <= j < |Records(st)| && j != i
      ensures Records(st)[j].key != Records(st)[i].key
    {
      assert ks[j] == Records(st)[j].key && ks[i] == Records(st)[i].key;
    }
  }

  lemma KeyHasRecord(st: Chains, key: string) returns (i: nat)
    requires WellFormed(st) && Lookup(st, key).Some?
    ensures i < |Records(st)| && Records(st)[i] == Rec(key, Lookup(st, key).value)
  {
    hide SlotOf;
    var a := SlotOf(key);
    i := PlaceRecord(st, a, KeyAt(st[a], key));
  }

  lemma {:induction false} ParsedAll(lines: seq<string>, password: int)
    requires forall i :: 0 <= i < |lines| ==> lines[i] != ""
    ensures |Parsed(lines, password)| == |lines|
    ensures forall i :: 0 <= i < |lines| ==> Parsed(lines, password)[i] == ParseLine(lines[i], password)
  {
    hide ParseLine;
    if lines != [] {
      ParsedAll(lines[1..], password);
      assert forall i :: 0 < i < |lines| ==> lines[i] == lines[1..][i - 1];
    }
  }

  lemma ThreePieces(a: string, b: string, c: string, rest: string, ps: seq<string>)
    requires ',' !in a && ',' !in b && ',' !in c && Pieces(rest, ',') == ps
    ensures Pieces(Field(a, Field(b, Field(c, rest))), ',') == [a, b, c] + ps
  {
    hide Pieces, Field;
    FieldPieces(c, rest, ps);
    FieldPieces(b, Field(c, rest), [c] + ps);
    FieldPieces(a, Field(b, Field(c, rest)), [b] + ([c] + ps));
    assert [a] + ([b] + ([c] + ps)) == [a, b, c] + ps;
  }

  /** What the reader takes for the key: the part before the first comma. */
  function CutKey(key: string): string {
    key[..IndexOf(key, ',')]
  }

  lemma FirstPiece(key: string, v: string)
    ensures Pieces(Field(key, v), ',')[0] == CutKey(key)
  {
    var i := IndexOf(key, ',');
    var rest := Field(key, v);
    assert rest == key[..i] + (key[i..] + [','] + v);
    IndexOfFirst(key[..i], key[i..] + [','] + v, ',');
    assert rest[..i] == key[..i];
  }

  /** The pieces of a record's text: three numbers, then those of key and value, of which
      there are at least two. */
  lemma RecordPieces(r: Rec) returns (key: string, vs: seq<string>)
    requires RecOk(r)
    ensures |vs| >= 1 && ',' !in key && key == CutKey(r.key)
    ensures SplitOf(RecordText(r), ',') ==
            [KindCode(KindOf(r.entry.data)), Decimal(r.entry.authw), Decimal(r.entry.authr), key] + vs
  {
    hide RecOk, Decode, KindCode, Decimal, Pieces, CleanText;
    var e := r.entry;
    var code, w, a, rest := KindCode(KindOf(e.data)), Decimal(e.authw), Decimal(e.authr), Field(r.key, Decode(e.data));
    RecordNumbers(r);
    TwoPieces(r.key, Decode(e.data));
    var ps := Pieces(rest, ',');
    PiecesFree(rest, ',');
    ThreePieces(code, w, a, rest, ps);
    key, vs := ps[0], ps[1..];
    FirstPiece(r.key, Decode(e.data));
    assert [code, w, a] + ps == [code, w, a, key] + vs;
  }

  lemma TwoPieces(key: string, v: string)
    ensures |Pieces(Field(key, v), ',')| >= 2
  {
    var rest := Field(key, v);
    assert rest[|key|] == ',';
    var i := IndexOf(rest, ',');
    assert Pieces(rest, ',') == [rest[..i]] + Pieces(rest[i + 1..], ',');
  }

  lemma RecordNumbers(r: Rec)
    requires RecOk(r)
    ensures var code := KindCode(KindOf(r.entry.data));
            code != "" && ',' !in code && IntOf(code).0 && KindOfCode(IntOf(code).1) == Some(KindOf(r.entry.data))
    ensures var w := Decimal(r.entry.authw); w != "" && ',' !in w && IntOf(w) == (true, r.entry.authw)
    ensures var a := Decimal(r.entry.authr); a != "" && ',' !in a && IntOf(a) == (true, r.entry.authr)
    ensures 0 <= r.entry.authw < 256 && 0 <= r.entry.authr < 256
  {
    hide KindCode, Decimal, IntOf, KindOfCode, CleanText;
    KindCodeReads(KindOf(r.entry.data));
    AuthorityReads(r.entry.authw);
    AuthorityReads(r.entry.authr);
  }

  /** Every line that save writes is accepted, with the authorities of its record; a key
      with a comma is cut, so no key that is read contains one. */
  lemma RecordIsAccepted(r: Rec, password: int)
    requires RecOk(r) && Opens(password)
    ensures RecordLine(r) != ""
    ensures var l := ParseLine(RecordLine(r), password);
            && l.Good? && l.authr == r.entry.authr && l.authw == r.entry.authw && ',' !in l.key && DataOk(l.data)
            && l.key == CutKey(r.key) && KindOf(l.data) == KindOf(r.entry.data)
            && (',' !in r.key ==> l.key == r.key && l.data == ReadBack(r.entry.data))
  {
    hide RecOk, RecordLine, RecordText, ParseLine, ParseMessage, Encode, ReadBack, SplitOf, KindCode, Decimal, IntOf;
    hide DataOk, Opens, KindOfCode;
    RecordDecrypts(r, password);
    var kind := KindOf(r.entry.data);
    var key, vs := RecordPieces(r);
    RecordNumbers(r);
    ParsePieces(RecordText(r), KindCode(kind), Decimal(r.entry.authw), Decimal(r.entry.authr), key, vs, kind);
    EncodeOk(if kind == StringKind then vs[0] else Join(vs, ','), kind);
    if ',' !in r.key {
      RecordParses(r);
    }
  }

  // --------------------------------------------------- setting line after line

  ghost predicate AllGood(gs: seq<Line>) {
    forall i :: 0 <= i < |gs| ==> gs[i].Good?
  }

  /** No other line has the key of line i. */
  ghost predicate OnlyLine(gs: seq<Line>, i: nat)
    requires AllGood(gs) && i < |gs|
  {
    forall j :: 0 <= j < |gs| && j != i ==> gs[j].key != gs[i].key
  }

  /** The entry under a key after it has been set. */
  function AfterSet(was: Option<Entry>, d: Data, r: int, w: int): Entry {
    match was
    case None => NewEntry(d, r, w)
    case Some(e) => Overwritten(e, d, r, w)
  }

  lemma AssignedLookup(st: Chains, key: string, d: Data, r: int, w: int, other: string)
    requires WellFormed(st)
    ensures WellFormed(Assigned(st, key, d, r, w))
    ensures Lookup(Assigned(st, key, d, r, w), other) ==
            if other == key then Some(AfterSet(Lookup(st, key), d, r, w)) else Lookup(st, other)
  {
    AssignedRefines(st, key, d, r, w, other);
  }

  /** Setting good lines succeeds and touches only their keys. */
  lemma {:induction false} AppliedElsewhere(st: Chains, gs: seq<Line>, key: string)
    requires WellFormed(st) && AllGood(gs)
    ensures ApplyLines(st, gs).0 == Finished(true) && WellFormed(ApplyLines(st, gs).1)
    ensures (forall i :: 0 <= i < |gs| ==> gs[i].key != key) ==> Lookup(ApplyLines(st, gs).1, key) == Lookup(st, key)
    decreases |gs|
  {
    hide SlotOf, Assigned, Lookup;
    if gs != [] {
      var g := gs[0];
      AssignedLookup(st, g.key, g.data, g.authr, g.authw, key);
      AppliedElsewhere(Assigned(st, g.key, g.data, g.authr, g.authw), gs[1..], key);
    }
  }

  /** A key that occurs once is set once. */
  lemma {:induction false} AppliedOnce(st: Chains, gs: seq<Line>, i: nat)
    requires WellFormed(st) && AllGood(gs) && i < |gs| && OnlyLine(gs, i)
    ensures var g := gs[i];
            Lookup(ApplyLines(st, gs).1, g.key) == Some(AfterSet(Lookup(st, g.key), g.data, g.authr, g.authw))
    decreases |gs|
  {
    hide SlotOf, Assigned, Lookup;
    var g, rest := gs[0], gs[1..];
    var st1 := Assigned(st, g.key, g.data, g.authr, g.authw);
    AssignedLookup(st, g.key, g.data, g.authr, g.authw, gs[i].key);
    assert forall j :: 0 <= j < |rest| ==> rest[j] == gs[j + 1];
    if i == 0 {
      AppliedElsewhere(st1, rest, g.key);
    } else {
      AppliedOnce(st1, rest, i - 1);
    }
  }

  // ------------------------------------------------------------ whole tables

  ghost predicate AllRecOk(st: Chains) {
    forall i, j :: 0 <= i < |st| && 0 <= j < |st[i]| ==> RecOk(st[i][j])
  }

  /** The lines of a table's file as the reader parses them. */
  lemma FileIsGood(st: Chains, password: int) returns (gs: seq<Line>)
    requires AllRecOk(st) && Opens(password)
    ensures gs == Parsed(SaveLines(st), password) && |gs| == |Records(st)| && AllGood(gs)
    ensures forall i :: 0 <= i < |gs| ==>
              var r := Records(st)[i];
              && RecOk(r) && gs[i] == ParseLine(RecordLine(r), password)
              && gs[i].authr == r.entry.authr && gs[i].authw == r.entry.authw && ',' !in gs[i].key && DataOk(gs[i].data)
              && gs[i].key == CutKey(r.key) && KindOf(gs[i].data) == KindOf(r.entry.data)
              && (',' !in r.key ==> gs[i].key == r.key && gs[i].data == ReadBack(r.entry.data))
  {
    hide RecOk, RecordLine, ParseLine, ReadBack, DataOk;
    var lines := SaveLines(st);
    FileLines(st);
    forall i | 0 <= i < |lines|
      ensures lines[i] != "" && RecOk(Records(st)[i])
    {
      var a, b := RecordPlace(st, i);
      RecordIsAccepted(Records(st)[i], password);
    }
    ParsedAll(lines, password);
    gs := Parsed(lines, password);
    forall i | 0 <= i < |gs|
      ensures var r := Records(st)[i];
              && gs[i] == ParseLine(RecordLine(r), password) && gs[i].Good?
              && gs[i].authr == r.entry.authr && gs[i].authw == r.entry.authw && ',' !in gs[i].key && DataOk(gs[i].data)
              && gs[i].key == CutKey(r.key) && KindOf(gs[i].data) == KindOf(r.entry.data)
              && (',' !in r.key ==> gs[i].key == r.key && gs[i].data == ReadBack(r.entry.data))
    {
      RecordIsAccepted(Records(st)[i], password);
    }
  }

  lemma DistinctLines(st: Chains, gs: seq<Line>, i: nat)
    requires WellFormed(st) && |gs| == |Records(st)| && AllGood(gs) && i < |gs|
    requires forall j :: 0 <= j < |gs| ==> gs[j].key == Records(st)[j].key
    ensures OnlyLine(gs, i)
  {
    hide WellFormed;
    RecordsAreMap(st, i);
  }

  /** The same keys, each with a value of the same meaning and the same authorities; the
      second table has no deadlines. */
  ghost predicate SameMap(st: Chains, t: Chains)
    requires |st| == |t| == TABLE_S
  {
    forall key ::
      match (Lookup(st, key), Lookup(t, key)) {
        case (None, None) => true
        case (Some(e), Some(e')) => SameButTtl(e, e')
        case _ => false
      }
  }

  lemma SurvivorHasNoComma(st: Chains, t: Chains, password: int, i: nat)
    requires WellFormed(st) && AllRecOk(st) && Opens(password) && i < |Records(st)|
    requires t == ReadLines(NoChains(), SaveLines(st), password).1 && SameMap(st, t)
    ensures ',' !in Records(st)[i].key
  {
    hide SlotOf, WellFormed, RecOk, ReadBack, DataOk, SameButTtl;
    var gs := FileIsGood(st, password);
    var key := Records(st)[i].key;
    RecordsAreMap(st, i);
    EmptyIsWellFormed();
    AppliedElsewhere(NoChains(), gs, key);
  }

  lemma SurvivorIsStorable(st: Chains, t: Chains, password: int, i: nat)
    requires WellFormed(st) && AllRecOk(st) && Opens(password) && i < |Records(st)|
    requires t == ReadLines(NoChains(), SaveLines(st), password).1 && SameMap(st, t)
    requires forall j :: 0 <= j < |Records(st)| ==> ',' !in Records(st)[j].key
    ensures Storable(Records(st)[i].entry.data)
  {
    hide SlotOf, WellFormed, ReadBack, DataOk, Storable;
    var gs := FileIsGood(st, password);
    DistinctLines(st, gs, i);
    RecordsAreMap(st, i);
    EmptyIsWellFormed();
    AppliedOnce(NoChains(), gs, i);
    ValueSurvives(Records(st)[i].entry.data);
  }

  lemma SameIsStorable(st: Chains, t: Chains, password: int)
    requires WellFormed(st) && AllRecOk(st) && Opens(password)
    requires t == ReadLines(NoChains(), SaveLines(st), password).1 && SameMap(st, t)
    ensures StorableTable(st)
  {
    hide WellFormed, RecOk, SameMap, Storable, ReadLines, SaveLines;
    forall i | 0 <= i < |Records(st)|
      ensures ',' !in Records(st)[i].key
    {
      SurvivorHasNoComma(st, t, password, i);
    }
    forall a, b | 0 <= a < |st| && 0 <= b < |st[a]|
      ensures StorableRec(st[a][b])
    {
      var i := PlaceRecord(st, a, b);
      SurvivorIsStorable(st, t, password, i);
    }
  }

  lemma FileIsAccepted(st: Chains, password: int)
    requires AllRecOk(st) && Opens(password)
    ensures ReadLines(NoChains(), SaveLines(st), password).0 == Finished(true)
  {
    hide AllRecOk, WellFormed, SaveLines, Parsed;
    var gs := FileIsGood(st, password);
    EmptyIsWellFormed();
    AppliedElsewhere(NoChains(), gs, "");
  }

  /** Reading the file of a table back into an empty one always succeeds, and yields the
      same map exactly when the table is storable. */
  lemma TableSurvives(st: Chains, password: int)
    requires WellFormed(st) && AllRecOk(st) && Opens(password)
    ensures var (outcome, t) := ReadLines(NoChains(), SaveLines(st), password);
            outcome == Finished(true) && (SameMap(st, t) <==> StorableTable(st))
  {
    hide ChainOk, AllRecOk, SameMap, StorableTable, SaveLines, ReadLines;
    FileIsAccepted(st, password);
    var t := ReadLines(NoChains(), SaveLines(st), password).1;
    if SameMap(st, t) {
      SameIsStorable(st, t, password);
    }
    if StorableTable(st) {
      StorableIsSame(st, password);
    }
  }

  lemma StorableIsSame(st: Chains, password: int)
    requires StorableTable(st) && Opens(password)
    ensures SameMap(st, ReadLines(NoChains(), SaveLines(st), password).1)
  {
    hide SlotOf, Lookup, SameButTtl, WellFormed;
    ReadUndoesSave(st, password);
    forall key
      ensures match (Lookup(st, key), Lookup(MirrorTable(st), key)) {
                case (None, None) => true
                case (Some(e), Some(e')) => SameButTtl(e, e')
                case _ => false
              }
    {
      MirrorSameMap(st, key);
    }
  }

  /** The lines of a storable table's file carry its keys and, up to the order of field
      maps, its values. */
  lemma StorableFile(st: Chains, password: int) returns (gs: seq<Line>)
    requires StorableTable(st) && Opens(password)
    ensures gs == Parsed(SaveLines(st), password) && |gs| == |Records(st)| && AllGood(gs)
    ensures forall i :: 0 <= i < |gs| ==>
              var r := Records(st)[i];
              gs[i] == Good(r.key, MirrorData(r.entry.data), r.entry.authr, r.entry.authw)
  {
    hide WellFormed, ReadBack, DataOk, Storable, RecOk, ParseLine, RecordLine;
    gs := FileIsGood(st, password);
    forall i | 0 <= i < |gs|
      ensures var r := Records(st)[i];
              gs[i] == Good(r.key, MirrorData(r.entry.data), r.entry.authr, r.entry.authw)
    {
      var a, b := RecordPlace(st, i);
      RecordIsReflected(Records(st)[i]);
    }
  }

  lemma RecordIsReflected(r: Rec)
    requires StorableRec(r)
    ensures ',' !in r.key && ReadBack(r.entry.data) == MirrorData(r.entry.data)
  {
    StorableReadsBack(r.entry.data);
  }

  /** Reading the file of a storable table into any table overrides the entries under its
      keys, the deadlines of those that were there staying, and leaves all others alone. */
  lemma RestoreOverrides(st: Chains, t: Chains, password: int, key: string)
    requires StorableTable(st) && WellFormed(t) && Opens(password)
    ensures var (outcome, t') := ReadLines(t, SaveLines(st), password);
            && outcome == Finished(true) && WellFormed(t')
            && Lookup(t', key) ==
               match Lookup(st, key) {
                 case None => Lookup(t, key)
                 case Some(e) => Some(AfterSet(Lookup(t, key), MirrorData(e.data), e.authr, e.authw))
               }
  {
    hide SlotOf, Lookup, ChainOk, StorableRec, SaveLines, Parsed;
    var gs := StorableFile(st, password);
    AppliedElsewhere(t, gs, key);
    if Lookup(st, key).Some? {
      var i := KeyHasRecord(st, key);
      DistinctLines(st, gs, i);
      AppliedOnce(t, gs, i);
    } else {
      forall i | 0 <= i < |gs|
        ensures gs[i].key != key
      {
        RecordsAreMap(st, i);
      }
    }
  }
}
