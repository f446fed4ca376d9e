/** Every table a run of command lines can reach holds clean records only: texts of NUL-free
    bytes, containers in order and authorities of a byte. So what is proved about the
    snapshots of such tables holds of every table the program can have. */
module CleanRuns {
  import opened Cipher
  import opened Commands
  import opened Entries
  import opened FieldPairs
  import opened Hashing
  import opened Machine
  import opened MachineInts
  import opened Safety
  import opened Sequences
  import opened SetBuckets
  import opened Snapshot
  import opened SnapshotLaws
  import opened SnapshotMaps
  import opened Store
  import opened StringCipher
  import opened Text

  // ------------------------------------------------------------------ texts

  lemma CleanSlice(s: string, a: nat, b: nat)
    requires CleanText(s) && a <= b <= |s|
    ensures CleanText(s[a..b])
  {
    assert forall i :: a <= i < b ==> s[i] in s;
    assert forall i :: 0 <= i < b - a ==> s[a..b][i] == s[a + i];
  }

  lemma {:induction false} CleanPieces(s: string, c: char)
    requires CleanText(s)
    ensures AllClean(Pieces(s, c)) && AllClean(SplitOf(s, c))
    decreases |s|
  {
    hide CleanText;
    var i := IndexOf(s, c);
    if i < |s| {
      CleanSlice(s, 0, i);
      CleanSlice(s, i + 1, |s|);
      assert s[0..i] == s[..i] && s[i + 1..|s|] == s[i + 1..];
      CleanPieces(s[i + 1..], c);
    }
  }

  lemma {:induction false} CleanWords(s: string)
    requires CleanText(s)
    ensures AllClean(Words(s))
    decreases |s|
  {
    hide CleanText;
    if s != "" {
      var i := IndexOf(s, ' ');
      CleanSlice(s, 0, i);
      CleanSlice(s, i, |s|);
      CleanSlice(s, 1, |s|);
      assert s[0..i] == s[..i] && s[i..|s|] == s[i..] && s[1..|s|] == s[1..];
      CleanWords(s[if s[0] == ' ' then 1 else i..]);
    }
  }

  lemma CleanTokens(com: string)
    requires CleanText(com)
    ensures AllClean(Tokens(com))
  {
    hide CleanText;
    TokensAreWords(com);
    CleanWords(com);
  }

  // ----------------------------------------------------------------- values

  /** A value in order whose pieces are clean. */
  ghost predicate DataClean(d: Data) {
    AllClean(ValueParts(d)) && DataOk(d)
  }

  ghost predicate PairsClean(ps: Pairs) {
    forall i :: 0 <= i < |ps| ==> CleanText(ps[i].0) && CleanText(ps[i].1)
  }

  lemma PairsCleanIs(ps: Pairs)
    ensures PairsClean(ps) <==> AllClean(Alternating(ps))
  {
    hide CleanText;
    var r := Alternating(ps);
    if AllClean(r) {
      forall i | 0 <= i < |ps|
        ensures CleanText(ps[i].0) && CleanText(ps[i].1)
      {
        assert CleanText(r[2 * i]) && CleanText(r[2 * i + 1]);
      }
    }
    if PairsClean(ps) {
      forall i | 0 <= i < |r|
        ensures CleanText(r[i])
      {
        AlternatingAt(ps, i);
      }
    }
  }

  ghost predicate MembersClean(xs: set<string>) {
    forall x :: x in xs ==> CleanText(x)
  }

  lemma SetClean(b: Buckets)
    requires Placed(b)
    ensures DataClean(St(b)) <==> MembersClean(Members(b))
  {
    hide CleanText, Placed, Members, Flat;
    FlatEnumerates(b);
    var xs := Flat(b);
    if MembersClean(Members(b)) {
      forall i | 0 <= i < |xs|
        ensures CleanText(xs[i])
      {
        assert xs[i] in Members(b);
      }
    }
    if AllClean(xs) {
      forall x | x in Members(b)
        ensures CleanText(x)
      {
        assert x in xs;
      }
    }
  }

  lemma CleanMembers(xs: seq<string>)
    requires AllClean(xs)
    ensures MembersClean(set x | x in xs)
  {
  }

  lemma {:induction false} PutAllClean(ps: Pairs, xs: seq<string>)
    requires PairsClean(ps) && AllClean(xs)
    ensures PairsClean(PutAll(ps, xs))
    decreases |xs|
  {
    hide CleanText;
    if |xs| >= 2 {
      PutAllClean(Put(ps, xs[0], xs[1]), xs[2..]);
    }
  }

  lemma NoMembers()
    ensures Placed(NoBuckets()) && Members(NoBuckets()) == {}
  {
  }

  lemma EncodeClean(text: string, kind: Kind)
    requires CleanText(text)
    ensures DataClean(Encode(text, kind))
  {
    hide CleanText, SplitOf, PushAll, PutAll, DataOk, Placed, Members, Flat, Alternating;
    EncodeOk(text, kind);
    CleanPieces(text, ',');
    var xs := SplitOf(text, ',');
    match kind
    case StringKind =>
    case ListKind =>
    case SetKind =>
      NoMembers();
      PushAllPlaced(NoBuckets(), xs);
      CleanMembers(xs);
      SetClean(PushAll(NoBuckets(), xs));
    case MapKind =>
      PutAllClean([], xs);
      PairsCleanIs(PutAll([], xs));
  }

  // --------------------------------------------- commands on one live value

  lemma ListEffectClean(c: Cmd, args: seq<string>, items: seq<string>)
    requires OnValue(c) && KindFits(c, ListKind) && !c.Get? && !c.Sort?
    requires Shaped(args, c) && AllClean(args) && AllClean(items)
    ensures DataClean(Effect(c, Lst(items)).1)
  {
    hide CleanText, IntOf;
    match c
    case LPush(_, xs) =>
      forall i | 0 <= i < |xs|
        ensures CleanText(Reverse(xs)[i])
      {
        ReverseAt(xs, i);
      }
    case _ =>
  }

  lemma SetEffectClean(c: Cmd, args: seq<string>, b: Buckets)
    requires OnValue(c) && KindFits(c, SetKind) && !c.Get? && !c.Sort?
    requires Shaped(args, c) && AllClean(args) && DataClean(St(b))
    ensures DataClean(Effect(c, St(b)).1)
  {
    hide CleanText, Placed, Members, Flat, PushAll, Popped, Erased;
    SetClean(b);
    match c
    case SPush(_, xs) =>
      PushAllPlaced(b, xs);
      CleanMembers(xs);
      SetClean(PushAll(b, xs));
    case SPop(_) =>
      PopChooses(b);
      SetClean(Popped(b).1);
    case SErase(_, x) =>
      EraseRemoves(b, x);
      SetClean(Erased(b, x).1);
  }

  lemma MapEffectClean(c: Cmd, args: seq<string>, ps: Pairs)
    requires OnValue(c) && KindFits(c, MapKind) && !c.Get?
    requires Shaped(args, c) && AllClean(args) && DataClean(Mp(ps))
    ensures DataClean(Effect(c, Mp(ps)).1)
  {
    hide CleanText, Alternating;
    EffectOk(c, Mp(ps));
    PairsCleanIs(ps);
    PairsCleanIs(Effect(c, Mp(ps)).1.pairs);
  }

  lemma EffectClean(c: Cmd, args: seq<string>, d: Data)
    requires OnValue(c) && KindFits(c, KindOf(d))
    requires Shaped(args, c) && AllClean(args) && DataClean(d)
    ensures DataClean(Effect(c, d).1)
  {
    hide CleanText, Shaped, Decode, SortedText, Join, Flat, AllClean, DataOk;
    if !c.Get? && !c.Sort? {
      match d
      case Lst(items) => ListEffectClean(c, args, items);
      case St(b) => SetEffectClean(c, args, b);
      case Mp(ps) => MapEffectClean(c, args, ps);
    }
  }

  // ------------------------------------------------------------------ tables

  ghost predicate EntryClean(e: Entry) {
    DataClean(e.data) && 0 <= e.authr < 256 && 0 <= e.authw < 256
  }

  ghost predicate KeyClean(st: Chains, key: string)
    requires |st| == TABLE_S
  {
    Lookup(st, key).Some? ==> CleanText(key) && EntryClean(Lookup(st, key).value)
  }

  ghost predicate TableClean(st: Chains) {
    |st| == TABLE_S && WellFormed(st) && forall key :: KeyClean(st, key)
  }

  /** The same, record by record. */
  lemma TableCleanIs(st: Chains)
    requires WellFormed(st)
    ensures TableClean(st) <==> AllRecOk(st)
  {
    hide CleanText, AllClean, DataOk, SlotOf, ChainOk;
    if TableClean(st) {
      forall i, j | 0 <= i < |st| && 0 <= j < |st[i]|
        ensures RecOk(st[i][j])
      {
        LookupHere(st, i, j);
        assert KeyClean(st, st[i][j].key);
      }
    }
    if AllRecOk(st) {
      forall key
        ensures KeyClean(st, key)
      {
        if Lookup(st, key).Some? {
          var i := SlotOf(key);
          assert RecOk(st[i][KeyAt(st[i], key)]);
        }
      }
    }
  }

  lemma ReplacedClean(st: Chains, k: string, e: Entry)
    requires TableClean(st) && Lookup(st, k).Some? && EntryClean(e)
    ensures TableClean(Replaced(st, k, e))
  {
    hide WellFormed, Lookup, Replaced, EntryClean, CleanText;
    assert KeyClean(st, k);
    ReplacedRefines(st, k, e, k);
    forall key
      ensures KeyClean(Replaced(st, k, e), key)
    {
      ReplacedRefines(st, k, e, key);
      assert KeyClean(st, key);
    }
  }

  lemma DroppedClean(st: Chains, k: string)
    requires TableClean(st) && Lookup(st, k).Some?
    ensures TableClean(Dropped(st, k))
  {
    hide WellFormed, Lookup, Dropped, EntryClean, CleanText;
    DroppedRefines(st, k, k);
    forall key
      ensures KeyClean(Dropped(st, k), key)
    {
      DroppedRefines(st, k, key);
      assert KeyClean(st, key);
    }
  }

  lemma AssignedClean(st: Chains, k: string, d: Data, r: int, w: int)
    requires TableClean(st) && CleanText(k) && DataClean(d) && 0 <= r < 256 && 0 <= w < 256
    ensures TableClean(Assigned(st, k, d, r, w))
  {
    hide WellFormed, Lookup, Assigned, DataClean, CleanText;
    AssignedRefines(st, k, d, r, w, k);
    assert KeyClean(st, k);
    forall key
      ensures KeyClean(Assigned(st, k, d, r, w), key)
    {
      AssignedRefines(st, k, d, r, w, key);
      assert KeyClean(st, key);
    }
  }

  // ------------------------------------------------------------------- steps

  lemma LiveClean(st: Chains, k: string, now: int)
    requires |st| == TABLE_S && TableClean(st)
    ensures TableClean(Live(st, k, now).1)
    ensures Live(st, k, now).0.Some? ==>
              Live(st, k, now).1 == st && Lookup(st, k) == Live(st, k, now).0 && EntryClean(Live(st, k, now).0.value)
  {
    hide TableClean, Lookup, Dropped, EntryClean;
    if Lookup(st, k).Some? {
      DroppedClean(st, k);
      EntryIsClean(st, k);
    }
  }

  lemma EntryIsClean(st: Chains, k: string)
    requires TableClean(st) && Lookup(st, k).Some?
    ensures CleanText(k) && EntryClean(Lookup(st, k).value)
  {
    assert KeyClean(st, k);
  }

  lemma OnValueClean(st: Chains, c: Cmd, args: seq<string>, a: byte, now: int)
    requires |st| == TABLE_S && TableClean(st) && OnValue(c) && Shaped(args, c) && AllClean(args)
    ensures TableClean(StepOnValue(st, c, a, now).1)
  {
    hide TableClean, Live, Lookup, Effect, KindFits, Modifies, Replaced, Shaped, AllClean, DataClean;
    LiveClean(st, c.k, now);
    if Live(st, c.k, now).0.Some? {
      var e := Live(st, c.k, now).0.value;
      if KindFits(c, KindOf(e.data)) {
        EffectClean(c, args, e.data);
        ReplacedClean(st, c.k, e.(data := Effect(c, e.data).1));
      }
    }
  }

  lemma MakeClean(st: Chains, c: Cmd, args: seq<string>, a: byte)
    requires |st| == TABLE_S && TableClean(st)
    requires c.Make? && |c.auths| <= 2 && Shaped(args, c) && AllClean(args)
    ensures TableClean(StepMake(st, c, a).1)
  {
    hide TableClean, Lookup, Assigned, IntOf, CleanText;
    var d := Str(c.v);
    var r := if |c.auths| == 0 then 0 else IntOf(c.auths[0]).1;
    var w := if |c.auths| < 2 then a as int else IntOf(c.auths[1]).1;
    if 0 <= r <= a && 0 <= w <= a {
      AssignedClean(st, c.k, d, r, w);
    }
  }

  lemma BuildClean(st: Chains, c: Cmd, args: seq<string>, a: byte)
    requires |st| == TABLE_S && TableClean(st) && Builds(c) && Shaped(args, c) && AllClean(args)
    ensures TableClean(StepBuild(st, c, a).1)
  {
    hide TableClean, Lookup, Assigned, Join, PushAll, PutAll, SplitOf, DataClean, CleanText, Flat, Decimal;
    var kind := if c.LMake? then ListKind else if c.SMake? then SetKind else MapKind;
    var text := Join(c.parts, ',');
    CleanJoin(c.parts);
    EncodeClean(text, kind);
    AssignedClean(st, c.k, Encode(text, kind), 0, a);
  }

  lemma AuthClean(st: Chains, k: string, level: string, a: byte, isRead: bool)
    requires |st| == TABLE_S && TableClean(st)
    ensures TableClean(StepAuth(st, k, level, a, isRead).1)
  {
    hide TableClean, Lookup, Replaced, IntOf, DataClean, NoSuchKey;
    if Lookup(st, k).Some? {
      var e, x := Lookup(st, k).value, IntOf(level).1;
      EntryIsClean(st, k);
      if 0 <= x <= a {
        ReplacedClean(st, k, if isRead then WithAuthr(e, x) else WithAuthw(e, x));
      }
    }
  }

  lemma TimeClean(st: Chains, k: string, time: string, a: byte, now: int)
    requires |st| == TABLE_S && TableClean(st)
    ensures TableClean(StepExpire(st, k, time, a, now).1) && TableClean(StepTtl(st, k, a, now).1)
  {
    hide TableClean, Live, Lookup, Replaced, IntOf, DataClean, NoSuchKey, Decimal;
    LiveClean(st, k, now);
    if Live(st, k, now).0.Some? {
      var e := Live(st, k, now).0.value;
      ReplacedClean(st, k, WithTtl(e, IntOf(time).1, now));
      ReplacedClean(st, k, GetTtl(e, now).1);
    }
  }

  lemma DelClean(st: Chains, k: string, a: byte)
    requires |st| == TABLE_S && TableClean(st)
    ensures TableClean(StepDel(st, k, a).1)
  {
    hide TableClean, Lookup, Dropped, NoSuchKey;
    if Lookup(st, k).Some? {
      DroppedClean(st, k);
    }
  }

  // ------------------------------------------------------------------- reads

  ghost predicate LineClean(l: Line) {
    l.Good? ==> CleanText(l.key) && DataClean(l.data) && 0 <= l.authr < 256 && 0 <= l.authw < 256
  }

  lemma {:induction false} DecodedBytes(N: int, d: int, ps: seq<string>)
    requires N > 0
    ensures DecodePieces(N, d, ps).Decoded? ==> IsBytes(DecodePieces(N, d, ps).text)
  {
    if ps != [] {
      DecodedBytes(N, d, ps[1..]);
    }
  }

  /** What a snapshot line decrypts to is a C string of bytes, whatever the password. */
  lemma DecodedIsClean(N: int, d: int, line: string)
    requires N > 0
    ensures DecodeText(N, d, line).Decoded? ==> CleanText(DecodeText(N, d, line).text)
  {
    var ps := SplitOf(line, '\\');
    if ps != [] {
      DecodedBytes(N, d, ps[..|ps| - 1]);
    }
  }

  lemma MessageIsClean(message: string)
    requires CleanText(message)
    ensures LineClean(ParseMessage(message))
  {
    hide CleanText, DataClean, SplitOf, Join, IntOf, Encode;
    var args := SplitOf(message, ',');
    CleanPieces(message, ',');
    if |args| >= 5 {
      CleanJoin(args[4..]);
      EncodeClean(args[4], StringKind);
      EncodeClean(Join(args[4..], ','), ListKind);
      EncodeClean(Join(args[4..], ','), SetKind);
      EncodeClean(Join(args[4..], ','), MapKind);
    }
  }

  lemma ParsedIsClean(line: string, password: int)
    ensures LineClean(ParseLine(line, password))
  {
    hide CleanText, DataClean, DecodeText, ParseMessage;
    DecodedIsClean(SNAPSHOT_N, password, line);
    var r := DecodeText(SNAPSHOT_N, password, line);
    if r.Decoded? {
      MessageIsClean(r.text);
    }
  }

  lemma {:induction false} ReadLinesClean(st: Chains, lines: seq<string>, password: int)
    requires |st| == TABLE_S && TableClean(st)
    ensures TableClean(ReadLines(st, lines, password).1)
    decreases |lines|
  {
    hide TableClean, ParseLine, CleanText, DataClean, Assigned;
    if lines != [] && lines[0] != "" {
      var l := ParseLine(lines[0], password);
      ParsedIsClean(lines[0], password);
      assert Parsed(lines, password)[1..] == Parsed(lines[1..], password);
      if l.Good? {
        AssignedClean(st, l.key, l.data, l.authr, l.authw);
        ReadLinesClean(Assigned(st, l.key, l.data, l.authr, l.authw), lines[1..], password);
      }
    }
  }

  // -------------------------------------------------------------------- runs

  /** Any command made of clean tokens keeps a table clean, read of any file included. */
  lemma StepClean(st: Chains, args: seq<string>, a: byte, env: Env)
    requires |st| == TABLE_S && TableClean(st) && AllClean(args)
    ensures TableClean(Step(st, Parse(args), a, env).1)
  {
    hide TableClean, AllClean, Parse, Shaped, IntOf, ReadLines;
    hide StepOnValue, StepMake, StepBuild, StepDel, StepAuth, StepExpire, StepTtl;
    var c := Parse(args);
    ParseShape(args);
    if OnValue(c) {
      OnValueClean(st, c, args, a, env.now);
    } else if Builds(c) {
      BuildClean(st, c, args, a);
    } else if c.Make? {
      if |c.auths| <= 2 {
        MakeClean(st, c, args, a);
      }
    } else if HasKey(c) {
      DelClean(st, c.k, a);
      AuthClean(st, c.k, if c.AuthR? || c.AuthW? then c.level else "", a, c.AuthR?);
      TimeClean(st, c.k, if c.Expire? then c.time else "", a, env.now);
    } else if c.Read? && env.file.Some? {
      ReadLinesClean(st, env.file.value, IntOf(c.password).1);
    }
  }

  lemma EventClean(st: Chains, ev: Event, own: Range)
    requires |st| == TABLE_S && TableClean(st) && CleanText(ev.line)
    ensures TableClean(Step(st, CmdOf(ev.line, own), ev.auth, ev.env).1)
  {
    hide TableClean, CleanText, AllClean, StepOnValue, Parse, Tokens, SlotOf;
    CleanTokens(ev.line);
    StepClean(st, Tokens(ev.line), ev.auth, ev.env);
  }

  /** A run of command lines of NUL-free bytes keeps a table clean, reads of any file with
      any password included. */
  lemma {:induction false} RunKeepsClean(st: Chains, events: seq<Event>, own: Range)
    requires |st| == TABLE_S && TableClean(st)
    requires forall i :: 0 <= i < |events| ==> CleanText(events[i].line)
    ensures TableClean(RunLines(st, events, own))
    decreases |events|
  {
    hide TableClean, CleanText, Step, Execute, CmdOf;
    if events != [] {
      var ev := events[0];
      ExecuteIsStep(st, ev, own);
      EventClean(st, ev, own);
      RunKeepsClean(Execute(st, ev.line, ev.auth, ev.env, own).1, events[1..], own);
    }
  }

  /** So every table a node can reach from the empty one survives its snapshot: reading the
      file back succeeds, and yields the same map exactly when the table is storable. */
  lemma ReachedTableSurvives(events: seq<Event>, own: Range, password: int)
    requires forall i :: 0 <= i < |events| ==> CleanText(events[i].line)
    requires Opens(password)
    ensures var st := RunLines(NoChains(), events, own);
            && WellFormed(st) && AllRecOk(st)
            && var (outcome, t) := ReadLines(NoChains(), SaveLines(st), password);
               outcome == Finished(true) && (SameMap(st, t) <==> StorableTable(st))
  {
    hide CleanText, RunLines, ReadLines, SaveLines, SameMap, StorableTable, ChainOk, AllRecOk;
    EmptyIsClean();
    RunKeepsClean(NoChains(), events, own);
    var st := RunLines(NoChains(), events, own);
    TableCleanIs(st);
    TableSurvives(st, password);
  }

  lemma EmptyIsClean()
    ensures TableClean(NoChains())
  {
    hide ChainOk;
    EmptyIsWellFormed();
  }
}
