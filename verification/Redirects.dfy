/** When a reply cannot be taken for a redirection: a condition on the command and the
    stored texts alone. A text is harmless when it contains neither the word that marks a
    redirection nor a backspace, which starts every set-up reply. */
module Redirects {
  import opened Commands
  import opened Entries
  import opened FieldPairs
  import opened Hashing
  import opened Machine
  import opened MachineInts
  import opened Routing
  import opened Sequences
  import opened SetBuckets
  import opened Snapshot
  import opened Sorting
  import opened Store
  import opened Text

  predicate Harmless(s: string) {
    !Contains(s, REDIRECT) && BACKSPACE !in s
  }

  ghost predicate AllHarmless(ps: seq<string>) {
    forall i :: 0 <= i < |ps| ==> Harmless(ps[i])
  }

  // --------------------------------------------------------- texts and words

  ghost predicate OccursAt(s: string, t: string, i: nat) {
    i + |t| <= |s| && s[i..i + |t|] == t
  }

  lemma {:induction false} FindOccurrence(s: string, t: string) returns (i: nat)
    requires Contains(s, t)
    ensures OccursAt(s, t, i)
  {
    if s[..|t|] == t {
      i := 0;
    } else {
      i := FindOccurrence(s[1..], t);
      assert s[1..][i..i + |t|] == s[i + 1..i + 1 + |t|];
      i := i + 1;
    }
  }

  lemma {:induction false} OccurrenceCounts(s: string, t: string, i: nat)
    requires OccursAt(s, t, i)
    ensures Contains(s, t)
  {
    if i > 0 {
      assert s[1..][i - 1..i - 1 + |t|] == s[i..i + |t|];
      OccurrenceCounts(s[1..], t, i - 1);
    }
  }

  lemma OccurrenceChar(s: string, t: string, i: nat, j: nat)
    requires OccursAt(s, t, i) && i <= j < i + |t|
    ensures s[j] == t[j - i] && t[j - i] in t
  {
    assert s[i..i + |t|][j - i] == s[j];
  }

  lemma SliceOfSlice(s: string, a: nat, b: nat, i: nat, j: nat)
    requires a <= b <= |s| && i <= j <= b - a
    ensures s[a..b][i..j] == s[a + i..a + j]
  {
    var l, r := s[a..b][i..j], s[a + i..a + j];
    assert forall k :: 0 <= k < |l| ==> l[k] == s[a..b][i + k] == s[a + (i + k)] == r[k];
  }

  lemma ContainsSlice(s: string, a: nat, b: nat, t: string)
    requires a <= b <= |s| && Contains(s[a..b], t)
    ensures Contains(s, t)
  {
    hide Contains;
    var i := FindOccurrence(s[a..b], t);
    SliceOfSlice(s, a, b, i, i + |t|);
    OccurrenceCounts(s, t, a + i);
  }

  lemma HarmlessSlice(s: string, a: nat, b: nat)
    requires Harmless(s) && a <= b <= |s|
    ensures Harmless(s[a..b])
  {
    hide Contains;
    if Contains(s[a..b], REDIRECT) {
      ContainsSlice(s, a, b, REDIRECT);
    }
  }

  /** An occurrence that does not use the character between two texts lies in one of them. */
  lemma ContainsAround(p: string, c: char, q: string, t: string)
    requires c !in t && Contains(p + [c] + q, t)
    ensures Contains(p, t) || Contains(q, t)
  {
    hide Contains;
    var s := p + [c] + q;
    var i := FindOccurrence(s, t);
    if i + |t| <= |p| {
      assert p[i..i + |t|] == s[i..i + |t|];
      OccurrenceCounts(p, t, i);
    } else if i > |p| {
      var j := i - |p| - 1;
      assert q[j..j + |t|] == s[i..i + |t|];
      OccurrenceCounts(q, t, j);
    } else {
      OccurrenceChar(s, t, i, |p|);
    }
  }

  lemma HarmlessAround(p: string, c: char, q: string)
    requires Harmless(p) && Harmless(q) && c !in REDIRECT && c != BACKSPACE
    ensures Harmless(p + [c] + q)
  {
    hide Contains;
    if Contains(p + [c] + q, REDIRECT) {
      ContainsAround(p, c, q, REDIRECT);
    }
  }

  lemma NoLetter(s: string)
    requires 'h' !in s && BACKSPACE !in s
    ensures Harmless(s)
  {
    hide Contains;
    assert REDIRECT[0] == 'h';
    if Contains(s, REDIRECT) {
      var i := FindOccurrence(s, REDIRECT);
      OccurrenceChar(s, REDIRECT, i, i);
    }
  }

  lemma Bracketed(p: string, k: string)
    requires 'h' !in p && BACKSPACE !in p && Harmless(k)
    ensures Harmless(p + "(" + k + ")")
  {
    hide Contains;
    NoLetter(p);
    NoLetter("");
    HarmlessAround(k, ')', "");
    HarmlessAround(p, '(', k + [')'] + "");
    assert p + "(" + k + ")" == p + ['('] + (k + [')'] + "");
  }

  /** The replies that are the same for every command. */
  lemma FixedReplies()
    ensures Harmless(OK) && Harmless(DENIED) && Harmless(INVALID_COMMAND) && Harmless(INVALID_AUTH)
    ensures Harmless(INVALID_TYPE) && Harmless(INVALID_INDEX) && Harmless(INVALID_TIME)
    ensures Harmless(EMPTY_LIST) && Harmless(EMPTY_MAP) && Harmless("NULL") && Harmless("")
  {
    hide Harmless;
    Refusals();
    Complaints();
    NoLetter(OK);
    NoLetter("NULL");
    NoLetter("");
  }

  lemma Refusals()
    ensures Harmless(DENIED) && Harmless(INVALID_COMMAND) && Harmless(INVALID_AUTH) && Harmless(EMPTY_LIST)
  {
    hide Harmless;
    NoLetter(DENIED);
    NoLetter(INVALID_COMMAND);
    NoLetter(INVALID_AUTH);
    NoLetter(EMPTY_LIST);
  }

  lemma Complaints()
    ensures Harmless(INVALID_TYPE) && Harmless(INVALID_INDEX) && Harmless(INVALID_TIME) && Harmless(EMPTY_MAP)
  {
    hide Harmless;
    NoLetter(INVALID_TYPE);
    NoLetter(INVALID_INDEX);
    NoLetter(INVALID_TIME);
    NoLetter(EMPTY_MAP);
  }

  lemma MessagesHarmless(k: string)
    requires Harmless(k)
    ensures Harmless(NoSuchKey(k)) && Harmless(NoSuchField(k)) && Harmless(NoSuchElement(k))
  {
    hide Harmless;
    Bracketed("ERROR : NO SUCH KEY ", k);
    Bracketed("ERROR : NO SUCH FIELD ", k);
    Bracketed("ERROR : NO SUCH ELEMENT ", k);
    assert NoSuchKey(k) == "ERROR : NO SUCH KEY " + "(" + k + ")";
    assert NoSuchField(k) == "ERROR : NO SUCH FIELD " + "(" + k + ")";
    assert NoSuchElement(k) == "ERROR : NO SUCH ELEMENT " + "(" + k + ")";
  }

  lemma DecimalHarmless(n: int)
    ensures Harmless(Decimal(n))
  {
    DigitsAreDigits(if n < 0 then -n else n);
    NoLetter(Decimal(n));
  }

  /** Joining harmless pieces by commas does not make the word. */
  lemma {:induction false} JoinHarmless(ps: seq<string>)
    requires AllHarmless(ps)
    ensures Harmless(Join(ps, ','))
  {
    hide Harmless;
    if ps == [] {
      NoLetter("");
    } else if |ps| > 1 {
      JoinHarmless(ps[1..]);
      HarmlessAround(ps[0], ',', Join(ps[1..], ','));
    }
  }

  lemma {:induction false} PiecesHarmless(s: string)
    requires Harmless(s)
    ensures AllHarmless(SplitOf(s, ',')) && AllHarmless(Pieces(s, ','))
    decreases |s|
  {
    hide Harmless;
    var i := IndexOf(s, ',');
    if i < |s| {
      HarmlessSlice(s, 0, i);
      HarmlessSlice(s, i + 1, |s|);
      assert s[0..i] == s[..i] && s[i + 1..|s|] == s[i + 1..];
      PiecesHarmless(s[i + 1..]);
    }
  }

  lemma SortedHarmless(text: string)
    requires Harmless(text)
    ensures Harmless(SortedText(text))
  {
    hide Harmless;
    var ps := SplitOf(text, ',');
    PiecesHarmless(text);
    SortedOrders(ps);
    forall i | 0 <= i < |Sorted(ps)|
      ensures Harmless(Sorted(ps)[i])
    {
      assert Sorted(ps)[i] in multiset(ps);
    }
    JoinHarmless(Sorted(ps));
  }

  // ----------------------------------------------------------------- values

  /** No piece of the value is harmful. */
  ghost predicate DataHarmless(d: Data) {
    match d
    case Str(s) => Harmless(s)
    case Lst(items) => AllHarmless(items)
    case St(b) => forall i :: 0 <= i < |b| ==> AllHarmless(b[i])
    case Mp(ps) => forall i :: 0 <= i < |ps| ==> Harmless(ps[i].0) && Harmless(ps[i].1)
  }

  lemma {:induction false} FlatHarmless(b: seq<seq<string>>)
    ensures AllHarmless(Flat(b)) <==> forall i :: 0 <= i < |b| ==> AllHarmless(b[i])
  {
    hide Harmless;
    if b != [] {
      FlatHarmless(b[1..]);
      var f, g := b[0], Flat(b[1..]);
      assert forall i :: 0 <= i < |f| ==> (f + g)[i] == f[i];
      assert forall i :: 0 <= i < |g| ==> (f + g)[|f| + i] == g[i];
      assert forall i :: 0 < i < |b| ==> b[i] == b[1..][i - 1];
      assert forall i :: 0 <= i < |b[1..]| ==> b[1..][i] == b[i + 1];
    }
  }

  /** The pieces are those the value is printed as. */
  lemma DataHarmlessIsParts(d: Data)
    ensures DataHarmless(d) <==> AllHarmless(ValueParts(d))
  {
    hide Harmless;
    match d
    case Str(s) => assert [s][0] == s;
    case Lst(_) =>
    case St(b) => FlatHarmless(b);
    case Mp(ps) =>
      var r := Alternating(ps);
      if AllHarmless(r) {
        forall i | 0 <= i < |ps|
          ensures Harmless(ps[i].0) && Harmless(ps[i].1)
        {
          assert Harmless(r[2 * i]) && Harmless(r[2 * i + 1]);
        }
      }
      if DataHarmless(d) {
        forall i | 0 <= i < |r|
          ensures Harmless(r[i])
        {
          assert r[i] == if i % 2 == 0 then ps[i / 2].0 else ps[i / 2].1;
        }
      }
  }

  lemma {:induction false} PushAllHarmless(b: Buckets, xs: seq<string>)
    requires DataHarmless(St(b)) && AllHarmless(xs)
    ensures DataHarmless(St(PushAll(b, xs)))
    decreases |xs|
  {
    hide Harmless, SetSlot;
    if xs != [] {
      PushAllHarmless(Pushed(b, xs[0]), xs[1..]);
    }
  }

  lemma WithoutHarmless(b: Buckets, i: nat, k: nat)
    requires DataHarmless(St(b)) && i < |b| && k < |b[i]|
    ensures DataHarmless(St(WithoutAt(b, i, k))) && Harmless(b[i][k])
  {
    hide Harmless;
  }

  lemma {:induction false} PutAllHarmless(ps: Pairs, xs: seq<string>)
    requires DataHarmless(Mp(ps)) && AllHarmless(xs)
    ensures DataHarmless(Mp(PutAll(ps, xs)))
    decreases |xs|
  {
    hide Harmless;
    if |xs| >= 2 {
      PutAllHarmless(Put(ps, xs[0], xs[1]), xs[2..]);
    }
  }

  lemma EncodeHarmless(text: string, kind: Kind)
    requires Harmless(text)
    ensures DataHarmless(Encode(text, kind))
  {
    hide Harmless, SplitOf, PushAll, PutAll;
    PiecesHarmless(text);
    PushAllHarmless(NoBuckets(), SplitOf(text, ','));
    PutAllHarmless([], SplitOf(text, ','));
  }

  lemma DecodeHarmless(d: Data)
    requires DataHarmless(d)
    ensures Harmless(Decode(d))
  {
    hide Harmless;
    NoLetter(EMPTY);
    DataHarmlessIsParts(d);
    JoinHarmless(ValueParts(d));
  }

  // ------------------------------------------------ commands on one live value

  ghost predicate ResultHarmless(r: (string, Data)) {
    Harmless(r.0) && DataHarmless(r.1)
  }

  lemma ListEffect(c: Cmd, args: seq<string>, items: seq<string>)
    requires OnValue(c) && KindFits(c, ListKind) && !c.Get? && !c.Sort?
    requires Shaped(args, c) && AllHarmless(args) && AllHarmless(items)
    ensures ResultHarmless(Effect(c, Lst(items)))
  {
    hide Harmless, IntOf;
    FixedReplies();
    match c
    case LPush(_, xs) =>
      forall i | 0 <= i < |xs|
        ensures Harmless(Reverse(xs)[i])
      {
        ReverseAt(xs, i);
      }
    case _ =>
  }

  lemma SetEffect(c: Cmd, args: seq<string>, b: Buckets)
    requires OnValue(c) && KindFits(c, SetKind) && !c.Get? && !c.Sort?
    requires Shaped(args, c) && AllHarmless(args) && DataHarmless(St(b))
    ensures ResultHarmless(Effect(c, St(b)))
  {
    hide Harmless, Flat, SetSlot, NoSuchElement, NoSuchKey, NoSuchField;
    assert Harmless(args[1]) && (c.SErase? ==> Harmless(args[2]));
    FixedReplies();
    MessagesHarmless(if c.SErase? then args[2] else args[1]);
    match c
    case SPush(_, xs) => PushAllHarmless(b, xs);
    case SPop(_) =>
      var i := FirstNonEmpty(b);
      if i < |b| {
        WithoutHarmless(b, i, |b[i]| - 1);
      }
    case SErase(_, x) =>
      if Erased(b, x).0 {
        var i := SetSlot(x);
        WithoutHarmless(b, i, PositionOf(b[i], x));
      }
  }

  lemma MapEffect(c: Cmd, args: seq<string>, ps: Pairs)
    requires OnValue(c) && KindFits(c, MapKind) && !c.Get?
    requires Shaped(args, c) && AllHarmless(args) && DataHarmless(Mp(ps))
    ensures ResultHarmless(Effect(c, Mp(ps)))
  {
    hide Harmless, Join, NoSuchElement, NoSuchKey, NoSuchField;
    assert Harmless(args[1]) && (c.HGet? || c.HErase? ==> Harmless(args[2]));
    FixedReplies();
    MessagesHarmless(if c.HGet? || c.HErase? then args[2] else args[1]);
    match c
    case HFields(_) => JoinHarmless(FieldsOf(ps));
    case HVals(_) => JoinHarmless(ValuesOf(ps));
    case _ =>
  }

  lemma EffectHarmless(c: Cmd, args: seq<string>, d: Data)
    requires OnValue(c) && KindFits(c, KindOf(d))
    requires Shaped(args, c) && AllHarmless(args) && DataHarmless(d)
    ensures ResultHarmless(Effect(c, d))
  {
    hide Harmless, Shaped, Decode, SortedText, Join, Flat;
    if c.Get? {
      DecodeHarmless(d);
    } else if c.Sort? {
      DataHarmlessIsParts(d);
      JoinHarmless(ValueParts(d));
      SortedHarmless(Join(ValueParts(d), ','));
    } else {
      match d
      case Lst(items) => ListEffect(c, args, items);
      case St(b) => SetEffect(c, args, b);
      case Mp(ps) => MapEffect(c, args, ps);
    }
  }

  // ------------------------------------------------------------------- steps

  /** Every stored piece of every entry is harmless. */
  ghost predicate TableHarmless(st: Chains) {
    forall i, j :: 0 <= i < |st| && 0 <= j < |st[i]| ==> DataHarmless(st[i][j].entry.data)
  }

  /** The reply and the entries that a step leaves, given those it finds. */
  ghost predicate StepHarmless(st: Chains, r: (string, Chains)) {
    Harmless(r.0) && (TableHarmless(st) ==> TableHarmless(r.1))
  }

  /** The entry under a key is harmless, if there is one. */
  ghost predicate KeyHarmless(st: Chains, k: string)
    requires |st| == TABLE_S
  {
    Lookup(st, k).Some? ==> DataHarmless(Lookup(st, k).value.data)
  }

  lemma ReplacedHarmless(st: Chains, k: string, e: Entry)
    requires |st| == TABLE_S && Lookup(st, k).Some? && DataHarmless(e.data)
    ensures TableHarmless(st) ==> TableHarmless(Replaced(st, k, e))
  {
    hide DataHarmless, SlotOf;
  }

  lemma DroppedHarmless(st: Chains, k: string)
    requires |st| == TABLE_S && Lookup(st, k).Some?
    ensures TableHarmless(st) ==> TableHarmless(Dropped(st, k))
  {
    hide DataHarmless, SlotOf;
  }

  lemma AssignedHarmless(st: Chains, k: string, d: Data, r: int, w: int)
    requires |st| == TABLE_S && DataHarmless(d)
    ensures TableHarmless(st) ==> TableHarmless(Assigned(st, k, d, r, w))
  {
    hide DataHarmless, SlotOf;
    if Lookup(st, k).Some? {
      ReplacedHarmless(st, k, Overwritten(Lookup(st, k).value, d, r, w));
    }
  }

  lemma LiveHarmless(st: Chains, k: string, now: int)
    requires |st| == TABLE_S
    ensures TableHarmless(st) ==> TableHarmless(Live(st, k, now).1)
    ensures Live(st, k, now).0.Some? ==> Lookup(st, k) == Live(st, k, now).0 && Live(st, k, now).1 == st
  {
    hide TableHarmless, SlotOf;
    if Lookup(st, k).Some? {
      DroppedHarmless(st, k);
    }
  }

  lemma OnValueHarmless(st: Chains, c: Cmd, args: seq<string>, a: byte, now: int)
    requires |st| == TABLE_S && OnValue(c) && Shaped(args, c) && AllHarmless(args) && KeyHarmless(st, c.k)
    ensures StepHarmless(st, StepOnValue(st, c, a, now))
  {
    hide Harmless, DataHarmless, TableHarmless, Live, Lookup, Effect, KindFits, Modifies, Replaced, NoSuchKey;
    assert Harmless(c.k);
    FixedReplies();
    MessagesHarmless(c.k);
    LiveHarmless(st, c.k, now);
    if Live(st, c.k, now).0.Some? {
      var e := Live(st, c.k, now).0.value;
      if KindFits(c, KindOf(e.data)) {
        EffectHarmless(c, args, e.data);
        ReplacedHarmless(st, c.k, e.(data := Effect(c, e.data).1));
      }
    }
  }

  lemma MakeHarmless(st: Chains, c: Cmd, args: seq<string>, a: byte)
    requires |st| == TABLE_S && c.Make? && |c.auths| <= 2 && Shaped(args, c) && AllHarmless(args)
    ensures StepHarmless(st, StepMake(st, c, a))
  {
    hide Harmless, TableHarmless, Lookup, Assigned, IntOf;
    FixedReplies();
    AssignedHarmless(st, c.k, Str(c.v), 0, a);
    if |c.auths| == 1 {
      AssignedHarmless(st, c.k, Str(c.v), IntOf(c.auths[0]).1, a);
    } else if |c.auths| == 2 {
      AssignedHarmless(st, c.k, Str(c.v), IntOf(c.auths[0]).1, IntOf(c.auths[1]).1);
    }
  }

  lemma BuildHarmless(st: Chains, c: Cmd, args: seq<string>, a: byte)
    requires |st| == TABLE_S && Builds(c) && Shaped(args, c) && AllHarmless(args)
    ensures StepHarmless(st, StepBuild(st, c, a))
  {
    hide Harmless, DataHarmless, TableHarmless, Lookup, Assigned, Join, PushAll, PutAll, SplitOf;
    FixedReplies();
    var kind := if c.LMake? then ListKind else if c.SMake? then SetKind else MapKind;
    var text := Join(c.parts, ',');
    JoinHarmless(c.parts);
    EncodeHarmless(text, kind);
    AssignedHarmless(st, c.k, Encode(text, kind), 0, a);
    DecimalHarmless(|c.parts|);
    if c.SMake? {
      DecimalHarmless(|Flat(Encode(text, SetKind).buckets)|);
    }
  }

  lemma AuthHarmless(st: Chains, k: string, level: string, a: byte, isRead: bool)
    requires |st| == TABLE_S && Harmless(k) && KeyHarmless(st, k)
    ensures StepHarmless(st, StepAuth(st, k, level, a, isRead))
  {
    hide Harmless, DataHarmless, TableHarmless, Lookup, Replaced, IntOf, NoSuchKey;
    FixedReplies();
    MessagesHarmless(k);
    if Lookup(st, k).Some? {
      var e := Lookup(st, k).value;
      ReplacedHarmless(st, k, if isRead then WithAuthr(e, IntOf(level).1) else WithAuthw(e, IntOf(level).1));
    }
  }

  lemma DelHarmless(st: Chains, k: string, a: byte)
    requires |st| == TABLE_S && Harmless(k)
    ensures StepHarmless(st, StepDel(st, k, a))
  {
    hide Harmless, TableHarmless, Lookup, Dropped, NoSuchKey;
    FixedReplies();
    MessagesHarmless(k);
    if Lookup(st, k).Some? {
      DroppedHarmless(st, k);
    }
  }

  lemma TimeHarmless(st: Chains, k: string, time: string, a: byte, now: int)
    requires |st| == TABLE_S && Harmless(k) && KeyHarmless(st, k)
    ensures StepHarmless(st, StepExpire(st, k, time, a, now)) && StepHarmless(st, StepTtl(st, k, a, now))
  {
    hide Harmless, DataHarmless, TableHarmless, Live, Lookup, Replaced, IntOf, NoSuchKey, Decimal, GetTtl;
    FixedReplies();
    MessagesHarmless(k);
    LiveHarmless(st, k, now);
    if Live(st, k, now).0.Some? {
      var e := Live(st, k, now).0.value;
      TtlKeepsData(e, now);
      DecimalHarmless(GetTtl(e, now).0);
      ReplacedHarmless(st, k, WithTtl(e, IntOf(time).1, now));
      ReplacedHarmless(st, k, GetTtl(e, now).1);
    }
  }

  lemma TtlKeepsData(e: Entry, now: int)
    ensures GetTtl(e, now).1.data == e.data
  {
  }

  lemma ShapeGivesKey(args: seq<string>, c: Cmd)
    requires Shaped(args, c) && HasKey(c) && AllHarmless(args)
    ensures Harmless(c.k)
  {
    hide Harmless;
  }

  /** If no token of a command about a key and no piece of the entry under its key contains
      the marking word or a backspace, the reply does not either; and a table of harmless
      pieces stays one. */
  lemma ReplyIsHarmless(st: Chains, args: seq<string>, a: byte, env: Env)
    requires |st| == TABLE_S && HasKey(Parse(args)) && AllHarmless(args) && KeyHarmless(st, Parse(args).k)
    ensures StepHarmless(st, Step(st, Parse(args), a, env))
  {
    hide Harmless, DataHarmless, TableHarmless, Parse, Shaped, KeyHarmless, AllHarmless;
    hide StepOnValue, StepMake, StepBuild, StepDel, StepAuth, StepExpire, StepTtl;
    var c := Parse(args);
    ParseShape(args);
    FixedReplies();
    if OnValue(c) {
      OnValueHarmless(st, c, args, a, env.now);
    } else if Builds(c) {
      BuildHarmless(st, c, args, a);
    } else if c.Make? {
      if |c.auths| <= 2 {
        MakeHarmless(st, c, args, a);
      }
    } else {
      ShapeGivesKey(args, c);
      DelHarmless(st, c.k, a);
      AuthHarmless(st, c.k, if c.AuthR? || c.AuthW? then c.level else "", a, c.AuthR?);
      TimeHarmless(st, c.k, if c.Expire? then c.time else "", a, env.now);
    }
  }

  /** Commands without a key of the table have fixed replies. */
  lemma OtherReplies(st: Chains, c: Cmd, a: byte, env: Env)
    requires |st| == TABLE_S && (c.Unknown? || c.Read?)
    ensures Harmless(Step(st, c, a, env).0)
  {
    hide Harmless, ReadLines, IntOf;
    FixedReplies();
    NoLetter(READ_FAILED);
    NoLetter(ABORTED);
  }

  lemma {:induction false} WordsHarmless(s: string)
    requires Harmless(s)
    ensures AllHarmless(Words(s))
    decreases |s|
  {
    hide Harmless;
    if s != "" {
      var i := IndexOf(s, ' ');
      HarmlessSlice(s, 0, i);
      HarmlessSlice(s, i, |s|);
      HarmlessSlice(s, 1, |s|);
      assert s[0..i] == s[..i] && s[i..|s|] == s[i..] && s[1..|s|] == s[1..];
      WordsHarmless(s[if s[0] == ' ' then 1 else i..]);
    }
  }

  lemma TokensHarmless(com: string)
    requires Harmless(com)
    ensures AllHarmless(Tokens(com))
  {
    hide Harmless;
    TokensAreWords(com);
    WordsHarmless(com);
  }

  lemma SetupHasBackspace(s: string)
    requires IsSetupReply(s)
    ensures BACKSPACE in s
  {
    assert s[1] == s[..2][1] == MAGIC[1];
  }

  /** A harmless reply is neither a redirection nor a set-up reply. */
  lemma HarmlessIsPlain(s: string)
    requires Harmless(s)
    ensures !Contains(s, REDIRECT) && !IsSetupReply(s)
  {
    if IsSetupReply(s) {
      SetupHasBackspace(s);
    }
  }
}
