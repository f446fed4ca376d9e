/** Exactly when a reply can be taken for a redirection or a set-up reply by the test of
    scan_and_send in src/server_th.cpp: a condition on the arguments of the command and on
    what it finds in the table. */
module PlainReplies {
  import opened Entries
  import opened FieldPairs
  import opened Hashing
  import opened LinkedList
  import opened Machine
  import opened MachineInts
  import opened OneHop
  import opened Redirects
  import opened Routing
  import opened SetBuckets
  import opened SlotRanges
  import opened Snapshot
  import opened Sorting
  import opened Store
  import opened Text

  /** Some piece contains the marking word. */
  ghost predicate Marked(ps: seq<string>) {
    exists i :: 0 <= i < |ps| && Contains(ps[i], REDIRECT)
  }

  /** No piece contains the word, and the pieces are not a set-up reply on its own. */
  ghost predicate PlainParts(ps: seq<string>) {
    !Marked(ps) && !(|ps| == 1 && IsSetupReply(ps[0]))
  }

  // ---------------------------------------------------------- joined pieces

  lemma MarkedCons(p: string, ps: seq<string>)
    ensures Marked([p] + ps) <==> Contains(p, REDIRECT) || Marked(ps)
  {
    hide Contains;
    var qs := [p] + ps;
    if Contains(p, REDIRECT) {
      assert Contains(qs[0], REDIRECT);
    }
    if i :| 0 <= i < |ps| && Contains(ps[i], REDIRECT) {
      assert Contains(qs[i + 1], REDIRECT);
    }
    if i :| 0 <= i < |qs| && Contains(qs[i], REDIRECT) {
      assert i > 0 ==> qs[i] == ps[i - 1];
    }
  }

  lemma ContainsEither(p: string, q: string)
    ensures Contains(p + [','] + q, REDIRECT) <==> Contains(p, REDIRECT) || Contains(q, REDIRECT)
  {
    hide Contains;
    var s := p + [','] + q;
    assert s[0..|p|] == p && s[|p| + 1..|s|] == q;
    if Contains(p, REDIRECT) {
      ContainsSlice(s, 0, |p|, REDIRECT);
    }
    if Contains(q, REDIRECT) {
      ContainsSlice(s, |p| + 1, |s|, REDIRECT);
    }
    if Contains(s, REDIRECT) {
      ContainsAround(p, ',', q, REDIRECT);
    }
  }

  /** Joined pieces contain the word exactly when a piece does. */
  lemma {:induction false} JoinMarked(ps: seq<string>)
    ensures Contains(Join(ps, ','), REDIRECT) <==> Marked(ps)
  {
    if ps != [] {
      hide Contains, Marked;
      assert ps == [ps[0]] + ps[1..];
      MarkedCons(ps[0], ps[1..]);
      if |ps| == 1 {
        NoneMarked();
      } else {
        JoinMarked(ps[1..]);
        ContainsEither(ps[0], Join(ps[1..], ','));
      }
    }
  }

  lemma NoneMarked()
    ensures !Marked([])
  {
  }

  lemma SetupHasNoComma(s: string)
    requires IsSetupReply(s)
    ensures ',' !in s
  {
    assert s == s[..2] + s[2..];
  }

  lemma JoinSetup(ps: seq<string>)
    ensures IsSetupReply(Join(ps, ',')) <==> |ps| == 1 && IsSetupReply(ps[0])
  {
    hide IsSetupReply;
    if |ps| > 1 {
      assert Join(ps, ',')[|ps[0]|] == ',';
      if IsSetupReply(Join(ps, ',')) {
        SetupHasNoComma(Join(ps, ','));
      }
    } else if ps == [] {
      EmptyIsPlain();
    }
  }

  lemma EmptyIsPlain()
    ensures Plain("") && Plain(EMPTY)
  {
    NoLetter("");
    NoLetter(EMPTY);
    HarmlessIsPlain("");
    HarmlessIsPlain(EMPTY);
  }

  lemma JoinPlain(ps: seq<string>)
    ensures Plain(Join(ps, ',')) <==> PlainParts(ps)
  {
    hide Contains, IsSetupReply, Marked, Join;
    JoinMarked(ps);
    JoinSetup(ps);
  }

  /** Sorting moves the pieces only. */
  lemma SortedPlain(text: string)
    ensures Plain(SortedText(text)) <==> Plain(text)
  {
    hide Plain, Contains, IsSetupReply, SplitOf;
    var ps := SplitOf(text, ',');
    SortedOrders(ps);
    MergeUndoesSplit(text, ',');
    JoinPlain(ps);
    JoinPlain(Sorted(ps));
    SamePieces(ps, Sorted(ps));
  }

  lemma SamePieces(ps: seq<string>, qs: seq<string>)
    requires multiset(ps) == multiset(qs)
    ensures PlainParts(ps) <==> PlainParts(qs)
  {
    hide Contains, IsSetupReply, Marked;
    assert |ps| == |multiset(ps)| == |multiset(qs)| == |qs|;
    assert forall x :: x in ps <==> x in multiset(ps);
    assert forall x :: x in qs <==> x in multiset(qs);
    MarkedMoves(ps, qs);
    MarkedMoves(qs, ps);
    if |ps| == 1 {
      assert ps[0] in qs;
    }
  }

  lemma MarkedMoves(ps: seq<string>, qs: seq<string>)
    requires forall x :: x in ps ==> x in qs
    ensures Marked(ps) ==> Marked(qs)
  {
    hide Contains;
    if i :| 0 <= i < |ps| && Contains(ps[i], REDIRECT) {
      assert ps[i] in qs;
    }
  }

  /** A quoted word marks a refusal exactly when it contains the marking word. */
  lemma QuotedPlain(p: string, k: string)
    requires p != "" && p[0] != ' ' && 'h' !in p
    ensures Plain(p + "(" + k + ")") <==> !Contains(k, REDIRECT)
  {
    hide Contains;
    var s := p + "(" + k + ")";
    assert s[|p| + 1..|p| + 1 + |k|] == k;
    if Contains(k, REDIRECT) {
      ContainsSlice(s, |p| + 1, |p| + 1 + |k|, REDIRECT);
    }
    if Contains(s, REDIRECT) {
      Unquoted(p, k);
    }
    assert s[..2][0] == p[0];
  }

  lemma Unquoted(p: string, k: string)
    requires 'h' !in p && Contains(p + "(" + k + ")", REDIRECT)
    ensures Contains(k, REDIRECT)
  {
    hide Contains;
    assert p + "(" + k + ")" == p + ['('] + (k + [')'] + "");
    ContainsAround(p, '(', k + [')'] + "", REDIRECT);
    NoWord(p);
    NoWord("");
    ContainsAround(k, ')', "", REDIRECT);
  }

  lemma NoWord(p: string)
    requires 'h' !in p
    ensures !Contains(p, REDIRECT)
  {
    hide Contains;
    assert REDIRECT[0] == 'h';
    if Contains(p, REDIRECT) {
      var i := FindOccurrence(p, REDIRECT);
      OccurrenceChar(p, REDIRECT, i, i);
    }
  }

  // ------------------------------------------------ commands on one live value

  /** What a granted command prints is plain: the pieces of a value, a single element, or a
      refusal that names an element or a field. */
  ghost predicate ShowsPlain(c: Cmd, d: Data)
    requires OnValue(c) && KindFits(c, KindOf(d))
  {
    match c
    case Get(_) => PlainParts(ValueParts(d))
    case Sort(_) => PlainParts(ValueParts(d))
    case LGet(_, index) =>
      d.items != [] && IntOf(index).0 ==> Plain(d.items[Position(IntOf(index).1, |d.items|)])
    case LPop(_) => d.items != [] ==> Plain(d.items[0])
    case RPop(_) => d.items != [] ==> Plain(d.items[|d.items| - 1])
    case SPop(_) => Flat(d.buckets) != [] ==> Plain(Popped(d.buckets).0)
    case SErase(_, x) => Flat(d.buckets) != [] && !Erased(d.buckets, x).0 ==> !Contains(x, REDIRECT)
    case HGet(_, f) =>
      d.pairs != [] ==> if ValueOf(d.pairs, f) == "NULL" then !Contains(f, REDIRECT) else Plain(ValueOf(d.pairs, f))
    case HFields(_) => PlainParts(FieldsOf(d.pairs))
    case HVals(_) => PlainParts(ValuesOf(d.pairs))
    case HErase(_, f) => d.pairs != [] && FieldAt(d.pairs, f) == |d.pairs| ==> !Contains(f, REDIRECT)
    case _ => true
  }

  lemma FixedPlain()
    ensures Plain(OK) && Plain(DENIED) && Plain(INVALID_COMMAND) && Plain(INVALID_AUTH) && Plain(INVALID_TYPE)
    ensures Plain(INVALID_INDEX) && Plain(INVALID_TIME) && Plain(EMPTY_LIST) && Plain(EMPTY_MAP) && Plain("")
  {
    hide Harmless, Plain;
    FixedReplies();
    HarmlessPlain(OK);
    HarmlessPlain(DENIED);
    HarmlessPlain(INVALID_COMMAND);
    HarmlessPlain(INVALID_AUTH);
    HarmlessPlain(INVALID_TYPE);
    HarmlessPlain(INVALID_INDEX);
    HarmlessPlain(INVALID_TIME);
    HarmlessPlain(EMPTY_LIST);
    HarmlessPlain(EMPTY_MAP);
    HarmlessPlain("");
  }

  lemma HarmlessPlain(s: string)
    requires Harmless(s)
    ensures Plain(s)
  {
    HarmlessIsPlain(s);
  }

  lemma DecimalPlain(n: int)
    ensures Plain(Decimal(n))
  {
    hide Harmless, Plain;
    DecimalHarmless(n);
    HarmlessPlain(Decimal(n));
  }

  /** The refusals that name a word. */
  lemma NamedPlain(k: string)
    ensures Plain(NoSuchKey(k)) <==> !Contains(k, REDIRECT)
    ensures Plain(NoSuchField(k)) <==> !Contains(k, REDIRECT)
    ensures Plain(NoSuchElement(k)) <==> !Contains(k, REDIRECT)
  {
    hide Plain, Contains;
    QuotedPlain("ERROR : NO SUCH KEY ", k);
    QuotedPlain("ERROR : NO SUCH FIELD ", k);
    QuotedPlain("ERROR : NO SUCH ELEMENT ", k);
    assert NoSuchKey(k) == "ERROR : NO SUCH KEY " + "(" + k + ")";
    assert NoSuchField(k) == "ERROR : NO SUCH FIELD " + "(" + k + ")";
    assert NoSuchElement(k) == "ERROR : NO SUCH ELEMENT " + "(" + k + ")";
  }

  lemma DecodePlain(d: Data)
    ensures Plain(Decode(d)) <==> PlainParts(ValueParts(d))
  {
    hide Plain, PlainParts, Flat, Alternating;
    EmptyIsPlain();
    JoinPlain(ValueParts(d));
  }

  lemma NoParts()
    ensures PlainParts([])
  {
  }

  lemma ReaderPlain(c: Cmd, d: Data)
    requires OnValue(c) && KindFits(c, KindOf(d)) && !Modifies(c)
    ensures Plain(Effect(c, d).0) <==> ShowsPlain(c, d)
  {
    hide Plain, PlainParts, Contains, Join, SortedText, ValueOf, IntOf, Position, Decode, NoSuchField, Flat;
    FixedPlain();
    match c
    case Get(_) => DecodePlain(d);
    case Sort(_) =>
      SortedPlain(Join(ValueParts(d), ','));
      JoinPlain(ValueParts(d));
    case LGet(_, _) =>
    case HGet(_, f) => NamedPlain(f);
    case HFields(_) =>
      NoParts();
      JoinPlain(FieldsOf(d.pairs));
    case HVals(_) =>
      NoParts();
      JoinPlain(ValuesOf(d.pairs));
  }

  lemma ModifierPlain(c: Cmd, d: Data)
    requires OnValue(c) && KindFits(c, KindOf(d)) && Modifies(c)
    ensures Plain(Effect(c, d).0) <==> ShowsPlain(c, d)
  {
    hide Plain, Contains, NoSuchField, NoSuchElement, Flat, Popped, Erased, FieldAt, PushAll, Cut, Put, IntOf;
    FixedPlain();
    NamedPlain(if c.SErase? then c.x else if c.HErase? then c.f else "");
  }

  /** When the commands on one live value have a plain reply. */
  ghost predicate OnValuePlain(st: Chains, c: Cmd, a: byte, now: int)
    requires |st| == TABLE_S && OnValue(c)
  {
    match Live(st, c.k, now).0
    case None => !Contains(c.k, REDIRECT)
    case Some(e) =>
      KindFits(c, KindOf(e.data)) && a >= (if Modifies(c) then e.authw else e.authr) ==> ShowsPlain(c, e.data)
  }

  lemma OnValueIsPlain(st: Chains, c: Cmd, a: byte, now: int)
    requires |st| == TABLE_S && OnValue(c)
    ensures Plain(StepOnValue(st, c, a, now).0) <==> OnValuePlain(st, c, a, now)
  {
    hide Plain, ShowsPlain, Effect, Live, KindFits, Contains, Modifies, NoSuchKey;
    FixedPlain();
    NamedPlain(c.k);
    if Live(st, c.k, now).0.Some? {
      var e := Live(st, c.k, now).0.value;
      if KindFits(c, KindOf(e.data)) {
        if Modifies(c) {
          ModifierPlain(c, e.data);
        } else {
          ReaderPlain(c, e.data);
        }
      }
    }
  }

  // ------------------------------------------------------------ every command

  /** The condition under which a command has a plain reply, in terms of its arguments and
      the entries it finds. */
  ghost predicate PlainFor(st: Chains, c: Cmd, a: byte, now: int)
    requires |st| == TABLE_S
  {
    if OnValue(c) then OnValuePlain(st, c, a, now)
    else match c
      case Keys => PlainParts(Visible(st, KeysOf(st), a))
      case Del(k) => Lookup(st, k).None? ==> !Contains(k, REDIRECT)
      case AuthR(k, _) => Lookup(st, k).None? ==> !Contains(k, REDIRECT)
      case AuthW(k, _) => Lookup(st, k).None? ==> !Contains(k, REDIRECT)
      case Expire(k, time) => IntOf(time).0 && Live(st, k, now).0.None? ==> !Contains(k, REDIRECT)
      case Ttl(k) => Live(st, k, now).0.None? ==> !Contains(k, REDIRECT)
      case _ => true
  }

  lemma OutcomesPlain()
    ensures Plain(NO_FILE) && Plain(READ_FAILED) && Plain(ABORTED)
  {
    hide Harmless, Plain;
    NoLetter(NO_FILE);
    NoLetter(READ_FAILED);
    NoLetter(ABORTED);
    HarmlessPlain(NO_FILE);
    HarmlessPlain(READ_FAILED);
    HarmlessPlain(ABORTED);
  }

  lemma MakerPlain(st: Chains, c: Cmd, a: byte)
    requires |st| == TABLE_S
    ensures c.Make? && |c.auths| <= 2 ==> Plain(StepMake(st, c, a).0)
    ensures Builds(c) ==> Plain(StepBuild(st, c, a).0)
  {
    hide Plain, Lookup, Assigned, IntOf, PushAll, PutAll, SplitOf, Join, Flat, Decimal;
    FixedPlain();
    if Builds(c) {
      DecimalPlain(|c.parts|);
      if c.SMake? {
        DecimalPlain(|Flat(Encode(Join(c.parts, ','), SetKind).buckets)|);
      }
    }
  }

  lemma EntryPlain(st: Chains, k: string, text: string, a: byte, isRead: bool, now: int)
    requires |st| == TABLE_S
    ensures Plain(StepDel(st, k, a).0) <==> (Lookup(st, k).None? ==> !Contains(k, REDIRECT))
    ensures Plain(StepAuth(st, k, text, a, isRead).0) <==> (Lookup(st, k).None? ==> !Contains(k, REDIRECT))
    ensures Plain(StepExpire(st, k, text, a, now).0) <==>
            (IntOf(text).0 && Live(st, k, now).0.None? ==> !Contains(k, REDIRECT))
    ensures Plain(StepTtl(st, k, a, now).0) <==> (Live(st, k, now).0.None? ==> !Contains(k, REDIRECT))
  {
    hide Plain, Contains, Lookup, Live, Replaced, Dropped, IntOf, NoSuchKey, Decimal, GetTtl;
    FixedPlain();
    NamedPlain(k);
    if Live(st, k, now).0.Some? {
      DecimalPlain(GetTtl(Live(st, k, now).0.value, now).0);
    }
  }

  lemma ReadPlain(st: Chains, password: string, file: Option<seq<string>>)
    requires |st| == TABLE_S
    ensures Plain(StepRead(st, password, file).0)
  {
    hide Plain, ReadLines, IntOf;
    FixedPlain();
    OutcomesPlain();
  }

  lemma OtherPlain(st: Chains, c: Cmd, a: byte, env: Env)
    requires |st| == TABLE_S && !HasKey(c)
    ensures Plain(Step(st, c, a, env).0) <==> PlainFor(st, c, a, env.now)
  {
    hide Plain, PlainParts, Visible, KeysOf, StepRead, IntOf, Contains, Live, Lookup;
    hide StepOnValue, StepMake, StepBuild, StepDel, StepAuth, StepExpire, StepTtl;
    FixedPlain();
    OutcomesPlain();
    if c.Read? {
      ReadPlain(st, c.password, env.file);
    }
    if c.Keys? {
      JoinPlain(Visible(st, KeysOf(st), a));
    }
  }

  /** For every command, table, authority and time: the reply can be told from a redirection
      and from a set-up reply exactly under that condition. */
  lemma ReplyIsPlainExactly(st: Chains, c: Cmd, a: byte, env: Env)
    requires |st| == TABLE_S
    ensures Plain(Step(st, c, a, env).0) <==> PlainFor(st, c, a, env.now)
  {
    hide Plain, OnValuePlain, Contains, Lookup, Live, IntOf;
    hide StepOnValue, StepMake, StepBuild, StepDel, StepAuth, StepExpire, StepTtl;
    FixedPlain();
    if OnValue(c) {
      OnValueIsPlain(st, c, a, env.now);
    } else if c.Make? || Builds(c) {
      MakerPlain(st, c, a);
    } else if HasKey(c) {
      var text := if c.AuthR? || c.AuthW? then c.level else if c.Expire? then c.time else "";
      EntryPlain(st, c.k, text, a, c.AuthR?, env.now);
    } else {
      OtherPlain(st, c, a, env);
    }
  }

  /** So the owner of the key answers exactly then. */
  lemma AnsweredExactly(st: Chains, v: View, n: int, com: string, auth: int, env: Env)
    requires |st| == TABLE_S && OnKey(com) && 1 <= n && v.own == RangeOf(n, OwnerOf(n, KeySlot(com)))
    ensures ScanOf(st, v, com, auth, env).0.Answer? <==> PlainFor(st, Parse(Tokens(com)), auth % 256, env.now)
  {
    hide Plain, PlainFor, Step, Tokens, Parse, ScanOf, OwnerOf, RangeOf, OnKey, KeySlot;
    OwnerActs(st, v, n, com, auth, env);
    ReplyIsPlainExactly(st, Parse(Tokens(com)), auth % 256, env);
  }
}
