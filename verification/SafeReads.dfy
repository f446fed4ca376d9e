/** Reading a snapshot and the table invariant: exactly when read keeps the authority order
    of every entry, and exactly which runs keep the invariant throughout. */
module SafeReads {
  import opened Cipher
  import opened Entries
  import opened Hashing
  import opened Machine
  import opened MachineInts
  import opened Safety
  import opened Snapshot
  import opened SnapshotLaws
  import opened SnapshotMaps
  import opened Store
  import opened StringCipher
  import opened Text

  /** The lines that are set: those before the first that ends the reading. */
  function Goods(ls: seq<Line>): (gs: seq<Line>)
    ensures AllGood(gs)
  {
    if ls == [] || !ls[0].Good? then [] else [ls[0]] + Goods(ls[1..])
  }

  /** Some key that is not in the table is set by one line only, and that line has a read
      authority above its write authority. */
  ghost predicate LeavesHigh(st: Chains, gs: seq<Line>)
    requires |st| == TABLE_S && AllGood(gs)
  {
    exists i :: 0 <= i < |gs| && gs[i].authr > gs[i].authw && Lookup(st, gs[i].key).None? && OnlyLine(gs, i)
  }

  lemma {:induction false} OnlyGoodsCount(st: Chains, ls: seq<Line>)
    requires |st| == TABLE_S
    ensures ApplyLines(st, ls).1 == ApplyLines(st, Goods(ls)).1
    decreases |ls|
  {
    hide Assigned;
    if ls != [] && ls[0].Good? {
      var g := ls[0];
      OnlyGoodsCount(Assigned(st, g.key, g.data, g.authr, g.authw), ls[1..]);
      assert Goods(ls)[1..] == Goods(ls[1..]);
    }
  }

  /** read sets the lines before the first bad one and answers OK when there is none; a
      damaged line makes it fail, and one that raises an exception or has an unknown type
      code makes it abort. Without a file or a number for a password nothing happens. */
  lemma ReadReplies(st: Chains, password: string, a: byte, env: Env)
    requires |st| == TABLE_S
    ensures var (reply, st') := Step(st, Read(password), a, env);
            if env.file.None? || !IntOf(password).0 then (reply, st') == (READ_FAILED, st)
            else var ls := Parsed(env.file.value, IntOf(password).1);
                 var gs := Goods(ls);
                 && |gs| <= |ls| && gs == ls[..|gs|] && st' == ApplyLines(st, gs).1
                 && reply == if |gs| == |ls| then OK
                             else if ls[|gs|].Damaged? then READ_FAILED else ABORTED
  {
    hide IntOf, Parsed, Goods, ApplyLines, Step;
    ReadIsStep(st, password, a, env);
    if env.file.Some? {
      var ls := Parsed(env.file.value, IntOf(password).1);
      OnlyGoodsCount(st, ls);
      OutcomeIs(st, ls);
    }
  }

  lemma ReadIsStep(st: Chains, password: string, a: byte, env: Env)
    requires |st| == TABLE_S
    ensures Step(st, Read(password), a, env) == StepRead(st, password, env.file)
  {
    hide StepRead;
  }

  lemma {:induction false} OutcomeIs(st: Chains, ls: seq<Line>)
    requires |st| == TABLE_S
    ensures var gs := Goods(ls);
            && |gs| <= |ls| && gs == ls[..|gs|] && (|gs| < |ls| ==> !ls[|gs|].Good?)
            && ApplyLines(st, ls).0 ==
               if |gs| == |ls| then Finished(true)
               else if ls[|gs|].Damaged? then Finished(false)
               else if ls[|gs|].LineThrew? then ReadThrew else ReadDangling
    decreases |ls|
  {
    hide Assigned;
    if ls != [] && ls[0].Good? {
      var g := ls[0];
      OutcomeIs(Assigned(st, g.key, g.data, g.authr, g.authw), ls[1..]);
      assert ls == [g] + ls[1..];
    }
  }

  // ---------------------------------------------------------- parsed lines

  ghost predicate LineOk(l: Line) {
    l.Good? ==> DataOk(l.data) && 0 <= l.authr < 256 && 0 <= l.authw < 256
  }

  lemma MessageOk(message: string)
    ensures LineOk(ParseMessage(message))
  {
    hide Encode, SplitOf, IntOf, DataOk;
    var args := SplitOf(message, ',');
    if |args| >= 5 {
      match KindOfCode(IntOf(args[0]).1)
      case None =>
      case Some(kind) => EncodeOk(if kind == StringKind then args[4] else Join(args[4..], ','), kind);
    }
  }

  lemma LineIsOk(line: string, password: int)
    ensures LineOk(ParseLine(line, password))
  {
    hide ParseMessage, DecodeText;
    match DecodeText(SNAPSHOT_N, password, line)
    case Decoded(message) => MessageOk(message);
    case _ =>
  }

  ghost predicate LinesOk(ls: seq<Line>) {
    forall i :: 0 <= i < |ls| ==> LineOk(ls[i])
  }

  lemma {:induction false} ParsedOk(lines: seq<string>, password: int)
    ensures LinesOk(Parsed(lines, password))
  {
    hide LineOk, ParseLine;
    if lines != [] && lines[0] != "" {
      LineIsOk(lines[0], password);
      ParsedOk(lines[1..], password);
    }
  }

  lemma {:induction false} GoodsOk(ls: seq<Line>)
    requires LinesOk(ls)
    ensures LinesOk(Goods(ls))
  {
    hide LineOk;
    if ls != [] && ls[0].Good? {
      GoodsOk(ls[1..]);
    }
  }

  // ------------------------------------------------- order of one key's entry

  /** All that EntryOk asks but the order of the authorities. */
  ghost predicate Loose(e: Entry) {
    DataOk(e.data) && !e.finished && 0 <= e.authr < 256 && 0 <= e.authw < 256
  }

  ghost predicate TableLoose(st: Chains) {
    WellFormed(st) && forall key :: Lookup(st, key).Some? ==> Loose(Lookup(st, key).value)
  }

  ghost predicate HighAt(st: Chains, key: string)
    requires |st| == TABLE_S
  {
    Lookup(st, key).Some? && Lookup(st, key).value.authr > Lookup(st, key).value.authw
  }

  lemma OkIsOrdered(st: Chains)
    requires |st| == TABLE_S
    ensures TableOk(st) <==> TableLoose(st) && forall key :: !HighAt(st, key)
  {
    hide SlotOf, Lookup, ChainOk, DataOk;
    if TableLoose(st) && forall key :: !HighAt(st, key) {
      forall key | Lookup(st, key).Some?
        ensures EntryOk(Lookup(st, key).value)
      {
        assert !HighAt(st, key);
      }
    }
  }

  lemma SetOne(st: Chains, g: Line)
    requires TableLoose(st) && g.Good? && LineOk(g)
    ensures TableLoose(Assigned(st, g.key, g.data, g.authr, g.authw))
    ensures HighAt(Assigned(st, g.key, g.data, g.authr, g.authw), g.key) <==>
            Lookup(st, g.key).None? && g.authr > g.authw
  {
    hide SlotOf, Lookup, ChainOk, DataOk, Assigned;
    var st' := Assigned(st, g.key, g.data, g.authr, g.authw);
    AssignedLookup(st, g.key, g.data, g.authr, g.authw, g.key);
    forall key | Lookup(st', key).Some?
      ensures Loose(Lookup(st', key).value)
    {
      AssignedLookup(st, g.key, g.data, g.authr, g.authw, key);
    }
  }

  /** Line i alone sets the key, which is not in the table, and leaves it out of order. */
  ghost predicate HighLine(st: Chains, gs: seq<Line>, key: string, i: nat)
    requires |st| == TABLE_S && AllGood(gs) && i < |gs|
  {
    gs[i].key == key && gs[i].authr > gs[i].authw && Lookup(st, key).None? && OnlyLine(gs, i)
  }

  ghost predicate Untouched(gs: seq<Line>, key: string)
    requires AllGood(gs)
  {
    forall i :: 0 <= i < |gs| ==> gs[i].key != key
  }

  lemma UntouchedStep(gs: seq<Line>, key: string)
    requires AllGood(gs) && gs != []
    ensures Untouched(gs, key) <==> gs[0].key != key && Untouched(gs[1..], key)
  {
    assert forall i :: 0 < i < |gs| ==> gs[i] == gs[1..][i - 1];
    assert forall i :: 0 <= i < |gs[1..]| ==> gs[1..][i] == gs[i + 1];
  }

  lemma OnlyLineStep(gs: seq<Line>, i: nat)
    requires AllGood(gs) && i < |gs|
    ensures i == 0 ==> (OnlyLine(gs, 0) <==> Untouched(gs[1..], gs[0].key))
    ensures i > 0 ==> (OnlyLine(gs, i) <==> gs[0].key != gs[i].key && OnlyLine(gs[1..], i - 1))
  {
    assert forall j :: 0 < j < |gs| ==> gs[j] == gs[1..][j - 1];
    assert forall j :: 0 <= j < |gs[1..]| ==> gs[1..][j] == gs[j + 1];
  }

  lemma HighLineStep(st: Chains, st': Chains, gs: seq<Line>, key: string)
    requires |st| == |st'| == TABLE_S && AllGood(gs) && gs != []
    requires gs[0].key == key ==> Lookup(st', key).Some?
    requires gs[0].key != key ==> Lookup(st', key) == Lookup(st, key)
    ensures (exists i :: 0 <= i < |gs| && HighLine(st, gs, key, i)) <==>
            if gs[0].key == key then gs[0].authr > gs[0].authw && Lookup(st, key).None? && Untouched(gs[1..], key)
            else exists i :: 0 <= i < |gs[1..]| && HighLine(st', gs[1..], key, i)
  {
    hide Lookup, OnlyLine, Untouched;
    var rest := gs[1..];
    OnlyLineStep(gs, 0);
    if gs[0].key == key {
      if i :| 0 <= i < |gs| && HighLine(st, gs, key, i) {
        OnlyLineStep(gs, i);
      }
      if gs[0].authr > gs[0].authw && Lookup(st, key).None? && Untouched(rest, key) {
        assert HighLine(st, gs, key, 0);
      }
    } else {
      if i :| 0 <= i < |gs| && HighLine(st, gs, key, i) {
        OnlyLineStep(gs, i);
        assert HighLine(st', rest, key, i - 1);
      }
      if i :| 0 <= i < |rest| && HighLine(st', rest, key, i) {
        OnlyLineStep(gs, i + 1);
        assert HighLine(st, gs, key, i + 1);
      }
    }
  }

  /** After the lines a key is out of order exactly when it was and no line sets it, or
      when it was not there and one line alone sets it out of order: a second line would
      go through the setters, which restore the order. */
  lemma {:induction false} OrderAfter(st: Chains, gs: seq<Line>, key: string)
    requires TableLoose(st) && AllGood(gs) && LinesOk(gs)
    ensures TableLoose(ApplyLines(st, gs).1)
    ensures HighAt(ApplyLines(st, gs).1, key) <==>
            (Untouched(gs, key) && HighAt(st, key)) || exists i :: 0 <= i < |gs| && HighLine(st, gs, key, i)
    decreases |gs|
  {
    hide Lookup, Assigned, ChainOk, HighLine, Untouched, LineOk;
    if gs == [] {
      assert Untouched(gs, key) by { UntouchedNone(key); }
    } else {
      var g, rest := gs[0], gs[1..];
      var st' := Assigned(st, g.key, g.data, g.authr, g.authw);
      SetOne(st, g);
      AssignedLookup(st, g.key, g.data, g.authr, g.authw, key);
      OrderAfter(st', rest, key);
      UntouchedStep(gs, key);
      HighLineStep(st, st', gs, key);
      if g.key == key {
        PresentHasNoHighLine(st', rest, key);
      }
    }
  }

  lemma UntouchedNone(key: string)
    ensures Untouched([], key)
  {
  }

  lemma PresentHasNoHighLine(st: Chains, gs: seq<Line>, key: string)
    requires |st| == TABLE_S && AllGood(gs) && Lookup(st, key).Some?
    ensures !exists i :: 0 <= i < |gs| && HighLine(st, gs, key, i)
  {
  }

  // --------------------------------------------------------------- whole reads

  lemma LeavesHighAt(st: Chains, gs: seq<Line>)
    requires |st| == TABLE_S && AllGood(gs)
    ensures LeavesHigh(st, gs) <==> exists key, i :: 0 <= i < |gs| && HighLine(st, gs, key, i)
  {
    hide Lookup, OnlyLine;
    if LeavesHigh(st, gs) {
      var i :| 0 <= i < |gs| && gs[i].authr > gs[i].authw && Lookup(st, gs[i].key).None? && OnlyLine(gs, i);
      assert HighLine(st, gs, gs[i].key, i);
    }
  }

  /** For any file, password and table in order: reading keeps the table invariant exactly
      when no key that is not in the table is set by one line alone that has a read
      authority above its write authority. */
  lemma ReadKeepsOrder(st: Chains, lines: seq<string>, password: int)
    requires TableOk(st)
    ensures TableOk(ReadLines(st, lines, password).1) <==> !LeavesHigh(st, Goods(Parsed(lines, password)))
  {
    hide SlotOf, ChainOk, Lookup, HighLine, LeavesHigh, Goods, Parsed, Loose, LineOk, EntryOk, Untouched;
    var ls := Parsed(lines, password);
    var gs := Goods(ls);
    var t := ReadLines(st, lines, password).1;
    ParsedOk(lines, password);
    GoodsOk(ls);
    OnlyGoodsCount(st, ls);
    OkIsOrdered(st);
    OkIsOrdered(t);
    LeavesHighAt(st, gs);
    OrderAfter(st, gs, "");
    if LeavesHigh(st, gs) {
      var key, i :| 0 <= i < |gs| && HighLine(st, gs, key, i);
      OrderAfter(st, gs, key);
    }
    if !TableOk(t) {
      var key :| HighAt(t, key);
      OrderAfter(st, gs, key);
      assert !HighAt(st, key);
    }
  }

  /** A file that save wrote from a table in order keeps any table in order. */
  lemma SavedFileIsSafe(st: Chains, t: Chains, password: int)
    requires TableOk(st) && AllRecOk(st) && Opens(password) && |t| == TABLE_S
    ensures !LeavesHigh(t, Goods(Parsed(SaveLines(st), password)))
  {
    hide SlotOf, ChainOk, Lookup, RecOk, DataOk, OnlyLine, SaveLines, Parsed, ReadBack, ParseLine, RecordLine;
    var gs := FileIsGood(st, password);
    AllAreSet(gs);
    forall i | 0 <= i < |gs|
      ensures gs[i].authr <= gs[i].authw
    {
      RecordsAreMap(st, i);
    }
  }

  lemma {:induction false} AllAreSet(gs: seq<Line>)
    requires AllGood(gs)
    ensures Goods(gs) == gs
  {
    if gs != [] {
      AllAreSet(gs[1..]);
    }
  }

  /** But one encrypted line with its authorities the wrong way round is enough to break
      the order, for every table that does not hold its key. */
  lemma ForeignFileBreaksOrder(r: Rec, t: Chains, password: int)
    requires RecOk(r) && r.entry.authr > r.entry.authw && ',' !in r.key && Opens(password)
    requires TableOk(t) && Lookup(t, r.key).None?
    ensures !TableOk(ReadLines(t, [RecordLine(r)], password).1)
  {
    hide SlotOf, ChainOk, Lookup, ReadBack, DataOk, ParseLine, RecordLine, CleanText, EntryOk;
    RecordIsAccepted(r, password);
    ReadKeepsOrder(t, [RecordLine(r)], password);
    ParsedAll([RecordLine(r)], password);
    var gs := Parsed([RecordLine(r)], password);
    AllAreSet(gs);
    assert OnlyLine(gs, 0);
  }

  // ---------------------------------------------------------------------- runs

  /** A call that is no read, or a read of a file that leaves no entry out of order. */
  ghost predicate SafeCall(st: Chains, c: Call) {
    && |st| == TABLE_S
    && (c.cmd.Read? && c.env.file.Some? && IntOf(c.cmd.password).0 ==>
          !LeavesHigh(st, Goods(Parsed(c.env.file.value, IntOf(c.cmd.password).1))))
  }

  lemma StepKeepsOkExactly(st: Chains, c: Call)
    requires TableOk(st)
    ensures TableOk(Step(st, c.cmd, c.auth, c.env).1) <==> SafeCall(st, c)
  {
    hide EntryOk, ChainOk, LeavesHigh, Goods, Parsed, ReadLines, IntOf, Step, StepRead;
    if c.cmd.Read? {
      ReadStep(st, c.cmd.password, c.auth, c.env);
      if c.env.file.Some? {
        ReadKeepsOrder(st, c.env.file.value, IntOf(c.cmd.password).1);
      }
    } else {
      StepKeepsTableOk(st, c.cmd, c.auth, c.env);
    }
  }

  lemma ReadStep(st: Chains, password: string, a: byte, env: Env)
    requires |st| == TABLE_S
    ensures Step(st, Read(password), a, env).1 ==
            if env.file.None? || !IntOf(password).0 then st
            else ReadLines(st, env.file.value, IntOf(password).1).1
  {
    hide IntOf, ReadLines;
  }

  lemma {:induction false} SafeRun(states: seq<Chains>, calls: seq<Call>, n: nat)
    requires IsRun(states, calls) && TableOk(states[0]) && n < |states|
    requires forall i :: 0 <= i < |calls| ==> SafeCall(states[i], calls[i])
    ensures TableOk(states[n])
  {
    hide TableOk, SafeCall, Step;
    if n > 0 {
      SafeRun(states, calls, n - 1);
      assert IsStep(states[n - 1], calls[n - 1], states[n]);
      StepKeepsOkExactly(states[n - 1], calls[n - 1]);
    }
  }

  /** For every run, read included: in every state each key is once in the chain of its
      hash, every entry's read authority is at most its write authority and no entry is
      marked finished, exactly when every read in it is safe. */
  lemma RunStaysOkExactly(states: seq<Chains>, calls: seq<Call>)
    requires IsRun(states, calls) && TableOk(states[0])
    ensures (forall n :: 0 <= n < |states| ==> TableOk(states[n])) <==>
            forall i :: 0 <= i < |calls| ==> SafeCall(states[i], calls[i])
  {
    hide TableOk, SafeCall, Step;
    if forall i :: 0 <= i < |calls| ==> SafeCall(states[i], calls[i]) {
      forall n | 0 <= n < |states|
        ensures TableOk(states[n])
      {
        SafeRun(states, calls, n);
      }
    }
    if forall n :: 0 <= n < |states| ==> TableOk(states[n]) {
      forall i | 0 <= i < |calls|
        ensures SafeCall(states[i], calls[i])
      {
        var j := i + 1;
        assert IsStep(states[i], calls[i], states[j]);
        StepKeepsOkExactly(states[i], calls[i]);
      }
    }
  }
}
