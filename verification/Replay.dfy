/** The command log: executing only the commands that command_type classifies as Write
    rebuilds the table, exactly as long as no other command meets an expired entry. */
module Replay {
  import opened Entries
  import opened Hashing
  import opened MachineInts
  import opened Machine
  import opened Safety
  import opened Store
  import opened Text

  /** The commands that go into the log. */
  predicate Logs(c: Cmd) {
    c.Make? || c.Del? || Builds(c) || c.AuthR? || c.AuthW? || c.Expire? || c.Read? || (OnValue(c) && Modifies(c))
  }

  /** The two dispatch tables agree: a line is classified as Write exactly when execute
      takes it for a command that can change the table. */
  lemma ClassesAgree(args: seq<string>)
    ensures CommandType(args) == WriteType <==> Logs(Parse(args))
  {
    if args != [] {
      assert "xkeys" != "keys" && "xsave" != "save" && "xkeys"[0] == 'x' && "xsave"[0] == 'x';
    }
  }

  /** A command addresses an entry that has expired. */
  predicate MeetsDead(st: Chains, c: Cmd, now: int)
    requires |st| == TABLE_S
  {
    HasKey(c) && Lookup(st, c.k).Some? && IsExpired(Lookup(st, c.k).value, now)
  }

  lemma DroppedDiffers(st: Chains, k: string)
    requires |st| == TABLE_S && Lookup(st, k).Some?
    ensures Dropped(st, k) != st
  {
    hide SlotOf;
    assert |Dropped(st, k)[SlotOf(k)]| == |st[SlotOf(k)]| - 1;
  }

  /** On any table a command outside the log leaves the table alone exactly when it does
      not address an expired entry, which it would drop. */
  lemma QuietExactly(st: Chains, c: Cmd, a: byte, env: Env)
    requires |st| == TABLE_S && !Logs(c)
    ensures Step(st, c, a, env).1 == st <==> !MeetsDead(st, c, env.now)
  {
    hide SlotOf, Dropped, Replaced, Lookup, Effect, KindFits;
    if HasKey(c) && Lookup(st, c.k).Some? {
      DroppedDiffers(st, c.k);
      ReplacedBySame(st, c.k);
    }
  }

  /** No entry carries a deadline. */
  ghost predicate NoDeadline(st: Chains)
    requires |st| == TABLE_S
  {
    forall key :: Lookup(st, key).Some? ==> Lookup(st, key).value.ttl == -1 && !Lookup(st, key).value.finished
  }

  /** The entry under a key has no deadline, or it is an old one with its old deadline. */
  ghost predicate DeadlineKept(was: Option<Entry>, after: Option<Entry>) {
    after.Some? ==>
      || (after.value.ttl == -1 && !after.value.finished)
      || (was.Some? && after.value.ttl == was.value.ttl && after.value.finished == was.value.finished)
  }

  lemma ReplacedKeeps(st: Chains, k: string, e: Entry, key: string)
    requires WellFormed(st) && Lookup(st, k).Some? && DeadlineKept(Lookup(st, k), Some(e))
    ensures DeadlineKept(Lookup(st, key), Lookup(Replaced(st, k, e), key))
  {
    ReplacedRefines(st, k, e, key);
  }

  lemma AssignedKeeps(st: Chains, k: string, d: Data, r: int, w: int, key: string)
    requires WellFormed(st)
    ensures DeadlineKept(Lookup(st, key), Lookup(Assigned(st, k, d, r, w), key))
  {
    AssignedRefines(st, k, d, r, w, key);
  }

  lemma OnValueKeeps(st: Chains, c: Cmd, a: byte, now: int, key: string)
    requires TableOk(st) && OnValue(c)
    ensures DeadlineKept(Lookup(st, key), Lookup(StepOnValue(st, c, a, now).1, key))
  {
    if Lookup(st, c.k).Some? {
      var e := Lookup(st, c.k).value;
      if IsExpired(e, now) {
        DroppedRefines(st, c.k, key);
      } else if KindFits(c, KindOf(e.data)) && Modifies(c) && a >= e.authw {
        ReplacedKeeps(st, c.k, e.(data := Effect(c, e.data).1), key);
      }
    }
  }

  lemma MakeKeeps(st: Chains, c: Cmd, a: byte, key: string)
    requires WellFormed(st) && c.Make? && |c.auths| <= 2
    ensures DeadlineKept(Lookup(st, key), Lookup(StepMake(st, c, a).1, key))
  {
    var r := if |c.auths| == 0 then 0 else IntOf(c.auths[0]).1;
    var w := if |c.auths| < 2 then a as int else IntOf(c.auths[1]).1;
    AssignedKeeps(st, c.k, Str(c.v), r, w, key);
  }

  lemma ContainerKeeps(st: Chains, k: string, d: Data, reply: string, a: byte, key: string)
    requires WellFormed(st)
    ensures DeadlineKept(Lookup(st, key), Lookup(StepContainer(st, k, d, reply, a).1, key))
  {
    AssignedKeeps(st, k, d, 0, a, key);
  }

  lemma BuildKeeps(st: Chains, c: Cmd, a: byte, key: string)
    requires WellFormed(st) && Builds(c)
    ensures DeadlineKept(Lookup(st, key), Lookup(StepBuild(st, c, a).1, key))
  {
    var text := Join(c.parts, ',');
    match c
    case LMake(k, parts) => ContainerKeeps(st, k, Encode(text, ListKind), Decimal(|parts|), a, key);
    case SMake(k, parts) =>
      var d := Encode(text, SetKind);
      ContainerKeeps(st, k, d, Decimal(|SetBuckets.Flat(d.buckets)|), a, key);
    case HMake(k, parts) => ContainerKeeps(st, k, Encode(text, MapKind), OK, a, key);
  }

  lemma AuthKeeps(st: Chains, k: string, level: string, a: byte, isRead: bool, key: string)
    requires WellFormed(st)
    ensures DeadlineKept(Lookup(st, key), Lookup(StepAuth(st, k, level, a, isRead).1, key))
  {
    if Lookup(st, k).Some? {
      var e, x := Lookup(st, k).value, IntOf(level).1;
      ReplacedKeeps(st, k, if isRead then WithAuthr(e, x) else WithAuthw(e, x), key);
    }
  }

  lemma TtlKeeps(st: Chains, k: string, a: byte, now: int, key: string)
    requires WellFormed(st)
    ensures DeadlineKept(Lookup(st, key), Lookup(StepTtl(st, k, a, now).1, key))
  {
    if Lookup(st, k).Some? {
      DroppedRefines(st, k, key);
      ReplacedBySame(st, k);
    }
  }

  lemma StructuralKeeps(st: Chains, c: Cmd, a: byte, env: Env, key: string)
    requires TableOk(st) && !c.Read? && !c.Expire? && !OnValue(c) && !Builds(c)
    ensures DeadlineKept(Lookup(st, key), Lookup(Step(st, c, a, env).1, key))
  {
    hide Lookup, SlotOf, StepMake, StepAuth, StepTtl, Dropped, Visible;
    match c
    case Make(k, v, auths) => if |auths| <= 2 { MakeKeeps(st, c, a, key); }
    case Del(k) => if Lookup(st, k).Some? { DroppedRefines(st, k, key); }
    case AuthR(k, level) => AuthKeeps(st, k, level, a, true, key);
    case AuthW(k, level) => AuthKeeps(st, k, level, a, false, key);
    case Ttl(k) => TtlKeeps(st, k, a, env.now, key);
    case Keys =>
    case Save =>
    case Unknown =>
  }

  /** Only expire sets deadlines. */
  lemma StepKeepsDeadlines(st: Chains, c: Cmd, a: byte, env: Env, key: string)
    requires TableOk(st) && !c.Read? && !c.Expire?
    ensures DeadlineKept(Lookup(st, key), Lookup(Step(st, c, a, env).1, key))
  {
    if OnValue(c) {
      OnValueKeeps(st, c, a, env.now, key);
    } else if Builds(c) {
      BuildKeeps(st, c, a, key);
    } else {
      StructuralKeeps(st, c, a, env, key);
    }
  }

  lemma StepNoDeadline(st: Chains, c: Cmd, a: byte, env: Env)
    requires TableOk(st) && NoDeadline(st) && !c.Read? && !c.Expire?
    ensures NoDeadline(Step(st, c, a, env).1)
  {
    var st' := Step(st, c, a, env).1;
    forall key | Lookup(st', key).Some?
      ensures Lookup(st', key).value.ttl == -1 && !Lookup(st', key).value.finished
    {
      StepKeepsDeadlines(st, c, a, env, key);
    }
  }

  // ---------------------------------------------------------------- the log

  predicate InLog(ev: Event) {
    CommandType(Tokens(ev.line)) == WriteType
  }

  /** The events that are appended to the log, in order. */
  function LogOf(events: seq<Event>): seq<Event> {
    if events == [] then []
    else if InLog(events[0]) then [events[0]] + LogOf(events[1..])
    else LogOf(events[1..])
  }

  /** No line outside the log ever addresses an expired entry. */
  predicate NoDeadRead(st: Chains, events: seq<Event>, own: Range)
    requires |st| == TABLE_S
    decreases |events|
  {
    events != [] ==>
      && (InLog(events[0]) || !MeetsDead(st, CmdOf(events[0].line, own), events[0].env.now))
      && NoDeadRead(After(st, events[0], own), events[1..], own)
  }

  /** The table after one line. */
  function After(st: Chains, ev: Event, own: Range): (r: Chains)
    requires |st| == TABLE_S
    ensures |r| == TABLE_S
  {
    Execute(st, ev.line, ev.auth, ev.env, own).1
  }

  lemma NotLogged(ev: Event, own: Range)
    requires !InLog(ev)
    ensures !Logs(CmdOf(ev.line, own))
  {
    hide Parse, Screen, Tokens, CommandType;
    ClassesAgree(Tokens(ev.line));
  }

  lemma UnloggedLine(st: Chains, ev: Event, own: Range)
    requires |st| == TABLE_S && !InLog(ev)
    ensures After(st, ev, own) == st <==> !MeetsDead(st, CmdOf(ev.line, own), ev.env.now)
  {
    hide Execute, Step, CmdOf, MeetsDead, Logs, InLog;
    ExecuteIsStep(st, ev, own);
    NotLogged(ev, own);
    QuietExactly(st, CmdOf(ev.line, own), ev.auth, ev.env);
  }

  lemma RunNone(st: Chains, own: Range)
    requires |st| == TABLE_S
    ensures RunLines(st, [], own) == st && LogOf([]) == []
  {
  }

  lemma RunCons(st: Chains, ev: Event, rest: seq<Event>, own: Range)
    requires |st| == TABLE_S
    ensures RunLines(st, [ev] + rest, own) == RunLines(After(st, ev, own), rest, own)
    ensures LogOf([ev] + rest) == (if InLog(ev) then [ev] else []) + LogOf(rest)
  {
    assert ([ev] + rest)[1..] == rest;
  }

  lemma {:induction false} ReplayAgrees(st: Chains, events: seq<Event>, own: Range)
    requires |st| == TABLE_S && NoDeadRead(st, events, own)
    ensures RunLines(st, LogOf(events), own) == RunLines(st, events, own)
    decreases |events|
  {
    hide InLog, MeetsDead, CmdOf, After;
    if events != [] {
      var ev, rest := events[0], events[1..];
      assert events == [ev] + rest;
      RunCons(st, ev, rest, own);
      ReplayAgrees(After(st, ev, own), rest, own);
      if InLog(ev) {
        RunCons(st, ev, LogOf(rest), own);
      } else {
        UnloggedLine(st, ev, own);
      }
    }
  }

  lemma {:induction false} NoDeadReadPrefix(st: Chains, events: seq<Event>, own: Range, n: nat)
    requires |st| == TABLE_S && NoDeadRead(st, events, own) && n <= |events|
    ensures NoDeadRead(st, events[..n], own)
    decreases n
  {
    hide InLog, MeetsDead, CmdOf, After;
    if n > 0 {
      NoDeadReadPrefix(After(st, events[0], own), events[1..], own, n - 1);
      assert events[..n][1..] == events[1..][..n - 1];
    }
  }

  lemma {:induction false} ReplayDiverges(st: Chains, events: seq<Event>, own: Range) returns (n: nat)
    requires |st| == TABLE_S && !NoDeadRead(st, events, own)
    ensures n <= |events| && RunLines(st, LogOf(events[..n]), own) != RunLines(st, events[..n], own)
    decreases |events|
  {
    hide InLog, MeetsDead, CmdOf, After, RunLines, LogOf;
    var ev, rest := events[0], events[1..];
    if !InLog(ev) && MeetsDead(st, CmdOf(ev.line, own), ev.env.now) {
      n := 1;
      assert events[..1] == [ev] + [];
      RunCons(st, ev, [], own);
      RunNone(st, own);
      RunNone(After(st, ev, own), own);
      UnloggedLine(st, ev, own);
    } else {
      var m := ReplayDiverges(After(st, ev, own), rest, own);
      n := m + 1;
      assert events[..n] == [ev] + rest[..m];
      RunCons(st, ev, rest[..m], own);
      if InLog(ev) {
        RunCons(st, ev, LogOf(rest[..m]), own);
      } else {
        UnloggedLine(st, ev, own);
        assert [] + LogOf(rest[..m]) == LogOf(rest[..m]);
      }
    }
  }

  /** For every history of command lines from any table, expire and read included: the log
      rebuilds the table at every point of the history exactly when no line outside the
      log ever addresses an expired entry. */
  lemma LogReplaysExactly(st: Chains, events: seq<Event>, own: Range)
    requires |st| == TABLE_S
    ensures (forall n :: 0 <= n <= |events| ==> RunLines(st, LogOf(events[..n]), own) == RunLines(st, events[..n], own))
            <==> NoDeadRead(st, events, own)
  {
    hide InLog, MeetsDead, CmdOf, After, NoDeadRead, RunLines, LogOf;
    if NoDeadRead(st, events, own) {
      forall n | 0 <= n <= |events|
        ensures RunLines(st, LogOf(events[..n]), own) == RunLines(st, events[..n], own)
      {
        NoDeadReadPrefix(st, events, own, n);
        ReplayAgrees(st, events[..n], own);
      }
    } else {
      var n := ReplayDiverges(st, events, own);
    }
  }

  ghost predicate NoExpireNoRead(events: seq<Event>, own: Range) {
    forall i :: 0 <= i < |events| ==> !CmdOf(events[i].line, own).Expire? && !CmdOf(events[i].line, own).Read?
  }

  /** Without expire and read no deadline arises, so the condition holds. */
  lemma {:induction false} NothingDies(st: Chains, events: seq<Event>, own: Range)
    requires TableOk(st) && NoDeadline(st) && NoExpireNoRead(events, own)
    ensures NoDeadRead(st, events, own)
    decreases |events|
  {
    if events != [] {
      var ev := events[0];
      var c := CmdOf(ev.line, own);
      ExecuteIsStep(st, ev, own);
      hide InLog, CmdOf, Step, Execute;
      StepKeepsTableOk(st, c, ev.auth, ev.env);
      StepNoDeadline(st, c, ev.auth, ev.env);
      NothingDies(After(st, ev, own), events[1..], own);
    }
  }

  /** For any history without expire and read, from any table without deadlines, executing
      only the logged lines reaches the very same table. */
  lemma LogReplays(st: Chains, events: seq<Event>, own: Range)
    requires TableOk(st) && NoDeadline(st) && NoExpireNoRead(events, own)
    ensures RunLines(st, LogOf(events), own) == RunLines(st, events, own)
  {
    NothingDies(st, events, own);
    ReplayAgrees(st, events, own);
  }

  // ------------------------------------------- a history the log does not rebuild

  /** make, expire at once, get, make again: get finds the entry expired and drops it. */
  function DeadlineHistory(k: string, v: string, a: byte, now: int): seq<Event> {
    var env := Env(now, None, true);
    var make := Event(Join(["make", k, v], ' '), a, env);
    [make, Event(Join(["expire", k, "0"], ' '), a, env), Event(Join(["get", k], ' '), a, env), make]
  }

  lemma LineIs(ws: seq<string>, own: Range)
    requires AreWords(ws) && |ws| >= 2 && !IsSetup(ws[0]) && InRange(SlotOf(ws[1]), own)
    ensures CmdOf(Join(ws, ' '), own) == Parse(ws) && Tokens(Join(ws, ' ')) == ws
  {
    LineOfWords(ws);
  }

  lemma HistoryCommands(k: string, v: string, a: byte, now: int, own: Range)
    requires AreWords([k, v]) && InRange(SlotOf(k), own)
    ensures var h := DeadlineHistory(k, v, a, now);
            && CmdOf(h[0].line, own) == Make(k, v, []) && CmdOf(h[1].line, own) == Expire(k, "0")
            && CmdOf(h[2].line, own) == Get(k) && InLog(h[0]) && InLog(h[1]) && !InLog(h[2])
  {
    hide Join, SlotOf, CmdOf, Parse, CommandType, Tokens, AreWords, IsSetup;
    FirstWords(k, v);
    LineIs(["make", k, v], own);
    LineIs(["expire", k, "0"], own);
    LineIs(["get", k], own);
    ParseThree(k, v);
  }

  lemma FirstWords(k: string, v: string)
    requires AreWords([k, v])
    ensures AreWords(["make", k, v]) && AreWords(["expire", k, "0"]) && AreWords(["get", k])
    ensures !IsSetup("make") && !IsSetup("expire") && !IsSetup("get")
  {
    assert [k, v][0] == k && [k, v][1] == v;
  }

  lemma ParseThree(k: string, v: string)
    ensures Parse(["make", k, v]) == Make(k, v, []) && CommandType(["make", k, v]) == WriteType
    ensures Parse(["expire", k, "0"]) == Expire(k, "0") && CommandType(["expire", k, "0"]) == WriteType
    ensures Parse(["get", k]) == Get(k) && CommandType(["get", k]) == ReadType
  {
    assert ["make", k, v][3..] == [];
  }

  /** With a deadline in the history the log is not enough: the get that drops the expired
      entry is not logged, so that in the replay the second make inherits the old
      deadline, while in the history it starts afresh. */
  lemma ExpireBreaksReplay(k: string, v: string, a: byte, now: int, own: Range)
    requires AreWords([k, v]) && InRange(SlotOf(k), own)
    ensures var h := DeadlineHistory(k, v, a, now);
            RunLines(NoChains(), LogOf(h), own) != RunLines(NoChains(), h, own)
  {
    hide SlotOf, CmdOf, InLog, Join, Step, Execute;
    var h := DeadlineHistory(k, v, a, now);
    HistoryCommands(k, v, a, now, own);
    EmptyTableOk();
    var s1 := MakeOnMissing(NoChains(), k, v, h[0], own);
    var s2 := ExpireNow(s1, k, NewEntry(Str(v), 0, a), h[1], own);
    var s3 := GetDrops(s2, k, h[2], own);
    var s4 := MakeOnMissing(s3, k, v, h[3], own);
    var s5 := MakeOnDead(s2, k, v, h[3], own);
    RunOfFour(NoChains(), h, own);
    LogOfFour(h);
    RunOfThree(NoChains(), [h[0], h[1], h[3]], own);
  }

  lemma RunOfThree(st: Chains, h: seq<Event>, own: Range)
    requires |st| == TABLE_S && |h| == 3
    ensures RunLines(st, h, own) == After(After(After(st, h[0], own), h[1], own), h[2], own)
  {
    hide After;
    var s := After(st, h[0], own);
    var t := After(s, h[1], own);
    assert h == [h[0]] + [h[1], h[2]] && [h[1], h[2]] == [h[1]] + [h[2]] && [h[2]] == [h[2]] + [];
    RunCons(st, h[0], [h[1], h[2]], own);
    RunCons(s, h[1], [h[2]], own);
    RunCons(t, h[2], [], own);
  }

  lemma RunOfFour(st: Chains, h: seq<Event>, own: Range)
    requires |st| == TABLE_S && |h| == 4
    ensures RunLines(st, h, own) == After(After(After(After(st, h[0], own), h[1], own), h[2], own), h[3], own)
  {
    hide After;
    assert h == [h[0]] + h[1..];
    RunCons(st, h[0], h[1..], own);
    RunOfThree(After(st, h[0], own), h[1..], own);
  }

  lemma LogOfFour(h: seq<Event>)
    requires |h| == 4 && InLog(h[0]) && InLog(h[1]) && !InLog(h[2]) && InLog(h[3])
    ensures LogOf(h) == [h[0], h[1], h[3]]
  {
    hide InLog;
    assert h[1..][1..] == h[2..] && h[2..][1..] == h[3..] && h[3..][1..] == [];
    assert LogOf(h[3..]) == [h[3]];
    assert LogOf(h[2..]) == [h[3]];
    assert LogOf(h[1..]) == [h[1], h[3]];
  }

  lemma MakeOnMissing(st: Chains, k: string, v: string, ev: Event, own: Range) returns (st': Chains)
    requires WellFormed(st) && Lookup(st, k).None? && CmdOf(ev.line, own) == Make(k, v, [])
    ensures st' == After(st, ev, own)
    ensures WellFormed(st') && Lookup(st', k) == Some(NewEntry(Str(v), 0, ev.auth))
  {
    hide SlotOf, CmdOf, Execute;
    ExecuteIsStep(st, ev, own);
    st' := Assigned(st, k, Str(v), 0, ev.auth);
    AssignedRefines(st, k, Str(v), 0, ev.auth, k);
  }

  lemma MakeOnDead(st: Chains, k: string, v: string, ev: Event, own: Range) returns (st': Chains)
    requires WellFormed(st) && Lookup(st, k).Some? && Lookup(st, k).value.ttl == 0
    requires ev.auth >= Lookup(st, k).value.authw && CmdOf(ev.line, own) == Make(k, v, [])
    ensures st' == After(st, ev, own)
    ensures WellFormed(st') && Lookup(st', k).Some? && Lookup(st', k).value.ttl == 0
  {
    hide SlotOf, CmdOf, Execute;
    ExecuteIsStep(st, ev, own);
    st' := Assigned(st, k, Str(v), 0, ev.auth);
    AssignedRefines(st, k, Str(v), 0, ev.auth, k);
  }

  lemma ExpireNow(st: Chains, k: string, e: Entry, ev: Event, own: Range) returns (st': Chains)
    requires WellFormed(st) && Lookup(st, k) == Some(e) && e.ttl == -1 && !e.finished && ev.auth >= e.authw
    requires CmdOf(ev.line, own) == Expire(k, "0")
    ensures st' == After(st, ev, own)
    ensures WellFormed(st') && Lookup(st', k) == Some(WithTtl(e, 0, ev.env.now))
  {
    hide SlotOf, CmdOf, Execute;
    ExecuteIsStep(st, ev, own);
    assert IntOf("0") == (true, 0) by {
      PrintedIntReadsBack(0);
      assert Decimal(0) == "0";
    }
    st' := Replaced(st, k, WithTtl(e, 0, ev.env.now));
    ReplacedRefines(st, k, WithTtl(e, 0, ev.env.now), k);
  }

  lemma GetDrops(st: Chains, k: string, ev: Event, own: Range) returns (st': Chains)
    requires WellFormed(st) && Lookup(st, k).Some? && IsExpired(Lookup(st, k).value, ev.env.now)
    requires CmdOf(ev.line, own) == Get(k)
    ensures st' == After(st, ev, own)
    ensures WellFormed(st') && Lookup(st', k).None?
  {
    hide SlotOf, CmdOf, Execute;
    ExecuteIsStep(st, ev, own);
    st' := Dropped(st, k);
    DroppedRefines(st, k, k);
  }
}
