/** What every run of commands keeps, reads of any file included and from any well-formed
    table: expired entries stay expired, no entry is ever marked finished, and what a
    command without write authority can do to an entry. */
module AnyRun {
  import opened Entries
  import opened Hashing
  import opened Machine
  import opened MachineInts
  import opened Safety
  import opened SafeReads
  import opened Snapshot
  import opened SnapshotLaws
  import opened SnapshotMaps
  import opened Store
  import opened Text

  /** How the entry of a key may age: an expired one is gone or still expired, and the
      finished mark is not new. */
  ghost predicate Ages(was: Option<Entry>, after: Option<Entry>, now: int) {
    NotRevived(was, after, now) && (after.Some? && after.value.finished ==> was.Some? && was.value.finished)
  }

  /** Below the write authority of an entry a command can only drop it once it has expired. */
  ghost predicate Guarded(was: Option<Entry>, after: Option<Entry>, a: byte, now: int) {
    was.Some? && a < was.value.authw ==> after == was || (after.None? && IsExpired(was.value, now))
  }

  ghost predicate Kept(was: Option<Entry>, after: Option<Entry>, a: byte, now: int) {
    Ages(was, after, now) && Guarded(was, after, a, now)
  }

  /** The next table is well-formed and keeps the entry of a key. */
  ghost predicate Keeps(st: Chains, st': Chains, a: byte, now: int, key: string)
    requires |st| == |st'| == TABLE_S
  {
    WellFormed(st') && Kept(Lookup(st, key), Lookup(st', key), a, now)
  }

  // ------------------------------------------------------------- one command

  lemma ReplacedKept(st: Chains, k: string, e: Entry, a: byte, now: int, key: string)
    requires WellFormed(st) && Lookup(st, k).Some? && Kept(Lookup(st, k), Some(e), a, now)
    ensures Keeps(st, Replaced(st, k, e), a, now, key)
  {
    hide WellFormed, Lookup, Replaced;
    ReplacedRefines(st, k, e, key);
  }

  lemma DroppedKept(st: Chains, k: string, a: byte, now: int, key: string)
    requires WellFormed(st) && Lookup(st, k).Some? && Kept(Lookup(st, k), None, a, now)
    ensures Keeps(st, Dropped(st, k), a, now, key)
  {
    hide WellFormed, Lookup, Dropped;
    DroppedRefines(st, k, key);
  }

  lemma AssignedKept(st: Chains, k: string, d: Data, r: int, w: int, a: byte, now: int, key: string)
    requires WellFormed(st) && (Lookup(st, k).Some? ==> Lookup(st, k).value.authw <= a)
    ensures Keeps(st, Assigned(st, k, d, r, w), a, now, key)
  {
    hide WellFormed, Lookup, Assigned;
    AssignedRefines(st, k, d, r, w, key);
    AssignedRefines(st, k, d, r, w, k);
  }

  lemma LiveKept(st: Chains, k: string, a: byte, now: int, key: string)
    requires WellFormed(st)
    ensures Keeps(st, Live(st, k, now).1, a, now, key)
    ensures Live(st, k, now).0.Some? ==>
              && Live(st, k, now).1 == st && Lookup(st, k) == Live(st, k, now).0
              && !IsExpired(Live(st, k, now).0.value, now)
  {
    hide ChainOk, Lookup, Dropped;
    if Lookup(st, k).Some? && IsExpired(Lookup(st, k).value, now) {
      DroppedKept(st, k, a, now, key);
    }
  }

  lemma OnValueKept(st: Chains, c: Cmd, a: byte, now: int, key: string)
    requires WellFormed(st) && OnValue(c)
    ensures Keeps(st, StepOnValue(st, c, a, now).1, a, now, key)
  {
    hide ChainOk, Live, Lookup, Effect, KindFits, Modifies, Replaced;
    LiveKept(st, c.k, a, now, key);
    if Live(st, c.k, now).0.Some? {
      var e := Live(st, c.k, now).0.value;
      if KindFits(c, KindOf(e.data)) && a >= e.authw {
        ReplacedKept(st, c.k, e.(data := Effect(c, e.data).1), a, now, key);
      }
    }
  }

  lemma MakeKept(st: Chains, c: Cmd, a: byte, now: int, key: string)
    requires WellFormed(st) && c.Make? && |c.auths| <= 2
    ensures Keeps(st, StepMake(st, c, a).1, a, now, key)
  {
    hide ChainOk, Lookup, Assigned, IntOf;
    var r := if |c.auths| == 0 then 0 else IntOf(c.auths[0]).1;
    var w := if |c.auths| < 2 then a as int else IntOf(c.auths[1]).1;
    if Lookup(st, c.k).None? || a >= Lookup(st, c.k).value.authw {
      AssignedKept(st, c.k, Str(c.v), r, w, a, now, key);
    }
  }

  lemma BuildKept(st: Chains, c: Cmd, a: byte, now: int, key: string)
    requires WellFormed(st) && Builds(c)
    ensures Keeps(st, StepBuild(st, c, a).1, a, now, key)
  {
    hide ChainOk, Lookup, Assigned, Encode, Join, Decimal;
    var kind := if c.LMake? then ListKind else if c.SMake? then SetKind else MapKind;
    if Lookup(st, c.k).None? || a >= Lookup(st, c.k).value.authw {
      AssignedKept(st, c.k, Encode(Join(c.parts, ','), kind), 0, a, a, now, key);
    }
  }

  lemma AuthKept(st: Chains, k: string, level: string, a: byte, isRead: bool, now: int, key: string)
    requires WellFormed(st)
    ensures Keeps(st, StepAuth(st, k, level, a, isRead).1, a, now, key)
  {
    hide ChainOk, Lookup, Replaced, IntOf, NoSuchKey;
    if Lookup(st, k).Some? && a >= Lookup(st, k).value.authw {
      var e, x := Lookup(st, k).value, IntOf(level).1;
      ReplacedKept(st, k, if isRead then WithAuthr(e, x) else WithAuthw(e, x), a, now, key);
    }
  }

  lemma TimeKept(st: Chains, k: string, time: string, a: byte, now: int, key: string)
    requires WellFormed(st)
    ensures Keeps(st, StepExpire(st, k, time, a, now).1, a, now, key)
    ensures Keeps(st, StepTtl(st, k, a, now).1, a, now, key)
  {
    hide ChainOk, Live, Lookup, Replaced, IntOf, Decimal, NoSuchKey;
    LiveKept(st, k, a, now, key);
    if Live(st, k, now).0.Some? {
      var e := Live(st, k, now).0.value;
      ReplacedKept(st, k, e, a, now, key);
      if a >= e.authw {
        ReplacedKept(st, k, WithTtl(e, IntOf(time).1, now), a, now, key);
      }
    }
  }

  lemma DelKept(st: Chains, k: string, a: byte, now: int, key: string)
    requires WellFormed(st)
    ensures Keeps(st, StepDel(st, k, a).1, a, now, key)
  {
    hide ChainOk, Lookup, Dropped, NoSuchKey;
    if Lookup(st, k).Some? && a >= Lookup(st, k).value.authw {
      DroppedKept(st, k, a, now, key);
    }
  }

  /** Every command but read, on any well-formed table: nothing is revived or marked
      finished, and no entry is changed below its write authority unless it has expired. */
  lemma CommandKeeps(st: Chains, c: Cmd, a: byte, env: Env, key: string)
    requires WellFormed(st) && !c.Read?
    ensures Keeps(st, Step(st, c, a, env).1, a, env.now, key)
  {
    hide ChainOk, Lookup, StepOnValue, StepMake, StepBuild, StepDel, StepAuth, StepExpire, StepTtl;
    if OnValue(c) {
      OnValueKept(st, c, a, env.now, key);
    } else if Builds(c) {
      BuildKept(st, c, a, env.now, key);
    } else if c.Make? {
      if |c.auths| <= 2 {
        MakeKept(st, c, a, env.now, key);
      }
    } else if HasKey(c) {
      DelKept(st, c.k, a, env.now, key);
      AuthKept(st, c.k, if c.AuthR? || c.AuthW? then c.level else "", a, c.AuthR?, env.now, key);
      TimeKept(st, c.k, if c.Expire? then c.time else "", a, env.now, key);
    }
  }

  // ------------------------------------------------------------------- reads

  /** Reading keeps every key and ages every entry: set leaves deadlines and the finished
      mark as they are. What no line sets stays as it was. */
  lemma {:induction false} LinesAge(st: Chains, ls: seq<Line>, now: int, key: string)
    requires WellFormed(st)
    ensures WellFormed(ApplyLines(st, ls).1) && Ages(Lookup(st, key), Lookup(ApplyLines(st, ls).1, key), now)
    ensures Lookup(st, key).Some? ==> Lookup(ApplyLines(st, ls).1, key).Some?
    ensures Untouched(Goods(ls), key) ==> Lookup(ApplyLines(st, ls).1, key) == Lookup(st, key)
    decreases |ls|
  {
    hide ChainOk, Lookup, Assigned, Untouched;
    if ls != [] && ls[0].Good? {
      var g := ls[0];
      AssignedRefines(st, g.key, g.data, g.authr, g.authw, key);
      LinesAge(Assigned(st, g.key, g.data, g.authr, g.authw), ls[1..], now, key);
      UntouchedStep(Goods(ls), key);
      assert Goods(ls)[1..] == Goods(ls[1..]);
    }
  }

  /** The lines a read sets. */
  function LinesSet(password: string, env: Env): (gs: seq<Line>)
    ensures AllGood(gs)
  {
    if env.file.Some? && IntOf(password).0 then Goods(Parsed(env.file.value, IntOf(password).1)) else []
  }

  lemma ReadAges(st: Chains, password: string, a: byte, env: Env, key: string)
    requires WellFormed(st)
    ensures var st' := Step(st, Read(password), a, env).1;
            && WellFormed(st') && Ages(Lookup(st, key), Lookup(st', key), env.now)
            && (Untouched(LinesSet(password, env), key) ==> Lookup(st', key) == Lookup(st, key))
  {
    hide ChainOk, Lookup, Step, Goods, Parsed, IntOf, Untouched;
    ReadStep(st, password, a, env);
    if env.file.Some? {
      LinesAge(st, Parsed(env.file.value, IntOf(password).1), env.now, key);
    }
  }

  /** Any command, read included, on any well-formed table. */
  lemma StepAges(st: Chains, c: Cmd, a: byte, env: Env, key: string)
    requires WellFormed(st)
    ensures WellFormed(Step(st, c, a, env).1) && Ages(Lookup(st, key), Lookup(Step(st, c, a, env).1, key), env.now)
  {
    hide ChainOk, Lookup, Step;
    if c.Read? {
      ReadAges(st, c.password, a, env, key);
    } else {
      CommandKeeps(st, c, a, env, key);
    }
  }

  /** read asks for no authority: whatever the caller's level, the file of a storable
      table overrides every entry under one of its keys. */
  lemma ReadNeedsNoAuthority(st: Chains, t: Chains, password: string, a: byte, env: Env, key: string)
    requires StorableTable(st) && WellFormed(t)
    requires IntOf(password).0 && Opens(IntOf(password).1) && env.file == Some(SaveLines(st))
    ensures Lookup(Step(t, Read(password), a, env).1, key) ==
            match Lookup(st, key) {
              case None => Lookup(t, key)
              case Some(e) => Some(AfterSet(Lookup(t, key), MirrorData(e.data), e.authr, e.authw))
            }
  {
    hide ChainOk, Lookup, Step, StorableTable, SaveLines, ReadLines, IntOf;
    ReadStep(t, password, a, env);
    RestoreOverrides(st, t, IntOf(password).1, key);
  }

  // -------------------------------------------------------------------- runs

  lemma {:induction false} RunStaysWellFormed(states: seq<Chains>, calls: seq<Call>, n: nat)
    requires IsRun(states, calls) && n < |states| && WellFormed(states[0])
    ensures WellFormed(states[n])
  {
    hide WellFormed, Step;
    if n > 0 {
      RunStaysWellFormed(states, calls, n - 1);
      assert IsStep(states[n - 1], calls[n - 1], states[n]);
      StepAges(states[n - 1], calls[n - 1].cmd, calls[n - 1].auth, calls[n - 1].env, "");
    }
  }

  /** The last step of a run up to state n. */
  lemma LastStepAges(states: seq<Chains>, calls: seq<Call>, n: nat, key: string)
    requires IsRun(states, calls) && 0 < n < |states| && WellFormed(states[0])
    ensures |states[n - 1]| == |states[n]| == TABLE_S
    ensures Ages(Lookup(states[n - 1], key), Lookup(states[n], key), calls[n - 1].env.now)
  {
    hide ChainOk, Step, Lookup, Ages;
    var c := calls[n - 1];
    RunStaysWellFormed(states, calls, n - 1);
    assert IsStep(states[n - 1], c, states[n]);
    StepAges(states[n - 1], c.cmd, c.auth, c.env, key);
  }

  ghost predicate ClockRuns(calls: seq<Call>) {
    forall i, j :: 0 <= i < j < |calls| ==> calls[i].env.now <= calls[j].env.now
  }

  /** An entry that has expired never comes back to life while its key stays in the table,
      whatever is executed or read: a later live entry under the key means that the key was
      absent in between. */
  lemma {:induction false} ExpiredStaysExpired(states: seq<Chains>, calls: seq<Call>, key: string, t: int, n: nat)
    requires IsRun(states, calls) && n < |states| && WellFormed(states[0])
    requires ClockRuns(calls) && (calls != [] ==> t <= calls[0].env.now)
    requires forall i :: 0 <= i <= n ==> |states[i]| == TABLE_S && Lookup(states[i], key).Some?
    requires IsExpired(Lookup(states[0], key).value, t)
    ensures IsExpired(Lookup(states[n], key).value, if n == 0 then t else calls[n - 1].env.now)
  {
    hide WellFormed, Lookup, Step;
    if n > 0 {
      ExpiredStaysExpired(states, calls, key, t, n - 1);
      LastStepAges(states, calls, n, key);
    }
  }

  ghost predicate NoneFinished(st: Chains)
    requires |st| == TABLE_S
  {
    forall key :: Lookup(st, key).Some? ==> !Lookup(st, key).value.finished
  }

  /** In no state of any run from a table without finished entries is an entry marked
      finished: get_ttl would set the mark, but the command drops such an entry before. */
  lemma {:induction false} NeverFinished(states: seq<Chains>, calls: seq<Call>, n: nat)
    requires IsRun(states, calls) && n < |states| && WellFormed(states[0]) && NoneFinished(states[0])
    ensures |states[n]| == TABLE_S && NoneFinished(states[n])
  {
    hide IsRun, ChainOk, Lookup;
    if n > 0 {
      NeverFinished(states, calls, n - 1);
      LastStepAges(states, calls, n, "");
      forall key | Lookup(states[n], key).Some?
        ensures !Lookup(states[n], key).value.finished
      {
        LastStepAges(states, calls, n, key);
      }
    }
  }

  /** A call without the write authority w, or a read that sets other keys only. */
  ghost predicate Spares(c: Call, w: int, key: string) {
    if c.cmd.Read? then Untouched(LinesSet(c.cmd.password, c.env), key) else c.auth < w
  }

  lemma SparedStays(st: Chains, c: Call, st': Chains, key: string)
    requires WellFormed(st) && IsStep(st, c, st') && Lookup(st, key).Some?
    requires Lookup(st, key).value.ttl == -1 && !Lookup(st, key).value.finished
    requires Spares(c, Lookup(st, key).value.authw, key)
    ensures |st'| == TABLE_S && Lookup(st', key) == Lookup(st, key)
  {
    hide ChainOk, Lookup, Step, Untouched, LinesSet;
    if c.cmd.Read? {
      ReadAges(st, c.cmd.password, c.auth, c.env, key);
    } else {
      CommandKeeps(st, c.cmd, c.auth, c.env, key);
    }
  }

  /** An entry without a deadline stays as it is until the first caller who has its write
      authority or the first read whose file sets its key. */
  lemma {:induction false} HighEntriesStay(states: seq<Chains>, calls: seq<Call>, key: string, n: nat)
    requires IsRun(states, calls) && n < |states| && WellFormed(states[0])
    requires Lookup(states[0], key).Some?
    requires Lookup(states[0], key).value.ttl == -1 && !Lookup(states[0], key).value.finished
    requires forall i :: 0 <= i < n ==> Spares(calls[i], Lookup(states[0], key).value.authw, key)
    ensures |states[n]| == TABLE_S && Lookup(states[n], key) == Lookup(states[0], key)
  {
    hide ChainOk, Lookup, Step, Spares;
    if n > 0 {
      HighEntriesStay(states, calls, key, n - 1);
      RunStaysWellFormed(states, calls, n - 1);
      assert IsStep(states[n - 1], calls[n - 1], states[n]);
      SparedStays(states[n - 1], calls[n - 1], states[n], key);
    }
  }
}
