/** Safety of single commands: authority order, framing by authority, and expiry. Commands
    that read a snapshot are excluded here and treated in SafeReads and AnyRun. */
module Safety {
  import opened Entries
  import opened FieldPairs
  import opened Hashing
  import opened MachineInts
  import opened Machine
  import opened SetBuckets
  import opened Store
  import opened Text

  /** What every entry satisfies in a run whose reads are safe. */
  ghost predicate EntryOk(e: Entry) {
    DataOk(e.data) && AuthOrdered(e) && !e.finished
  }

  ghost predicate TableOk(st: Chains) {
    WellFormed(st) && forall key :: Lookup(st, key).Some? ==> EntryOk(Lookup(st, key).value)
  }

  /** How a command at level a may change the entry of one key at time now: not at all; by
      dropping it because it has expired; or with write authority over the old entry,
      leaving authorities no higher than its own. */
  ghost predicate MayChange(was: Option<Entry>, after: Option<Entry>, a: byte, now: int) {
    || after == was
    || (after.None? && was.Some? && IsExpired(was.value, now))
    || ((was.Some? ==> was.value.authw <= a) && (after.Some? ==> after.value.authw <= a && EntryOk(after.value)))
  }

  /** An entry that has expired is gone or still expired afterwards. */
  ghost predicate NotRevived(was: Option<Entry>, after: Option<Entry>, now: int) {
    was.Some? && IsExpired(was.value, now) ==> after.None? || IsExpired(after.value, now)
  }

  ghost predicate Allowed(was: Option<Entry>, after: Option<Entry>, a: byte, now: int) {
    MayChange(was, after, a, now) && NotRevived(was, after, now)
  }

  /** A step to st' by a command on key k, as seen from any one key. */
  ghost predicate StepOk(st: Chains, st': Chains, k: string, a: byte, now: int, key: string)
    requires |st| == TABLE_S && |st'| == TABLE_S
  {
    && WellFormed(st')
    && Allowed(Lookup(st, key), Lookup(st', key), a, now)
    && (key != k ==> Lookup(st', key) == Lookup(st, key))
  }

  // ------------------------------------------------------------- one command

  lemma EffectOk(c: Cmd, d: Data)
    requires OnValue(c) && KindFits(c, KindOf(d)) && DataOk(d)
    ensures var d' := Effect(c, d).1; DataOk(d') && KindOf(d') == KindOf(d) && (!Modifies(c) ==> d' == d)
  {
    match c
    case SPush(_, xs) => PushAllPlaced(d.buckets, xs);
    case SPop(_) => PopChooses(d.buckets);
    case SErase(_, x) => EraseRemoves(d.buckets, x);
    case HPush(_, f, x) => PutKeepsDistinct(d.pairs, f, x);
    case HErase(_, f) => CutKeepsDistinct(d.pairs, f);
    case _ =>
  }

  lemma LiveAllowed(st: Chains, k: string, a: byte, now: int, key: string)
    requires TableOk(st)
    ensures var (o, st') := Live(st, k, now);
            && StepOk(st, st', k, a, now, key)
            && (o.Some? ==> st' == st && o == Lookup(st, k) && !IsExpired(o.value, now))
  {
    if Lookup(st, k).Some? && IsExpired(Lookup(st, k).value, now) {
      DroppedRefines(st, k, key);
    }
  }

  lemma ReplaceAllowed(st: Chains, k: string, e: Entry, a: byte, now: int, key: string)
    requires TableOk(st) && Lookup(st, k).Some?
    requires Allowed(Lookup(st, k), Some(e), a, now)
    ensures StepOk(st, Replaced(st, k, e), k, a, now, key)
  {
    ReplacedRefines(st, k, e, key);
  }

  lemma OnValueAllowed(st: Chains, c: Cmd, a: byte, now: int, key: string)
    requires TableOk(st) && OnValue(c)
    ensures StepOk(st, StepOnValue(st, c, a, now).1, c.k, a, now, key)
  {
    LiveAllowed(st, c.k, a, now, key);
    match Live(st, c.k, now)
    case (None, _) =>
    case (Some(e), _) =>
      if KindFits(c, KindOf(e.data)) && Modifies(c) && a >= e.authw {
        EffectOk(c, e.data);
        ReplaceAllowed(st, c.k, e.(data := Effect(c, e.data).1), a, now, key);
      }
  }

  lemma AssignAllowed(st: Chains, k: string, d: Data, r: int, w: int, a: byte, now: int, key: string)
    requires TableOk(st) && DataOk(d) && 0 <= r <= w <= a
    requires Lookup(st, k).Some? ==> Lookup(st, k).value.authw <= a
    ensures StepOk(st, Assigned(st, k, d, r, w), k, a, now, key)
  {
    AssignedRefines(st, k, d, r, w, key);
    if Lookup(st, k).Some? {
      SettersKeepOrder(Lookup(st, k).value, d, r, w);
    }
  }

  lemma MakeAllowed(st: Chains, c: Cmd, a: byte, now: int, key: string)
    requires TableOk(st) && c.Make? && |c.auths| <= 2
    ensures StepOk(st, StepMake(st, c, a).1, c.k, a, now, key)
  {
    if Lookup(st, c.k).Some? && a < Lookup(st, c.k).value.authw {
    } else {
      var d := Str(c.v);
      var r := if |c.auths| == 0 then 0 else IntOf(c.auths[0]).1;
      var w := if |c.auths| < 2 then a as int else IntOf(c.auths[1]).1;
      if 0 <= r <= w <= a {
        AssignAllowed(st, c.k, d, r, w, a, now, key);
      }
    }
  }

  lemma ContainerAllowed(st: Chains, k: string, d: Data, reply: string, a: byte, now: int, key: string)
    requires TableOk(st) && DataOk(d)
    ensures StepOk(st, StepContainer(st, k, d, reply, a).1, k, a, now, key)
  {
    if Lookup(st, k).None? || a >= Lookup(st, k).value.authw {
      AssignAllowed(st, k, d, 0, a, a, now, key);
    }
  }

  lemma AuthAllowed(st: Chains, k: string, level: string, a: byte, isRead: bool, now: int, key: string)
    requires TableOk(st)
    ensures StepOk(st, StepAuth(st, k, level, a, isRead).1, k, a, now, key)
  {
    var (ok, x) := IntOf(level);
    if Lookup(st, k).Some? && ok && 0 <= x <= a && a >= Lookup(st, k).value.authw {
      var e := Lookup(st, k).value;
      ReplaceAllowed(st, k, if isRead then WithAuthr(e, x) else WithAuthw(e, x), a, now, key);
    }
  }

  lemma ExpireAllowed(st: Chains, k: string, time: string, a: byte, now: int, key: string)
    requires TableOk(st)
    ensures StepOk(st, StepExpire(st, k, time, a, now).1, k, a, now, key)
  {
    LiveAllowed(st, k, a, now, key);
    match Live(st, k, now)
    case (None, _) =>
    case (Some(e), _) =>
      if IntOf(time).0 && a >= e.authw {
        ReplaceAllowed(st, k, WithTtl(e, IntOf(time).1, now), a, now, key);
      }
  }

  lemma TtlAllowed(st: Chains, k: string, a: byte, now: int, key: string)
    requires TableOk(st)
    ensures StepOk(st, StepTtl(st, k, a, now).1, k, a, now, key)
  {
    LiveAllowed(st, k, a, now, key);
    if Live(st, k, now).0.Some? {
      ReplacedBySame(st, k);
    }
  }

  /** The key a command addresses; commands without one change nothing. */
  function KeyOf(c: Cmd): string {
    match c
    case Keys => ""
    case Save => ""
    case Unknown => ""
    case Read(_) => ""
    case _ => c.k
  }

  /** One command changes only the key it addresses, only as far as its authority goes,
      and revives nothing. */
  lemma StepAllowed(st: Chains, c: Cmd, a: byte, env: Env, key: string)
    requires TableOk(st) && !c.Read?
    ensures StepOk(st, Step(st, c, a, env).1, KeyOf(c), a, env.now, key)
  {
    if OnValue(c) {
      OnValueAllowed(st, c, a, env.now, key);
    } else if Builds(c) {
      BuildAllowed(st, c, a, env.now, key);
    } else {
      StructuralAllowed(st, c, a, env, key);
    }
  }

  lemma BuildAllowed(st: Chains, c: Cmd, a: byte, now: int, key: string)
    requires TableOk(st) && Builds(c)
    ensures StepOk(st, StepBuild(st, c, a).1, c.k, a, now, key)
  {
    var text := Join(c.parts, ',');
    match c
    case LMake(k, parts) =>
      EncodeOk(text, ListKind);
      ContainerAllowed(st, k, Encode(text, ListKind), Decimal(|parts|), a, now, key);
    case SMake(k, parts) =>
      var d := Encode(text, SetKind);
      EncodeOk(text, SetKind);
      ContainerAllowed(st, k, d, Decimal(|Flat(d.buckets)|), a, now, key);
    case HMake(k, parts) =>
      EncodeOk(text, MapKind);
      ContainerAllowed(st, k, Encode(text, MapKind), OK, a, now, key);
  }

  lemma StructuralAllowed(st: Chains, c: Cmd, a: byte, env: Env, key: string)
    requires TableOk(st) && !c.Read? && !OnValue(c) && !Builds(c)
    ensures StepOk(st, Step(st, c, a, env).1, KeyOf(c), a, env.now, key)
  {
    match c
    case Make(k, v, auths) =>
      if |auths| <= 2 { MakeAllowed(st, c, a, env.now, key); }
    case Del(k) =>
      if Lookup(st, k).Some? && a >= Lookup(st, k).value.authw {
        DroppedRefines(st, k, key);
      }
    case AuthR(k, level) => AuthAllowed(st, k, level, a, true, env.now, key);
    case AuthW(k, level) => AuthAllowed(st, k, level, a, false, env.now, key);
    case Expire(k, time) => ExpireAllowed(st, k, time, a, env.now, key);
    case Ttl(k) => TtlAllowed(st, k, a, env.now, key);
    case _ =>
  }

  lemma StepKeepsTableOk(st: Chains, c: Cmd, a: byte, env: Env)
    requires TableOk(st) && !c.Read?
    ensures TableOk(Step(st, c, a, env).1)
  {
    var st' := Step(st, c, a, env).1;
    StepAllowed(st, c, a, env, "");
    forall key | Lookup(st', key).Some?
      ensures EntryOk(Lookup(st', key).value)
    {
      StepAllowed(st, c, a, env, key);
    }
  }

  lemma TtlLeft(e: Entry, now: int)
    requires !IsExpired(e, now)
    ensures GetTtl(e, now).1 == e
    ensures if e.ttl == -1 then GetTtl(e, now).0 == -1 else GetTtl(e, now).0 >= 1
  {
  }

  lemma TtlGranted(st: Chains, k: string, e: Entry, a: byte, now: int)
    requires |st| == TABLE_S && Lookup(st, k) == Some(e) && !IsExpired(e, now) && a >= e.authr
    ensures StepTtl(st, k, a, now) == (Decimal(GetTtl(e, now).0), st)
  {
    TtlLeft(e, now);
    ReplacedBySame(st, k);
  }

  /** A granted ttl answers -1 for an entry without deadline and otherwise the distance to its
      expiry, which is at least 1 second, and leaves the table alone. */
  lemma TtlAnswers(st: Chains, k: string, a: byte, env: Env) returns (n: int)
    requires |st| == TABLE_S && Lookup(st, k).Some?
    requires !IsExpired(Lookup(st, k).value, env.now) && a >= Lookup(st, k).value.authr
    ensures Step(st, Ttl(k), a, env) == (Decimal(n), st)
    ensures var e := Lookup(st, k).value;
            if e.ttl == -1 then n == -1
            else n >= 1 && !IsExpired(e, env.now + n - 1) && IsExpired(e, env.now + n)
  {
    var e := Lookup(st, k).value;
    TtlLeft(e, env.now);
    TtlGranted(st, k, e, a, env.now);
    n := GetTtl(e, env.now).0;
  }

  // ------------------------------------------------------------------- runs

  /** One command with its caller's authority and its surroundings. */
  datatype Call = Call(cmd: Cmd, auth: byte, env: Env)

  ghost predicate IsStep(st: Chains, c: Call, st': Chains) {
    |st| == TABLE_S && st' == Step(st, c.cmd, c.auth, c.env).1
  }

  /** The successive tables of a run; calls[i] leads from states[i] to states[i + 1]. */
  ghost predicate IsRun(states: seq<Chains>, calls: seq<Call>) {
    && |states| == |calls| + 1
    && forall i, j :: 0 <= i < |calls| && j == i + 1 ==> IsStep(states[i], calls[i], states[j])
  }

  lemma EmptyTableOk()
    ensures TableOk(NoChains())
  {
    assert forall key :: Lookup(NoChains(), key).None?;
  }

  // ------------------------------------------------------------ command lines

  datatype Event = Event(line: string, auth: byte, env: Env)

  /** The command a line amounts to on a node; set-up commands and keys of other nodes
      do not reach the table. */
  function CmdOf(line: string, own: Range): Cmd {
    if Screen(Tokens(line), own).Some? then Unknown else Parse(Tokens(line))
  }

  /** The table after executing command lines one after the other. */
  function RunLines(st: Chains, events: seq<Event>, own: Range): (r: Chains)
    requires |st| == TABLE_S
    ensures |r| == TABLE_S
    decreases |events|
  {
    if events == [] then st
    else RunLines(Execute(st, events[0].line, events[0].auth, events[0].env, own).1, events[1..], own)
  }

  lemma ExecuteIsStep(st: Chains, ev: Event, own: Range)
    requires |st| == TABLE_S
    ensures Execute(st, ev.line, ev.auth, ev.env, own).1 == Step(st, CmdOf(ev.line, own), ev.auth, ev.env).1
  {
    hide Parse, Tokens, SlotOf, IsSetup, Decimal;
    var args := Tokens(ev.line);
    assert Screen(args, own).Some? ==> Execute(st, ev.line, ev.auth, ev.env, own).1 == st;
  }
}
