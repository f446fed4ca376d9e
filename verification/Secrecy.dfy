/** Secrecy by authority: two tables that differ only in values above a caller's level
    give the caller the same replies, for every command and over whole runs. */
module Secrecy {
  import opened Entries
  import opened Hashing
  import opened MachineInts
  import opened Machine
  import opened Safety
  import opened SetBuckets
  import opened Snapshot
  import opened SnapshotLaws
  import opened SnapshotMaps
  import opened Store
  import opened Text

  /** The same entry but for a value that is out of reach at level a: every command that
      reveals a value asks for the read or for the write authority. */
  ghost predicate LowEntry(e: Entry, e': Entry, a: int) {
    && e'.authr == e.authr && e'.authw == e.authw
    && e'.ttl == e.ttl && e'.timer == e.timer && e'.finished == e.finished
    && KindOf(e'.data) == KindOf(e.data)
    && (e.authr <= a || e.authw <= a ==> e'.data == e.data)
  }

  ghost predicate LowChain(c: seq<Rec>, c': seq<Rec>, a: int) {
    && |c| == |c'|
    && forall j :: 0 <= j < |c| ==> c'[j].key == c[j].key && LowEntry(c[j].entry, c'[j].entry, a)
  }

  /** Indistinguishable at level a. */
  ghost predicate LowEqual(st: Chains, st': Chains, a: int) {
    && |st| == |st'| == TABLE_S
    && forall i :: 0 <= i < TABLE_S ==> LowChain(st[i], st'[i], a)
  }

  ghost predicate LowOption(o: Option<Entry>, o': Option<Entry>, a: int) {
    match (o, o')
    case (None, None) => true
    case (Some(e), Some(e')) => LowEntry(e, e', a)
    case _ => false
  }

  lemma LowLookup(st: Chains, st': Chains, a: int, k: string)
    requires LowEqual(st, st', a)
    ensures LowOption(Lookup(st, k), Lookup(st', k), a)
    ensures KeyAt(st'[SlotOf(k)], k) == KeyAt(st[SlotOf(k)], k)
  {
    var i := SlotOf(k);
    assert LowChain(st[i], st'[i], a);
  }

  lemma LowReplaced(st: Chains, st': Chains, a: int, k: string, e: Entry, e': Entry)
    requires LowEqual(st, st', a) && LowEntry(e, e', a)
    requires Lookup(st, k).Some? && Lookup(st', k).Some?
    ensures LowEqual(Replaced(st, k, e), Replaced(st', k, e'), a)
  {
    LowLookup(st, st', a, k);
    assert LowChain(st[SlotOf(k)], st'[SlotOf(k)], a);
  }

  lemma LowDropped(st: Chains, st': Chains, a: int, k: string)
    requires LowEqual(st, st', a) && Lookup(st, k).Some? && Lookup(st', k).Some?
    ensures LowEqual(Dropped(st, k), Dropped(st', k), a)
  {
    LowLookup(st, st', a, k);
    assert LowChain(st[SlotOf(k)], st'[SlotOf(k)], a);
  }

  lemma LowInserted(st: Chains, st': Chains, a: int, k: string, e: Entry, e': Entry)
    requires LowEqual(st, st', a) && LowEntry(e, e', a)
    requires Lookup(st, k).None? && Lookup(st', k).None?
    ensures LowEqual(Inserted(st, k, e), Inserted(st', k, e'), a)
  {
    hide SlotOf;
    assert LowChain(st[SlotOf(k)], st'[SlotOf(k)], a);
  }

  lemma LowAssigned(st: Chains, st': Chains, a: int, k: string, d: Data, d': Data, r: int, w: int)
    requires LowEqual(st, st', a) && KindOf(d') == KindOf(d) && (r <= a || w <= a ==> d' == d)
    ensures LowEqual(Assigned(st, k, d, r, w), Assigned(st', k, d', r, w), a)
  {
    hide SlotOf, LowChain, Lookup, Replaced, Inserted;
    LowLookup(st, st', a, k);
    if Lookup(st, k).Some? {
      var e, e' := Lookup(st, k).value, Lookup(st', k).value;
      LowReplaced(st, st', a, k, Overwritten(e, d, r, w), Overwritten(e', d', r, w));
    } else {
      LowInserted(st, st', a, k, NewEntry(d, r, w), NewEntry(d', r, w));
    }
  }

  /** Equal replies and indistinguishable next tables. */
  ghost predicate LowResult(r: (string, Chains), r': (string, Chains), a: int) {
    r.0 == r'.0 && LowEqual(r.1, r'.1, a)
  }

  lemma LowOnValue(st: Chains, st': Chains, a: int, c: Cmd, b: byte, now: int)
    requires LowEqual(st, st', a) && b <= a && OnValue(c)
    ensures LowResult(StepOnValue(st, c, b, now), StepOnValue(st', c, b, now), a)
  {
    hide SlotOf, Effect, KindFits, Dropped, Replaced;
    LowLookup(st, st', a, c.k);
    if Lookup(st, c.k).Some? {
      var e, e' := Lookup(st, c.k).value, Lookup(st', c.k).value;
      if IsExpired(e, now) {
        LowDropped(st, st', a, c.k);
      } else if KindFits(c, KindOf(e.data)) && b >= (if Modifies(c) then e.authw else e.authr) {
        assert e'.data == e.data;
        var d := Effect(c, e.data).1;
        LowReplaced(st, st', a, c.k, e.(data := d), e'.(data := d));
      }
    }
  }

  lemma LowMake(st: Chains, st': Chains, a: int, c: Cmd, b: byte)
    requires LowEqual(st, st', a) && c.Make? && |c.auths| <= 2
    ensures LowResult(StepMake(st, c, b), StepMake(st', c, b), a)
  {
    hide LowEqual, Lookup, Assigned, IntOf, KeyAt, SlotOf;
    LowLookup(st, st', a, c.k);
    var r := if |c.auths| == 0 then 0 else IntOf(c.auths[0]).1;
    var w := if |c.auths| < 2 then b as int else IntOf(c.auths[1]).1;
    LowAssigned(st, st', a, c.k, Str(c.v), Str(c.v), r, w);
  }

  lemma LowContainer(st: Chains, st': Chains, a: int, k: string, d: Data, reply: string, b: byte)
    requires LowEqual(st, st', a)
    ensures LowResult(StepContainer(st, k, d, reply, b), StepContainer(st', k, d, reply, b), a)
  {
    LowLookup(st, st', a, k);
    LowAssigned(st, st', a, k, d, d, 0, b);
  }

  lemma LowBuild(st: Chains, st': Chains, a: int, c: Cmd, b: byte)
    requires LowEqual(st, st', a) && Builds(c)
    ensures LowResult(StepBuild(st, c, b), StepBuild(st', c, b), a)
  {
    var text := Join(c.parts, ',');
    match c
    case LMake(k, parts) => LowContainer(st, st', a, k, Encode(text, ListKind), Decimal(|parts|), b);
    case SMake(k, parts) =>
      var d := Encode(text, SetKind);
      LowContainer(st, st', a, k, d, Decimal(|Flat(d.buckets)|), b);
    case HMake(k, parts) => LowContainer(st, st', a, k, Encode(text, MapKind), OK, b);
  }

  lemma LowAuth(st: Chains, st': Chains, a: int, k: string, level: string, b: byte, isRead: bool)
    requires LowEqual(st, st', a) && b <= a
    ensures LowResult(StepAuth(st, k, level, b, isRead), StepAuth(st', k, level, b, isRead), a)
  {
    LowLookup(st, st', a, k);
    if Lookup(st, k).Some? {
      var e, e', x := Lookup(st, k).value, Lookup(st', k).value, IntOf(level).1;
      if b >= e.authw {
        LowReplaced(st, st', a, k, if isRead then WithAuthr(e, x) else WithAuthw(e, x),
                    if isRead then WithAuthr(e', x) else WithAuthw(e', x));
      }
    }
  }

  lemma LowExpire(st: Chains, st': Chains, a: int, k: string, time: string, b: byte, now: int)
    requires LowEqual(st, st', a)
    ensures LowResult(StepExpire(st, k, time, b, now), StepExpire(st', k, time, b, now), a)
  {
    LowLookup(st, st', a, k);
    if Lookup(st, k).Some? {
      var e, e' := Lookup(st, k).value, Lookup(st', k).value;
      if IsExpired(e, now) {
        LowDropped(st, st', a, k);
      } else {
        LowReplaced(st, st', a, k, WithTtl(e, IntOf(time).1, now), WithTtl(e', IntOf(time).1, now));
      }
    }
  }

  lemma LowTtl(st: Chains, st': Chains, a: int, k: string, b: byte, now: int)
    requires LowEqual(st, st', a)
    ensures LowResult(StepTtl(st, k, b, now), StepTtl(st', k, b, now), a)
  {
    LowLookup(st, st', a, k);
    if Lookup(st, k).Some? {
      var e, e' := Lookup(st, k).value, Lookup(st', k).value;
      if IsExpired(e, now) {
        LowDropped(st, st', a, k);
      } else {
        LowReplaced(st, st', a, k, GetTtl(e, now).1, GetTtl(e', now).1);
      }
    }
  }

  lemma LowListed(c: seq<Rec>, c': seq<Rec>, a: int)
    requires LowChain(c, c', a)
    ensures Listed(c') == Listed(c)
  {
  }

  lemma {:induction false} LowKeys(st: Chains, st': Chains, a: int)
    requires |st| == |st'| && forall i :: 0 <= i < |st| ==> LowChain(st[i], st'[i], a)
    ensures KeysOf(st') == KeysOf(st)
  {
    if st != [] {
      LowListed(st[0], st'[0], a);
      LowKeys(st[1..], st'[1..], a);
    }
  }

  lemma {:induction false} LowVisible(st: Chains, st': Chains, a: int, keys: seq<string>, b: byte)
    requires LowEqual(st, st', a)
    ensures Visible(st', keys, b) == Visible(st, keys, b)
    decreases |keys|
  {
    if keys != [] {
      LowLookup(st, st', a, keys[0]);
      LowVisible(st, st', a, keys[1..], b);
    }
  }

  lemma LowStructural(st: Chains, st': Chains, a: int, c: Cmd, b: byte, env: Env)
    requires LowEqual(st, st', a) && b <= a && !c.Read? && !OnValue(c) && !Builds(c)
    ensures LowResult(Step(st, c, b, env), Step(st', c, b, env), a)
  {
    match c
    case Make(k, v, auths) => if |auths| <= 2 { LowMake(st, st', a, c, b); }
    case Del(k) =>
      LowLookup(st, st', a, k);
      if Lookup(st, k).Some? { LowDropped(st, st', a, k); }
    case Keys =>
      LowKeys(st, st', a);
      LowVisible(st, st', a, KeysOf(st), b);
    case AuthR(k, level) => LowAuth(st, st', a, k, level, b, true);
    case AuthW(k, level) => LowAuth(st, st', a, k, level, b, false);
    case Expire(k, time) => LowExpire(st, st', a, k, time, b, env.now);
    case Ttl(k) => LowTtl(st, st', a, k, b, env.now);
    case Save =>
    case Unknown =>
  }

  // ------------------------------------------------------------------- reads

  /** The same line but for a value out of reach at level a. */
  ghost predicate LowLine(l: Line, l': Line, a: int) {
    l' == l || (l.Good? && l'.Good? && l'.key == l.key && l'.authr == l.authr && l'.authw == l.authw
                && KindOf(l'.data) == KindOf(l.data) && l.authr > a && l.authw > a)
  }

  ghost predicate LowLines(ls: seq<Line>, ls': seq<Line>, a: int) {
    |ls| == |ls'| && forall i :: 0 <= i < |ls| ==> LowLine(ls[i], ls'[i], a)
  }

  lemma {:induction false} LowApply(st: Chains, st': Chains, ls: seq<Line>, ls': seq<Line>, a: int)
    requires LowEqual(st, st', a) && LowLines(ls, ls', a)
    ensures ApplyLines(st, ls).0 == ApplyLines(st', ls').0
    ensures LowEqual(ApplyLines(st, ls).1, ApplyLines(st', ls').1, a)
    decreases |ls|
  {
    hide Assigned, LowChain;
    if ls != [] {
      var l, l' := ls[0], ls'[0];
      assert LowLine(l, l', a);
      if l.Good? {
        LowAssigned(st, st', a, l.key, l.data, l'.data, l.authr, l.authw);
        LowApply(Assigned(st, l.key, l.data, l.authr, l.authw), Assigned(st', l'.key, l'.data, l'.authr, l'.authw),
                 ls[1..], ls'[1..], a);
      }
    }
  }

  /** The same surroundings; the files a read gets may differ in values out of reach. */
  ghost predicate LowEnv(c: Cmd, env: Env, env': Env, a: int) {
    && env'.now == env.now && env'.writable == env.writable
    && (c.Read? ==>
          match (env.file, env'.file)
          case (None, None) => true
          case (Some(f), Some(f')) =>
            var password := IntOf(c.password).1;
            LowLines(Parsed(f, password), Parsed(f', password), a)
          case _ => false)
  }

  lemma LowRead(st: Chains, st': Chains, a: int, c: Cmd, env: Env, env': Env)
    requires LowEqual(st, st', a) && c.Read? && LowEnv(c, env, env', a)
    ensures LowResult(StepRead(st, c.password, env.file), StepRead(st', c.password, env'.file), a)
  {
    hide LowEqual, LowLines, Parsed, IntOf;
    if env.file.Some? {
      var password := IntOf(c.password).1;
      LowApply(st, st', Parsed(env.file.value, password), Parsed(env'.file.value, password), a);
    }
  }

  /** The files that save writes from two tables which no caller up to level a can tell
      apart differ in values out of reach only, so that reading them back is no way around. */
  lemma SavedFilesAreLow(st: Chains, st': Chains, a: int, password: int)
    requires LowEqual(st, st', a) && AllRecOk(st) && AllRecOk(st') && Opens(password)
    ensures LowLines(Parsed(SaveLines(st), password), Parsed(SaveLines(st'), password), a)
  {
    hide LowEqual, RecOk, RecordLine, ParseLine, ReadBack, DataOk, SaveLines, CutKey;
    var gs := FileIsGood(st, password);
    var gs' := FileIsGood(st', password);
    LowRecords(st, st', a);
    forall i | 0 <= i < |gs|
      ensures LowLine(gs[i], gs'[i], a)
    {
      var r, r' := Records(st)[i], Records(st')[i];
      if r.entry.data == r'.entry.data {
        SameRecordLine(r, r');
      }
    }
  }

  lemma SameRecordLine(r: Rec, r': Rec)
    requires r'.key == r.key && r'.entry.data == r.entry.data
    requires r'.entry.authr == r.entry.authr && r'.entry.authw == r.entry.authw
    ensures RecordLine(r') == RecordLine(r)
  {
  }

  lemma {:induction false} LowRecordsFrom(b: Chains, b': Chains, a: int)
    requires |b| == |b'| && forall i :: 0 <= i < |b| ==> LowChain(b[i], b'[i], a)
    ensures LowChain(Records(b), Records(b'), a)
  {
    if b != [] {
      LowRecordsFrom(b[1..], b'[1..], a);
    }
  }

  lemma LowRecords(st: Chains, st': Chains, a: int)
    requires LowEqual(st, st', a)
    ensures LowChain(Records(st), Records(st'), a)
  {
    LowRecordsFrom(st, st', a);
  }

  // -------------------------------------------------------------------- runs

  /** No command of a caller at level b <= a tells two tables apart that differ only in
      values out of reach at a, and none brings such a value within reach. */
  lemma StepRevealsNothing(st: Chains, st': Chains, a: int, c: Cmd, b: byte, env: Env, env': Env)
    requires LowEqual(st, st', a) && b <= a && LowEnv(c, env, env', a)
    ensures LowResult(Step(st, c, b, env), Step(st', c, b, env'), a)
  {
    hide LowResult, LowChain, Step, StepOnValue, StepBuild, StepRead;
    WhichStep(st, c, b, env);
    WhichStep(st', c, b, env');
    if OnValue(c) {
      LowOnValue(st, st', a, c, b, env.now);
    } else if Builds(c) {
      LowBuild(st, st', a, c, b);
    } else if c.Read? {
      LowRead(st, st', a, c, env, env');
    } else {
      LowStructural(st, st', a, c, b, env);
      SameEnv(st', c, b, env, env');
    }
  }

  lemma WhichStep(st: Chains, c: Cmd, b: byte, env: Env)
    requires |st| == TABLE_S
    ensures OnValue(c) ==> Step(st, c, b, env) == StepOnValue(st, c, b, env.now)
    ensures Builds(c) ==> Step(st, c, b, env) == StepBuild(st, c, b)
    ensures c.Read? ==> Step(st, c, b, env) == StepRead(st, c.password, env.file)
  {
    hide StepOnValue, StepBuild, StepRead;
  }

  lemma SameEnv(st: Chains, c: Cmd, b: byte, env: Env, env': Env)
    requires |st| == TABLE_S && !c.Read? && env'.now == env.now && env'.writable == env.writable
    ensures Step(st, c, b, env') == Step(st, c, b, env)
  {
  }

  /** The same call, with files that may differ in values out of reach. */
  ghost predicate LowCall(c: Call, c': Call, a: int) {
    c'.cmd == c.cmd && c'.auth == c.auth && c.auth <= a && LowEnv(c.cmd, c.env, c'.env, a)
  }

  /** Over two runs of the same calls, none by a caller above level a, reads included, all
      replies agree and the tables stay indistinguishable: the values out of reach have no
      influence. */
  lemma {:induction false} RunRevealsNothing(states: seq<Chains>, states': seq<Chains>,
                                             calls: seq<Call>, calls': seq<Call>, a: int, n: nat)
    requires IsRun(states, calls) && IsRun(states', calls') && n < |states| && n < |states'|
    requires LowEqual(states[0], states'[0], a)
    requires forall i :: 0 <= i < n ==> LowCall(calls[i], calls'[i], a)
    ensures LowEqual(states[n], states'[n], a)
    ensures forall i :: 0 <= i < n ==> SameReply(states[i], states'[i], calls[i], calls'[i])
  {
    hide LowEqual, LowEnv, SameReply, Step;
    if n > 0 {
      RunRevealsNothing(states, states', calls, calls', a, n - 1);
      IsStepReveals(states[n - 1], states'[n - 1], a, calls[n - 1], calls'[n - 1], states[n], states'[n]);
    }
  }

  ghost predicate SameReply(st: Chains, st': Chains, c: Call, c': Call) {
    && |st| == |st'| == TABLE_S
    && Step(st', c'.cmd, c'.auth, c'.env).0 == Step(st, c.cmd, c.auth, c.env).0
  }

  lemma IsStepReveals(st: Chains, st': Chains, a: int, c: Call, c': Call, next: Chains, next': Chains)
    requires LowEqual(st, st', a) && LowCall(c, c', a)
    requires IsStep(st, c, next) && IsStep(st', c', next')
    ensures LowEqual(next, next', a) && SameReply(st, st', c, c')
  {
    hide LowEqual, LowEnv, Step;
    StepRevealsNothing(st, st', a, c.cmd, c.auth, c.env, c'.env);
  }
}
