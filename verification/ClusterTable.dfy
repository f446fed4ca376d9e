/** A configured cluster behaves like one node that owns every slot: whichever node a
    command on a key is sent to, it has the reply and the effect it would have on the
    table put together from the slots each node owns. */
module ClusterTable {
  import opened Commands
  import opened Entries
  import opened Hashing
  import opened Machine
  import opened MachineInts
  import opened OneHop
  import opened PlainReplies
  import opened Redirects
  import opened Routing
  import opened SlotRanges
  import opened Store
  import opened Text

  // ------------------------------------------------------- locality of steps

  /** The outcome p on table t, transferred to a table that agrees with t on slot i. */
  ghost predicate Carries(st: Chains, i: nat, p: (string, Chains), q: (string, Chains)) {
    |st| == |q.1| == TABLE_S && i < TABLE_S && p.0 == q.0 && p.1 == st[i := q.1[i]]
  }

  lemma SameLookup(st: Chains, t: Chains, k: string)
    requires |st| == |t| == TABLE_S && st[SlotOf(k)] == t[SlotOf(k)]
    ensures Lookup(st, k) == Lookup(t, k)
    ensures forall p: string :: Carries(st, SlotOf(k), (p, st), (p, t))
  {
    hide SlotOf;
    assert st == st[SlotOf(k) := t[SlotOf(k)]];
  }

  lemma SameReplaced(st: Chains, t: Chains, k: string, e: Entry)
    requires |st| == |t| == TABLE_S && st[SlotOf(k)] == t[SlotOf(k)] && Lookup(st, k).Some?
    ensures Lookup(t, k).Some?
    ensures Replaced(st, k, e) == st[SlotOf(k) := Replaced(t, k, e)[SlotOf(k)]]
  {
    hide SlotOf;
  }

  lemma SameDropped(st: Chains, t: Chains, k: string)
    requires |st| == |t| == TABLE_S && st[SlotOf(k)] == t[SlotOf(k)] && Lookup(st, k).Some?
    ensures Lookup(t, k).Some?
    ensures Dropped(st, k) == st[SlotOf(k) := Dropped(t, k)[SlotOf(k)]]
  {
    hide SlotOf;
  }

  lemma SameAssigned(st: Chains, t: Chains, k: string, d: Data, r: int, w: int)
    requires |st| == |t| == TABLE_S && st[SlotOf(k)] == t[SlotOf(k)]
    ensures Assigned(st, k, d, r, w) == st[SlotOf(k) := Assigned(t, k, d, r, w)[SlotOf(k)]]
  {
    hide SlotOf;
    SameLookup(st, t, k);
    if Lookup(st, k).Some? {
      SameReplaced(st, t, k, Overwritten(Lookup(st, k).value, d, r, w));
    }
  }

  lemma SameLive(st: Chains, t: Chains, k: string, now: int)
    requires |st| == |t| == TABLE_S && st[SlotOf(k)] == t[SlotOf(k)]
    ensures Live(st, k, now).0 == Live(t, k, now).0
    ensures Live(st, k, now).1 == st[SlotOf(k) := Live(t, k, now).1[SlotOf(k)]]
    ensures Live(st, k, now).0.Some? ==> Lookup(st, k) == Live(st, k, now).0
  {
    hide SlotOf;
    SameLookup(st, t, k);
    if Lookup(st, k).Some? {
      SameDropped(st, t, k);
    }
  }

  lemma OnValueLocal(st: Chains, t: Chains, c: Cmd, a: byte, now: int)
    requires |st| == |t| == TABLE_S && OnValue(c) && st[SlotOf(c.k)] == t[SlotOf(c.k)]
    ensures Carries(st, SlotOf(c.k), StepOnValue(st, c, a, now), StepOnValue(t, c, a, now))
  {
    hide SlotOf, Live, Effect, Lookup, Replaced, KindFits, Modifies;
    SameLive(st, t, c.k, now);
    SameLookup(st, t, c.k);
    if Live(st, c.k, now).0.Some? {
      var e := Live(st, c.k, now).0.value;
      if KindFits(c, KindOf(e.data)) {
        SameReplaced(st, t, c.k, e.(data := Effect(c, e.data).1));
      }
    }
  }

  lemma MakeLocal(st: Chains, t: Chains, c: Cmd, a: byte)
    requires |st| == |t| == TABLE_S && c.Make? && |c.auths| <= 2 && st[SlotOf(c.k)] == t[SlotOf(c.k)]
    ensures Carries(st, SlotOf(c.k), StepMake(st, c, a), StepMake(t, c, a))
  {
    hide SlotOf, Assigned, Lookup, IntOf;
    SameLookup(st, t, c.k);
    SameAssigned(st, t, c.k, Str(c.v), 0, a);
    if |c.auths| == 1 {
      SameAssigned(st, t, c.k, Str(c.v), IntOf(c.auths[0]).1, a);
    } else if |c.auths| == 2 {
      SameAssigned(st, t, c.k, Str(c.v), IntOf(c.auths[0]).1, IntOf(c.auths[1]).1);
    }
  }

  lemma BuildLocal(st: Chains, t: Chains, c: Cmd, a: byte)
    requires |st| == |t| == TABLE_S && Builds(c) && st[SlotOf(c.k)] == t[SlotOf(c.k)]
    ensures Carries(st, SlotOf(c.k), StepBuild(st, c, a), StepBuild(t, c, a))
  {
    hide SlotOf, Assigned, Lookup, PushAll, PutAll, SplitOf;
    SameLookup(st, t, c.k);
    var kind := if c.LMake? then ListKind else if c.SMake? then SetKind else MapKind;
    SameAssigned(st, t, c.k, Encode(Join(c.parts, ','), kind), 0, a);
  }

  lemma AuthLocal(st: Chains, t: Chains, k: string, level: string, a: byte, isRead: bool)
    requires |st| == |t| == TABLE_S && st[SlotOf(k)] == t[SlotOf(k)]
    ensures Carries(st, SlotOf(k), StepAuth(st, k, level, a, isRead), StepAuth(t, k, level, a, isRead))
  {
    hide SlotOf, Replaced, Lookup, IntOf;
    SameLookup(st, t, k);
    if Lookup(st, k).Some? {
      var e := Lookup(st, k).value;
      SameReplaced(st, t, k, if isRead then WithAuthr(e, IntOf(level).1) else WithAuthw(e, IntOf(level).1));
    }
  }

  lemma TimeLocal(st: Chains, t: Chains, k: string, time: string, a: byte, now: int)
    requires |st| == |t| == TABLE_S && st[SlotOf(k)] == t[SlotOf(k)]
    ensures Carries(st, SlotOf(k), StepExpire(st, k, time, a, now), StepExpire(t, k, time, a, now))
    ensures Carries(st, SlotOf(k), StepTtl(st, k, a, now), StepTtl(t, k, a, now))
  {
    hide SlotOf, Replaced, Lookup, Live, IntOf, Decimal;
    SameLookup(st, t, k);
    SameLive(st, t, k, now);
    if Live(st, k, now).0.Some? {
      var e := Live(st, k, now).0.value;
      SameReplaced(st, t, k, WithTtl(e, IntOf(time).1, now));
      SameReplaced(st, t, k, GetTtl(e, now).1);
    }
  }

  lemma DelLocal(st: Chains, t: Chains, k: string, a: byte)
    requires |st| == |t| == TABLE_S && st[SlotOf(k)] == t[SlotOf(k)]
    ensures Carries(st, SlotOf(k), StepDel(st, k, a), StepDel(t, k, a))
  {
    hide SlotOf, Dropped, Lookup;
    SameLookup(st, t, k);
    if Lookup(st, k).Some? {
      SameDropped(st, t, k);
    }
  }

  /** A command about a key sees and changes the slot of its key only: on two tables that
      agree there it has the same reply and the same effect. */
  lemma StepIsLocal(st: Chains, t: Chains, c: Cmd, a: byte, env: Env)
    requires |st| == |t| == TABLE_S && HasKey(c) && st[SlotOf(c.k)] == t[SlotOf(c.k)]
    ensures Step(st, c, a, env).0 == Step(t, c, a, env).0
    ensures Step(st, c, a, env).1 == st[SlotOf(c.k) := Step(t, c, a, env).1[SlotOf(c.k)]]
  {
    hide SlotOf, StepOnValue, StepMake, StepBuild, StepAuth, StepExpire, StepTtl, StepDel;
    SameLookup(st, t, c.k);
    match c
    case Make(_, _, _) =>
      if |c.auths| <= 2 {
        MakeLocal(st, t, c, a);
      }
    case Del(_) => DelLocal(st, t, c.k, a);
    case LMake(_, _) => BuildLocal(st, t, c, a);
    case SMake(_, _) => BuildLocal(st, t, c, a);
    case HMake(_, _) => BuildLocal(st, t, c, a);
    case AuthR(_, level) => AuthLocal(st, t, c.k, level, a, true);
    case AuthW(_, level) => AuthLocal(st, t, c.k, level, a, false);
    case Expire(_, time) => TimeLocal(st, t, c.k, time, a, env.now);
    case Ttl(_) => TimeLocal(st, t, c.k, "", a, env.now);
    case _ => OnValueLocal(st, t, c, a, env.now);
  }

  // ----------------------------------------------------------------- cluster

  /** The tables and views of n configured nodes. */
  ghost predicate IsCluster(tables: seq<Chains>, views: seq<View>) {
    && |tables| == |views| >= 1
    && (forall k :: 0 <= k < |tables| ==> |tables[k]| == TABLE_S)
    && (forall k :: 0 <= k < |views| ==> Configured(views[k], |views|, k))
  }

  /** The table a single node would hold: every slot as its owner has it. */
  function Merged(tables: seq<Chains>): (st: Chains)
    requires |tables| >= 1 && forall k :: 0 <= k < |tables| ==> |tables[k]| == TABLE_S
    ensures |st| == TABLE_S && forall i :: 0 <= i < TABLE_S ==> st[i] == tables[OwnerOf(|tables|, i)][i]
  {
    seq(TABLE_S, i requires 0 <= i < TABLE_S => tables[OwnerOf(|tables|, i)][i])
  }

  /** A request to node j, followed for at most one hop: the outcome and the tables after
      it. The connection between two nodes has an authority of its own. */
  function Request(tables: seq<Chains>, views: seq<View>, j: nat, com: string, auth: int, link: int, env: Env)
    : (Route, seq<Chains>)
    requires |tables| == |views| && j < |tables| && forall k :: 0 <= k < |tables| ==> |tables[k]| == TABLE_S
  {
    var (route, st, _) := ScanOf(tables[j], views[j], com, auth, env);
    var after := tables[j := st];
    if route.Forward? && PeerNode(j, route.peer) < |tables| then
      var k := PeerNode(j, route.peer);
      var (route', st', _) := ScanOf(after[k], views[k], route.message, link, env);
      (route', after[k := st'])
    else (route, after)
  }

  lemma AskedOwner(tables: seq<Chains>, views: seq<View>, j: nat, com: string, auth: int, link: int, env: Env)
    requires IsCluster(tables, views) && j < |tables| && OnKey(com) && -TWO31 < auth < TWO31
    requires j == OwnerOf(|tables|, KeySlot(com))
    ensures var (reply, st) := Step(tables[j], Parse(Tokens(com)), auth % 256, env);
            var (route, tables') := Request(tables, views, j, com, auth, link, env);
            tables' == tables[j := st] && (route.Answer? <==> Plain(reply)) && (route.Answer? ==> route == Answer(reply))
  {
    hide Tokens, SlotOf, Plain, OwnerOf, RangeOf, Step, Parse, ScanOf, Tag;
    OwnerActs(tables[j], views[j], |tables|, com, auth, env);
    ForwardForm(tables[j], views[j], com, auth, env);
    var route := ScanOf(tables[j], views[j], com, auth, env).0;
    if route.Forward? {
      var k := PeerNode(j, route.peer);
      NotOwnerPassesOn(tables[k], views[k], |tables|, k, com, auth, link, env);
    }
  }

  lemma AskedOther(tables: seq<Chains>, views: seq<View>, j: nat, com: string, auth: int, link: int, env: Env)
    requires IsCluster(tables, views) && j < |tables| && OnKey(com) && -TWO31 < auth < TWO31
    requires j != OwnerOf(|tables|, KeySlot(com))
    ensures var k := OwnerOf(|tables|, KeySlot(com));
            var (reply, st) := Step(tables[k], Parse(Tokens(com)), auth % 256, env);
            var (route, tables') := Request(tables, views, j, com, auth, link, env);
            tables' == tables[k := st] && (route.Answer? <==> Plain(reply)) && (route.Answer? ==> route == Answer(reply))
  {
    hide Tokens, SlotOf, Plain, OwnerOf, RangeOf, Step, Parse, ScanOf, Tag;
    var n := |tables|;
    var k := OwnerOf(n, KeySlot(com));
    assert tables[j := tables[j]] == tables;
    ForwardsToOwner(tables[j], views[j], n, j, com, auth, env);
    OneHopIsEnough(tables[k], views[k], n, com, auth, link, env);
  }

  /** Whichever node is asked, the owner of the key executes the command once, no other
      table changes, and the request is answered, with the owner's reply, exactly when that
      reply is plain. */
  lemma AnyNodeWillDo(tables: seq<Chains>, views: seq<View>, j: nat, com: string, auth: int, link: int, env: Env)
    requires IsCluster(tables, views) && j < |tables| && OnKey(com) && -TWO31 < auth < TWO31
    ensures var k := OwnerOf(|tables|, KeySlot(com));
            var (reply, st) := Step(tables[k], Parse(Tokens(com)), auth % 256, env);
            var (route, tables') := Request(tables, views, j, com, auth, link, env);
            tables' == tables[k := st] && (route.Answer? <==> Plain(reply)) && (route.Answer? ==> route == Answer(reply))
  {
    hide Tokens, SlotOf, Plain, OwnerOf, RangeOf, Step, Parse, ScanOf, Tag, Request, Configured;
    if j == OwnerOf(|tables|, KeySlot(com)) {
      AskedOwner(tables, views, j, com, auth, link, env);
    } else {
      AskedOther(tables, views, j, com, auth, link, env);
    }
  }

  lemma MergedUpdate(tables: seq<Chains>, k: nat, slot: nat, st: Chains, m: Chains)
    requires k < |tables| && forall l :: 0 <= l < |tables| ==> |tables[l]| == TABLE_S
    requires slot < TABLE_S && k == OwnerOf(|tables|, slot)
    requires |st| == TABLE_S && st == tables[k][slot := st[slot]]
    requires m == Merged(tables)[slot := st[slot]]
    ensures Merged(tables[k := st]) == m
  {
    hide OwnerOf;
    var after := Merged(tables[k := st]);
    forall i | 0 <= i < TABLE_S
      ensures after[i] == m[i]
    {
    }
  }

  /** The cluster refines one big table: for every size, every node asked and every
      authority, a command about a key leads to the table the merged table is led to, and
      is answered, with the reply it has there, exactly when that reply is plain. */
  lemma ClusterIsOneTable(tables: seq<Chains>, views: seq<View>, j: nat, com: string, auth: int, link: int, env: Env)
    requires IsCluster(tables, views) && j < |tables| && OnKey(com) && -TWO31 < auth < TWO31
    requires HasKey(Parse(Tokens(com)))
    ensures var (reply, st) := Step(Merged(tables), Parse(Tokens(com)), auth % 256, env);
            var (route, tables') := Request(tables, views, j, com, auth, link, env);
            && (route.Answer? <==> Plain(reply)) && (route.Answer? ==> route == Answer(reply))
            && |tables'| == |tables| && (forall k :: 0 <= k < |tables'| ==> |tables'[k]| == TABLE_S)
            && Merged(tables') == st
  {
    hide Tokens, SlotOf, Plain, OwnerOf, Step, Parse, Request, Shaped, Configured;
    var n, c := |tables|, Parse(Tokens(com));
    KeyIsToken(com);
    var k := OwnerOf(n, KeySlot(com));
    AnyNodeWillDo(tables, views, j, com, auth, link, env);
    StepIsLocal(tables[k], tables[k], c, auth % 256, env);
    StepIsLocal(Merged(tables), tables[k], c, auth % 256, env);
    var a := auth % 256;
    MergedUpdate(tables, k, KeySlot(com), Step(tables[k], c, a, env).1, Step(Merged(tables), c, a, env).1);
  }

  lemma KeyIsToken(com: string)
    requires OnKey(com) && HasKey(Parse(Tokens(com)))
    ensures Parse(Tokens(com)).k == Tokens(com)[1]
  {
    hide Tokens, Parse;
    ParseShape(Tokens(com));
  }

  // -------------------------------------------------------------------- runs

  /** A request: the node it is sent to, the command, the client's authority. */
  datatype Req = Req(node: nat, com: string, auth: int, env: Env)

  function ServeAll(tables: seq<Chains>, views: seq<View>, link: int, rs: seq<Req>): (seq<Route>, seq<Chains>)
    requires |tables| == |views| && forall k :: 0 <= k < |tables| ==> |tables[k]| == TABLE_S
    requires forall i :: 0 <= i < |rs| ==> rs[i].node < |tables|
    decreases |rs|
  {
    if rs == [] then ([], tables)
    else
      var (route, next) := Request(tables, views, rs[0].node, rs[0].com, rs[0].auth, link, rs[0].env);
      var (routes, last) := ServeAll(next, views, link, rs[1..]);
      ([route] + routes, last)
  }

  /** The same requests on one table. */
  function StepAll(st: Chains, rs: seq<Req>): (r: (seq<string>, Chains))
    requires |st| == TABLE_S
    ensures |r.0| == |rs| && |r.1| == TABLE_S
    decreases |rs|
  {
    if rs == [] then ([], st)
    else
      var (reply, next) := Step(st, Parse(Tokens(rs[0].com)), rs[0].auth % 256, rs[0].env);
      var (replies, last) := StepAll(next, rs[1..]);
      ([reply] + replies, last)
  }

  ghost predicate KeyRequests(rs: seq<Req>, n: nat) {
    forall i :: 0 <= i < |rs| ==>
      rs[i].node < n && OnKey(rs[i].com) && HasKey(Parse(Tokens(rs[i].com))) && -TWO31 < rs[i].auth < TWO31
  }

  /** Along the history on one table every reply is plain, told beforehand. */
  ghost predicate PlainRun(st: Chains, rs: seq<Req>)
    requires |st| == TABLE_S
    decreases |rs|
  {
    rs != [] ==>
      var c := Parse(Tokens(rs[0].com));
      && PlainFor(st, c, rs[0].auth % 256, rs[0].env.now)
      && PlainRun(Step(st, c, rs[0].auth % 256, rs[0].env).1, rs[1..])
  }

  /** A cluster of any size answers every request of a history of commands about keys,
      spread over its nodes in any way, exactly when the condition on each command and on
      what it finds holds along the history on the merged table; the answers and the last
      tables are then those of the merged table. */
  lemma {:induction false} ClusterRun(tables: seq<Chains>, views: seq<View>, link: int, rs: seq<Req>)
    requires IsCluster(tables, views) && KeyRequests(rs, |tables|)
    ensures var (replies, st) := StepAll(Merged(tables), rs);
            var (routes, tables') := ServeAll(tables, views, link, rs);
            && |routes| == |rs|
            && ((forall i :: 0 <= i < |rs| ==> routes[i].Answer?) <==> PlainRun(Merged(tables), rs))
            && (PlainRun(Merged(tables), rs) ==>
                  && (forall i :: 0 <= i < |rs| ==> routes[i] == Answer(replies[i]))
                  && |tables'| == |tables| && (forall k :: 0 <= k < |tables'| ==> |tables'[k]| == TABLE_S)
                  && Merged(tables') == st)
    decreases |rs|
  {
    hide Tokens, OnKey, HasKey, Plain, PlainFor, Step, Parse, Request, Configured, Merged;
    if rs != [] {
      var r := rs[0];
      ClusterIsOneTable(tables, views, r.node, r.com, r.auth, link, r.env);
      ReplyIsPlainExactly(Merged(tables), Parse(Tokens(r.com)), r.auth % 256, r.env);
      var (route, next) := Request(tables, views, r.node, r.com, r.auth, link, r.env);
      ClusterRun(next, views, link, rs[1..]);
      var routes := ServeAll(tables, views, link, rs).0;
      assert routes == [route] + ServeAll(next, views, link, rs[1..]).0;
      assert routes[0] == route && routes[1..] == ServeAll(next, views, link, rs[1..]).0;
    }
  }

  lemma MergedHarmless(tables: seq<Chains>)
    requires |tables| >= 1 && forall k :: 0 <= k < |tables| ==> |tables[k]| == TABLE_S && TableHarmless(tables[k])
    ensures TableHarmless(Merged(tables))
  {
    hide DataHarmless, OwnerOf;
  }

  lemma FoundHarmless(st: Chains, k: string)
    requires |st| == TABLE_S && TableHarmless(st)
    ensures KeyHarmless(st, k)
  {
    hide DataHarmless, SlotOf;
  }

  /** Every request is free of the marking word. */
  ghost predicate HarmlessRequests(rs: seq<Req>) {
    forall i :: 0 <= i < |rs| ==> Harmless(rs[i].com)
  }

  lemma {:induction false} HarmlessIsPlainRun(st: Chains, rs: seq<Req>, n: nat)
    requires |st| == TABLE_S && TableHarmless(st) && KeyRequests(rs, n) && HarmlessRequests(rs)
    ensures PlainRun(st, rs)
    decreases |rs|
  {
    hide Tokens, OnKey, Plain, PlainFor, Harmless, TableHarmless, KeyHarmless, Step, Parse;
    if rs != [] {
      var r := rs[0];
      var (reply, next) := Step(st, Parse(Tokens(r.com)), r.auth % 256, r.env);
      FoundHarmless(st, Parse(Tokens(r.com)).k);
      ReplyIsPlain(st, r.com, r.auth % 256, r.env);
      ReplyIsPlainExactly(st, Parse(Tokens(r.com)), r.auth % 256, r.env);
      TokensHarmless(r.com);
      ReplyIsHarmless(st, Tokens(r.com), r.auth % 256, r.env);
      HarmlessIsPlainRun(next, rs[1..], n);
    }
  }

  /** With hypotheses on the tables and the requests alone: a cluster whose stored texts
      and whose requests do not contain the marking word serves any history of commands
      about keys like the merged table. */
  lemma ClusterServes(tables: seq<Chains>, views: seq<View>, link: int, rs: seq<Req>)
    requires IsCluster(tables, views) && KeyRequests(rs, |tables|)
    requires HarmlessRequests(rs) && forall k :: 0 <= k < |tables| ==> TableHarmless(tables[k])
    ensures var (replies, st) := StepAll(Merged(tables), rs);
            var (routes, tables') := ServeAll(tables, views, link, rs);
            && |routes| == |rs| && (forall i :: 0 <= i < |rs| ==> routes[i] == Answer(replies[i]))
            && |tables'| == |tables| && (forall k :: 0 <= k < |tables'| ==> |tables'[k]| == TABLE_S)
            && Merged(tables') == st
  {
    hide Merged, StepAll, ServeAll, KeyRequests, HarmlessRequests, TableHarmless, Configured, PlainRun;
    MergedHarmless(tables);
    HarmlessIsPlainRun(Merged(tables), rs, |tables|);
    ClusterRun(tables, views, link, rs);
  }
}
