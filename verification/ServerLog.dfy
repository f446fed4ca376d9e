/** The log of a node that serves clients and other nodes: which requests scan_and_send of
    src/server_th.cpp appends to it, and exactly when executing the appended lines rebuilds
    the node's table. */
module ServerLog {
  import opened ForwardedLog
  import opened Hashing
  import opened Machine
  import opened MachineInts
  import opened OneHop
  import opened PlainReplies
  import opened Replay
  import opened Routing
  import opened Safety
  import opened SlotRanges
  import opened Store
  import opened Text

  /** A request as it arrives: the raw line, the authority of the connection, and the time
      and file it meets. */
  datatype Arrival = Arrival(line: string, auth: int, env: Env)

  /** The slots of a node that has not been configured: all of them. */
  const ALL: Range := Range(0, TABLE_S - 1)

  /** The command line a request stands for, at the authority it is executed with. */
  function Unwrapped(r: Arrival): Event {
    var (text, level) := Untagged(r.line, r.auth);
    Event(text, level % 256, r.env)
  }

  function Scanned(st: Chains, v: View, r: Arrival): (r': (Route, Chains, View))
    requires |st| == TABLE_S
    ensures |r'.1| == TABLE_S
  {
    ScanOf(st, v, r.line, r.auth, r.env)
  }

  /** The server's rule: the class of the raw line is Write and the reply is sent back. */
  predicate TakesLog(st: Chains, v: View, r: Arrival)
    requires |st| == TABLE_S
  {
    CommandType(Tokens(r.line)) == WriteType && Scanned(st, v, r).0.Answer?
  }

  /** The line log_append writes for a request, before it is encrypted: the command, the
      authority it was executed with, and the authority of the connection. */
  function LogLine(r: Arrival): string {
    var (text, level) := Untagged(r.line, r.auth);
    text + ([BACKSPACE] + (" " + (Decimal(level) + (" " + ([BACKSPACE] + (" " + Decimal(r.auth)))))))
  }

  /** Sent to a server again, over a connection of any authority, a logged line stands for
      the command and the authority of the request. */
  lemma LogLineReadsBack(r: Arrival, other: int)
    requires -TWO31 < Untagged(r.line, r.auth).1 < TWO31
    ensures Untagged(LogLine(r), other) == Untagged(r.line, r.auth)
  {
    hide Atoi, Decimal;
    var (text, level) := Untagged(r.line, r.auth);
    var tail := " " + ([BACKSPACE] + (" " + Decimal(r.auth)));
    var rest := " " + (Decimal(level) + tail);
    assert BACKSPACE !in text;
    IndexOfFirst(text, [BACKSPACE] + rest, BACKSPACE);
    assert LogLine(r) == text + ([BACKSPACE] + rest);
    assert LogLine(r)[..|text|] == text && LogLine(r)[|text| + 1..] == rest;
    NumberStops(level, tail);
  }

  /** The table after a history of requests to one node, set-up messages included. */
  function Served(st: Chains, v: View, rs: seq<Arrival>): (st': Chains)
    requires |st| == TABLE_S
    ensures |st'| == TABLE_S
    decreases |rs|
  {
    if rs == [] then st
    else
      var (_, next, v') := Scanned(st, v, rs[0]);
      Served(next, v', rs[1..])
  }

  /** The lines the node has logged by then, with their authorities. */
  function Logged(st: Chains, v: View, rs: seq<Arrival>): seq<Event>
    requires |st| == TABLE_S
    decreases |rs|
  {
    if rs == [] then []
    else
      var (_, next, v') := Scanned(st, v, rs[0]);
      (if TakesLog(st, v, rs[0]) then [Unwrapped(rs[0])] else []) + Logged(next, v', rs[1..])
  }

  // ------------------------------------------------------- what the log misses

  /** A command changes the table: a Write by what it does, any other by dropping an entry
      that has expired. */
  ghost predicate Alters(st: Chains, c: Cmd, a: byte, env: Env)
    requires |st| == TABLE_S
  {
    if Logs(c) then Step(st, c, a, env).1 != st else MeetsDead(st, c, env.now)
  }

  /** A request changes the table although its raw line is no Write or its reply is none
      that is sent back. */
  ghost predicate Missed(st: Chains, v: View, r: Arrival)
    requires |st| == TABLE_S
  {
    var ev := Unwrapped(r);
    var c := CmdOf(ev.line, v.own);
    && Alters(st, c, ev.auth, ev.env)
    && !(CommandType(Tokens(r.line)) == WriteType && PlainFor(st, c, ev.auth, ev.env.now))
  }

  ghost predicate NothingMissed(st: Chains, v: View, rs: seq<Arrival>)
    requires |st| == TABLE_S
    decreases |rs|
  {
    rs != [] ==>
      var (_, next, v') := Scanned(st, v, rs[0]);
      !Missed(st, v, rs[0]) && NothingMissed(next, v', rs[1..])
  }

  // ------------------------------------------------------------- one request

  lemma ScannedIsAfter(st: Chains, v: View, r: Arrival)
    requires |st| == TABLE_S
    ensures Scanned(st, v, r).1 == After(st, Unwrapped(r), v.own)
  {
    hide Machine.Execute, Routed, Untagged;
  }

  /** A request changes the table exactly when its command does. */
  lemma AltersIs(st: Chains, v: View, r: Arrival)
    requires |st| == TABLE_S
    ensures var ev := Unwrapped(r);
            Scanned(st, v, r).1 != st <==> Alters(st, CmdOf(ev.line, v.own), ev.auth, ev.env)
  {
    hide Scanned, Unwrapped, CmdOf, Step, Machine.Execute, MeetsDead, Logs;
    var ev := Unwrapped(r);
    var c := CmdOf(ev.line, v.own);
    ScannedIsAfter(st, v, r);
    ExecuteIsStep(st, ev, v.own);
    if !Logs(c) {
      QuietExactly(st, c, ev.auth, ev.env);
    }
  }

  /** A request that reaches the dispatch table is answered exactly when its reply is plain. */
  lemma AnswerIsPlain(st: Chains, v: View, r: Arrival)
    requires |st| == TABLE_S && Screen(Tokens(Unwrapped(r).line), v.own).None?
    ensures var ev := Unwrapped(r);
            Scanned(st, v, r).0.Answer? <==> PlainFor(st, CmdOf(ev.line, v.own), ev.auth, ev.env.now)
  {
    hide Screen, Tokens, Parse, Step, PlainFor, Untagged, IsSetupReply, Contains, FirstHolding, RangeIn;
    var ev := Unwrapped(r);
    ReplyIsPlainExactly(st, Parse(Tokens(ev.line)), ev.auth, ev.env);
  }

  /** What the dispatch table never sees is not missed. */
  lemma ScreenedIsQuiet(st: Chains, v: View, r: Arrival)
    requires |st| == TABLE_S && Screen(Tokens(Unwrapped(r).line), v.own).Some?
    ensures Scanned(st, v, r).1 == st && !Missed(st, v, r)
  {
    hide Screen, Tokens, Untagged, Routed, Step, PlainFor, CommandType, Parse;
  }

  /** A request is missed exactly when it is not logged and changes the table. */
  lemma MissedIs(st: Chains, v: View, r: Arrival)
    requires |st| == TABLE_S
    ensures Missed(st, v, r) <==> !TakesLog(st, v, r) && Scanned(st, v, r).1 != st
  {
    hide Scanned, Unwrapped, Screen, Tokens, CmdOf, Alters, PlainFor, CommandType;
    var ev := Unwrapped(r);
    AltersIs(st, v, r);
    if Screen(Tokens(ev.line), v.own).None? {
      AnswerIsPlain(st, v, r);
    } else {
      ScreenedIsQuiet(st, v, r);
    }
  }

  lemma FullScreen(args: seq<string>, own: Range)
    ensures Screen(args, own).None? ==> Screen(args, ALL).None?
    ensures args == [] ==> Screen(args, ALL).Some?
    ensures Screen(args, own).Some? && args != [] ==>
              || (Screen(args, own).value == MAGIC + args[0] && IsSetup(args[0]))
              || (|args| > 1 && Screen(args, own).value == "hashval " + Decimal(SlotOf(args[1])))
  {
    hide SlotOf, Decimal, IsSetup;
  }

  /** A logged line has the same effect on a node that owns all slots. */
  lemma LoggedReplays(st: Chains, v: View, r: Arrival)
    requires |st| == TABLE_S && TakesLog(st, v, r)
    ensures After(st, Unwrapped(r), ALL) == Scanned(st, v, r).1
  {
    hide Screen, Tokens, Untagged, Step, Parse, CommandType;
    var args := Tokens(Unwrapped(r).line);
    FullScreen(args, v.own);
    if Screen(args, v.own).Some? && args != [] {
      TurnedAway(st, v, r);
    }
  }

  lemma TurnedAway(st: Chains, v: View, r: Arrival)
    requires |st| == TABLE_S
    requires var args := Tokens(Unwrapped(r).line); args != [] && Screen(args, v.own).Some?
    ensures !Scanned(st, v, r).0.Answer?
  {
    hide Screen, Tokens, Untagged, Step, Parse, Contains, IsSetupReply, FirstHolding, RangeIn, Atoi, Decimal, SlotOf;
    var args := Tokens(Unwrapped(r).line);
    FullScreen(args, v.own);
    var reply := Screen(args, v.own).value;
    if |args| > 1 && reply == "hashval " + Decimal(SlotOf(args[1])) {
      RedirectText(SlotOf(args[1]));
    } else {
      SetupText(args[0]);
    }
  }

  lemma SetupText(name: string)
    requires IsSetup(name)
    ensures IsSetupReply(MAGIC + name)
  {
    var reply := MAGIC + name;
    assert reply[..2] == MAGIC && reply[2..] == name;
  }

  // ---------------------------------------------------------------- histories

  lemma HistoryCons(st: Chains, v: View, r: Arrival, rest: seq<Arrival>)
    requires |st| == TABLE_S
    ensures var (_, next, v') := Scanned(st, v, r);
            && Served(st, v, [r] + rest) == Served(next, v', rest)
            && Logged(st, v, [r] + rest) ==
               (if TakesLog(st, v, r) then [Unwrapped(r)] else []) + Logged(next, v', rest)
  {
    hide Scanned, TakesLog, Unwrapped;
    assert ([r] + rest)[1..] == rest;
  }

  /** The table the logged lines rebuild on a node that owns all slots. */
  function Rebuilt(st: Chains, v: View, rs: seq<Arrival>): (st': Chains)
    requires |st| == TABLE_S
    ensures |st'| == TABLE_S
  {
    RunLines(st, Logged(st, v, rs), ALL)
  }

  lemma RebuiltNone(st: Chains, v: View)
    requires |st| == TABLE_S
    ensures Rebuilt(st, v, []) == Served(st, v, []) == st
  {
  }

  /** One request more in front: a logged one is replayed, any other left out. */
  lemma RebuiltCons(st: Chains, v: View, r: Arrival, rest: seq<Arrival>)
    requires |st| == TABLE_S
    ensures var (_, next, v') := Scanned(st, v, r);
            && (TakesLog(st, v, r) ==> Rebuilt(st, v, [r] + rest) == Rebuilt(next, v', rest))
            && (!TakesLog(st, v, r) && next == st ==> Rebuilt(st, v, [r] + rest) == Rebuilt(next, v', rest))
  {
    hide Scanned, TakesLog, Unwrapped, After, RunLines, Logged;
    HistoryCons(st, v, r, rest);
    var (_, next, v') := Scanned(st, v, r);
    if TakesLog(st, v, r) {
      RunCons(st, Unwrapped(r), Logged(next, v', rest), ALL);
      LoggedReplays(st, v, r);
    } else {
      assert [] + Logged(next, v', rest) == Logged(next, v', rest);
    }
  }

  lemma {:induction false} LogAgrees(st: Chains, v: View, rs: seq<Arrival>)
    requires |st| == TABLE_S && NothingMissed(st, v, rs)
    ensures Rebuilt(st, v, rs) == Served(st, v, rs)
    decreases |rs|
  {
    hide Scanned, TakesLog, Missed, Rebuilt, Logged;
    if rs == [] {
      RebuiltNone(st, v);
    } else {
      var (_, next, v') := Scanned(st, v, rs[0]);
      assert rs == [rs[0]] + rs[1..];
      MissedIs(st, v, rs[0]);
      RebuiltCons(st, v, rs[0], rs[1..]);
      HistoryCons(st, v, rs[0], rs[1..]);
      LogAgrees(next, v', rs[1..]);
    }
  }

  lemma {:induction false} NothingMissedPrefix(st: Chains, v: View, rs: seq<Arrival>, n: nat)
    requires |st| == TABLE_S && NothingMissed(st, v, rs) && n <= |rs|
    ensures NothingMissed(st, v, rs[..n])
    decreases n
  {
    hide Scanned, Missed;
    if n > 0 {
      var (_, next, v') := Scanned(st, v, rs[0]);
      NothingMissedPrefix(next, v', rs[1..], n - 1);
      assert rs[..n][1..] == rs[1..][..n - 1];
    }
  }

  /** Right after the first request that is missed the log rebuilds another table. */
  lemma {:induction false} LogDiverges(st: Chains, v: View, rs: seq<Arrival>) returns (n: nat)
    requires |st| == TABLE_S && !NothingMissed(st, v, rs)
    ensures n <= |rs| && Rebuilt(st, v, rs[..n]) != Served(st, v, rs[..n])
    decreases |rs|
  {
    hide Scanned, TakesLog, Missed, Rebuilt, Logged, Served;
    var r := rs[0];
    var (_, next, v') := Scanned(st, v, r);
    MissedIs(st, v, r);
    if Missed(st, v, r) {
      n := 1;
      assert rs[..1] == [r] + [];
      HistoryCons(st, v, r, []);
      RebuiltNone(next, v');
      MissedAlone(st, v, r);
    } else {
      var m := LogDiverges(next, v', rs[1..]);
      n := m + 1;
      assert rs[..n] == [r] + rs[1..][..m];
      RebuiltCons(st, v, r, rs[1..][..m]);
      HistoryCons(st, v, r, rs[1..][..m]);
    }
  }

  lemma MissedAlone(st: Chains, v: View, r: Arrival)
    requires |st| == TABLE_S && !TakesLog(st, v, r)
    ensures Rebuilt(st, v, [r] + []) == st
  {
    hide Scanned, TakesLog, Unwrapped;
    HistoryCons(st, v, r, []);
    assert Logged(st, v, [r] + []) == [];
  }

  /** For every history of requests to one node, from clients and from other nodes, set-up
      messages and reads included: executing the lines the node has logged, at the
      authorities logged with them, rebuilds its table at every point of the history exactly
      when no request changes the table although its raw line is no Write or its reply is
      not plain. */
  lemma ServerLogReplays(st: Chains, v: View, rs: seq<Arrival>)
    requires |st| == TABLE_S
    ensures (forall n :: 0 <= n <= |rs| ==> Rebuilt(st, v, rs[..n]) == Served(st, v, rs[..n]))
            <==> NothingMissed(st, v, rs)
  {
    hide Rebuilt, Served, NothingMissed;
    if NothingMissed(st, v, rs) {
      forall n | 0 <= n <= |rs|
        ensures Rebuilt(st, v, rs[..n]) == Served(st, v, rs[..n])
      {
        NothingMissedPrefix(st, v, rs, n);
        LogAgrees(st, v, rs[..n]);
      }
    } else {
      var n := LogDiverges(st, v, rs);
    }
  }

  /** A client's request with a plain reply is missed exactly when it is no Write and meets
      an expired entry. */
  lemma MissedFromClient(st: Chains, v: View, com: string, auth: int, env: Env)
    requires |st| == TABLE_S && BACKSPACE !in com
    requires PlainFor(st, CmdOf(com, v.own), auth % 256, env.now)
    ensures var c := CmdOf(com, v.own);
            Missed(st, v, Arrival(com, auth, env)) <==> !Logs(c) && MeetsDead(st, c, env.now)
  {
    hide Tokens, CommandType, Parse, Step, PlainFor, MeetsDead, Screen, Logs;
    NoTag(com, auth);
    ClassesAgree(Tokens(com));
    UnknownIsQuiet(st, auth % 256, env);
  }

  lemma UnknownIsQuiet(st: Chains, a: byte, env: Env)
    requires |st| == TABLE_S
    ensures !Logs(Unknown) && !MeetsDead(st, Unknown, env.now)
  {
  }

  /** A forwarded command with a plain reply is missed exactly when it changes the table and
      is none of those that keep their class behind a tag. */
  lemma MissedFromNode(st: Chains, v: View, com: string, auth: int, link: int, env: Env)
    requires |st| == TABLE_S && BACKSPACE !in com && -TWO31 < auth < TWO31
    requires Screen(Tokens(com), v.own).None? && !Parse(Tokens(com)).Unknown?
    requires PlainFor(st, Parse(Tokens(com)), auth % 256, env.now)
    ensures var c := Parse(Tokens(com));
            Missed(st, v, Arrival(com + Tag(auth), link, env)) <==> !StillLogged(c) && Alters(st, c, auth % 256, env)
  {
    hide Tokens, CommandType, Parse, PlainFor, Alters, Screen, StillLogged, Tag, Untagged;
    TagComesOff(com, auth, link);
    ForwardedIsLogged(com, auth);
  }
}
