/** Cluster-wide consequences: what a configured node knows, one-hop forwarding to the
    unique owner, and when the owner's answer is taken for another redirection. */
module OneHop {
  import opened Commands
  import opened Entries
  import opened Hashing
  import opened Machine
  import opened MachineInts
  import opened Redirects
  import opened Routing
  import opened SlotRanges
  import opened Store
  import opened Table
  import opened Text

  // --------------------------------------------------------- configuration

  /** What node j of n has to know: its own range and everyone else's, in order. */
  ghost predicate Configured(v: View, n: int, j: int) {
    && 0 <= j < n && v.own == RangeOf(n, j) && |v.peers| == n - 1
    && forall i :: 0 <= i < n - 1 ==> v.peers[i] == RangeOf(n, if i < j then i else i + 1)
  }

  /** Node j has been told of the nodes before node i. */
  ghost predicate ToldUpTo(peers: seq<Range>, n: int, j: int, i: int)
    requires n > 0
  {
    && |peers| == (if i <= j then i else i - 1)
    && forall k :: 0 <= k < |peers| ==> peers[k] == RangeOf(n, PeerNode(j, k))
  }

  lemma ToldEnds(v: View, n: int, j: int)
    requires 0 <= j < n
    ensures ToldUpTo([], n, j, 0)
    ensures ToldUpTo(v.peers, n, j, n) && v.own == RangeOf(n, j) ==> Configured(v, n, j)
  {
    hide RangeOf;
  }

  lemma ToldOneMore(peers: seq<Range>, n: int, j: int, i: int)
    requires 0 <= j < n && 0 <= i < n && ToldUpTo(peers, n, j, i)
    ensures ToldUpTo(if i == j then peers else peers + [RangeOf(n, i)], n, j, i + 1)
  {
    hide RangeOf;
  }

  /** The node that peer i of node j is. */
  function PeerNode(j: int, i: nat): nat {
    if i < j then i else i + 1
  }

  ghost predicate GoodInfo(info: string) {
    |Words(info)| == 2 && BACKSPACE !in info
  }

  lemma {:induction false} NotIn(s: string, t: string, c: char)
    requires c !in s && c !in t
    ensures c !in s + t
  {
  }

  lemma MessageHasNoTag(verb: string, info: string, r: Range)
    requires BACKSPACE !in verb && BACKSPACE !in info
    ensures BACKSPACE !in Message(verb, info, r)
  {
    DecimalIsWord(r.start);
    DecimalIsWord(r.end);
    var a := Decimal(r.start) + (" " + Decimal(r.end));
    NotIn(Decimal(r.start), " " + Decimal(r.end), BACKSPACE);
    NotIn(info, " " + a, BACKSPACE);
    NotIn(verb, " " + (info + (" " + a)), BACKSPACE);
  }

  lemma NoTag(com: string, auth: int)
    requires BACKSPACE !in com
    ensures Untagged(com, auth) == (com, auth)
  {
  }

  /** A node that is sent a set-up message records exactly the range it was built from. */
  lemma MessageArrives(st: Chains, v: View, verb: string, info: string, n: int, k: int, auth: int, env: Env)
    requires |st| == TABLE_S && GoodInfo(info) && 0 <= k < n
    requires verb == "clust" || verb == "myinfo"
    ensures var (route, st', v') := ScanOf(st, v, Message(verb, info, RangeOf(n, k)), auth, env);
            && route == SetUp(MAGIC + verb) && st' == st
            && v' == if verb == "clust" then v.(peers := v.peers + [RangeOf(n, k)]) else v.(own := RangeOf(n, k))
  {
    hide Tokens, Message, RangeIn, RangeOf, TrimOf;
    var m := Message(verb, info, RangeOf(n, k));
    assert BACKSPACE !in verb && verb != "" && ' ' !in verb;
    MessageHasNoTag(verb, info, RangeOf(n, k));
    NoTag(m, auth);
    RangeSurvives(verb, info, n, k);
    assert (MAGIC + verb)[2..] == verb;
  }

  /** The second loop of cluster.cpp: node j is sent its own range and those of all others. */
  method Configure(node: Server, j: int, n: int, infos: seq<string>,
                   addr_list: array<string>, my_list: array<string>, env: Env)
    requires node.Valid() && node.peers == [] && 0 <= j < n <= |infos|
    requires forall k :: 0 <= k < |infos| ==> GoodInfo(infos[k])
    requires addr_list.Length == my_list.Length == n
    requires forall k :: 0 <= k < n ==>
               addr_list[k] == ListEntry("clust", n, infos, k) && my_list[k] == ListEntry("myinfo", n, infos, k)
    requires {addr_list, my_list} !! ({node} + node.server_hash.Repr)
    modifies node, node.server_hash.Repr
    ensures node.Valid() && Configured(node.Known(), n, j)
    ensures node.server_hash.recs == old(node.server_hash.recs)
  {
    hide Hash.Valid, ScanOf, ListEntry, RangeOf, ToldUpTo, Configured, GoodInfo, Message;
    ToldEnds(node.Known(), n, j);
    for i := 0 to n
      invariant node.Valid() && fresh(node.server_hash.Repr - old(node.server_hash.Repr))
      invariant node.server_hash.recs == old(node.server_hash.recs)
      invariant ToldUpTo(node.peers, n, j, i)
      invariant i > j ==> node.Known().own == RangeOf(n, j)
      invariant addr_list[..] == old(addr_list[..]) && my_list[..] == old(my_list[..])
    {
      var info := if i < n - 1 then infos[i] else infos[|infos| - 1];
      assert addr_list[i] == addr_list[..][i] && my_list[i] == my_list[..][i];
      var route;
      ToldOneMore(node.peers, n, j, i);
      if i == j {
        EntryIs("myinfo", n, infos, i);
        MessageArrives(node.server_hash.recs, node.Known(), "myinfo", info, n, i, 0, env);
        route := node.Scan(my_list[i], 0, env);
      } else {
        EntryIs("clust", n, infos, i);
        MessageArrives(node.server_hash.recs, node.Known(), "clust", info, n, i, 0, env);
        route := node.Scan(addr_list[i], 0, env);
      }
    }
    ToldEnds(node.Known(), n, j);
  }

  lemma EntryIs(verb: string, n: int, infos: seq<string>, k: int)
    requires 0 <= k < n <= |infos|
    ensures ListEntry(verb, n, infos, k) ==
            Message(verb, if k < n - 1 then infos[k] else infos[|infos| - 1], RangeOf(n, k))
  {
  }

  // -------------------------------------------------------------- forwarding

  /** A command on a key, without a tag. */
  ghost predicate OnKey(com: string) {
    BACKSPACE !in com && |Tokens(com)| > 1 && !IsSetup(Tokens(com)[0])
  }

  ghost function KeySlot(com: string): nat
    requires OnKey(com)
  {
    SlotOf(Tokens(com)[1])
  }

  /** The search of a configured node stops at the owner. */
  lemma SearchFindsOwner(v: View, n: int, j: int, slot: nat)
    requires Configured(v, n, j) && slot < TABLE_S && OwnerOf(n, slot) != j
    ensures var i := FirstHolding(v.peers, slot); i < |v.peers| && PeerNode(j, i) == OwnerOf(n, slot)
  {
    var k := OwnerOf(n, slot);
    var i := if k < j then k else k - 1;
    RangesPartition(n, slot, k);
    assert InRange(slot, v.peers[i]);
    var f := FirstHolding(v.peers, slot);
    RangesPartition(n, slot, PeerNode(j, f));
  }

  lemma RedirectText(slot: nat)
    requires slot < TWO31
    ensures var reply := "hashval " + Decimal(slot);
            |reply| >= 8 && !IsSetupReply(reply) && Contains(reply, REDIRECT) && Atoi(reply[8..]) == slot
  {
    var reply := "hashval " + Decimal(slot);
    AtoiReadsBack(slot);
    assert reply[8..] == Decimal(slot);
    assert reply[..7] == REDIRECT;
    assert reply[0] == 'h' && MAGIC[0] == ' ';
    assert reply[..2][0] == 'h';
  }

  /** A node that does not own the key changes nothing and forwards the command, tagged,
      to the unique owner. */
  lemma ForwardsToOwner(st: Chains, v: View, n: int, j: int, com: string, auth: int, env: Env)
    requires |st| == TABLE_S && Configured(v, n, j) && OnKey(com) && OwnerOf(n, KeySlot(com)) != j
    ensures var (route, st', v') := ScanOf(st, v, com, auth, env);
            && st' == st && v' == v && route.Forward? && route.peer < |v.peers|
            && PeerNode(j, route.peer) == OwnerOf(n, KeySlot(com))
            && route.message == com + Tag(auth)
  {
    hide Tokens, SlotOf, Contains, IsSetupReply, FirstHolding, OwnerOf, RangeOf, Step;
    var slot := KeySlot(com);
    NoTag(com, auth);
    RangesPartition(n, slot, j);
    RedirectText(slot);
    SearchFindsOwner(v, n, j, slot);
  }

  lemma TrailingSpace(com: string)
    ensures Words(com + " ") == Words(com)
  {
    WordsConcat(com, "");
    assert com + (" " + "") == com + " " && Words("") == [];
  }

  /** The tag comes off again: same tokens, same authority as a byte. */
  lemma TagComesOff(com: string, auth: int, other: int)
    requires BACKSPACE !in com && -TWO31 < auth < TWO31
    ensures var (text, level) := Untagged(com + Tag(auth), other);
            Tokens(text) == Tokens(com) && level == auth
  {
    hide Words, TrimOf, Decimal, Atoi;
    var rest := [BACKSPACE] + (" " + Decimal(auth));
    var m := com + Tag(auth);
    assert m == (com + " ") + rest;
    IndexOfFirst(com + " ", rest, BACKSPACE);
    assert m[..|com| + 1] == com + " ";
    assert m[|com| + 2..] == " " + Decimal(auth);
    AtoiReadsBack(auth);
    TrailingSpace(com);
    TokensAreWords(com);
    TokensAreWords(com + " ");
  }

  /** What is left of a tagged line when the tag is cut off. */
  lemma UntaggedText(com: string, auth: int, other: int)
    requires BACKSPACE !in com
    ensures Untagged(com + Tag(auth), other).0 == com + " "
  {
    hide Decimal, Atoi;
    var rest := [BACKSPACE] + (" " + Decimal(auth));
    assert com + Tag(auth) == (com + " ") + rest;
    IndexOfFirst(com + " ", rest, BACKSPACE);
    assert (com + Tag(auth))[..|com| + 1] == com + " ";
  }

  /** A request runs at the authority of its connection, whatever that is, exactly when its
      line has no backspace; at one given authority also when the same number stands
      behind the first backspace. */
  lemma ConnectionAuthority(line: string, auth: int)
    ensures (forall level :: Untagged(line, level).1 == level) <==> BACKSPACE !in line
    ensures Untagged(line, auth).1 == auth <==>
            BACKSPACE !in line || Atoi(line[IndexOf(line, BACKSPACE) + 1..]) == auth
  {
    hide Atoi;
    if BACKSPACE in line {
      var level := Untagged(line, 0).1;
      assert Untagged(line, level + 1).1 == level;
    } else {
      forall level
        ensures Untagged(line, level).1 == level
      {
        NoTag(line, level);
      }
    }
  }

  /** Behind a tag the connection's authority plays no part: any node executes the line, on
      any table, as it would execute the command at the authority in the tag. */
  lemma TagDecides(st: Chains, v: View, com: string, auth: int, other: int, env: Env)
    requires |st| == TABLE_S && BACKSPACE !in com && -TWO31 < auth < TWO31
    ensures ScanOf(st, v, com + Tag(auth), other, env).1 == ScanOf(st, v, com, auth, env).1
    ensures ScanOf(st, v, com + Tag(auth), other, env).0.Answer? <==> ScanOf(st, v, com, auth, env).0.Answer?
  {
    hide Tokens, Contains, IsSetupReply, FirstHolding, Screen, Step, Parse, Untagged, Tag, RangeIn;
    NoTag(com, auth);
    TagComesOff(com, auth, other);
  }

  /** A forwarded message carries the command and the authority it came with. */
  lemma ForwardForm(st: Chains, v: View, com: string, auth: int, env: Env)
    requires |st| == TABLE_S && BACKSPACE !in com
    ensures var (route, _, _) := ScanOf(st, v, com, auth, env);
            route.Forward? ==> route.peer < |v.peers| && route.message == com + Tag(auth)
  {
    hide Contains, IsSetupReply, Machine.Execute, Tag;
    NoTag(com, auth);
  }

  /** A message that reaches a node which does not own the key changes nothing there and
      is passed on to the owner once more, with the authority of the connection it came by in
      place of the one it carried. */
  lemma NotOwnerPassesOn(st: Chains, v: View, n: int, j: int, com: string, auth: int, other: int, env: Env)
    requires |st| == TABLE_S && Configured(v, n, j) && OnKey(com) && OwnerOf(n, KeySlot(com)) != j
    requires -TWO31 < auth < TWO31
    ensures var (route, st', _) := ScanOf(st, v, com + Tag(auth), other, env);
            && st' == st && route.Forward? && route.peer < |v.peers|
            && PeerNode(j, route.peer) == OwnerOf(n, KeySlot(com))
            && route.message == com + " " + Tag(other)
  {
    hide Tokens, SlotOf, Contains, IsSetupReply, FirstHolding, OwnerOf, RangeOf, Step, Untagged, Tag;
    var slot := KeySlot(com);
    TagComesOff(com, auth, other);
    UntaggedText(com, auth, other);
    RangesPartition(n, slot, j);
    RedirectText(slot);
    SearchFindsOwner(v, n, j, slot);
  }

  /** A reply that the node cannot take for a redirection or a set-up reply. */
  ghost predicate Plain(reply: string) {
    !Contains(reply, REDIRECT) && !IsSetupReply(reply)
  }

  /** The owner's reaction to a command on one of its keys: the step of the machine, and
      an answer exactly when its reply is plain; the answer is then the reply. */
  lemma OwnerActs(st: Chains, v: View, n: int, com: string, auth: int, env: Env)
    requires |st| == TABLE_S && OnKey(com) && 1 <= n && v.own == RangeOf(n, OwnerOf(n, KeySlot(com)))
    ensures var (reply, st1) := Step(st, Parse(Tokens(com)), auth % 256, env);
            var (route, st', v') := ScanOf(st, v, com, auth, env);
            && st' == st1
            && (route.Answer? <==> Plain(reply))
            && (route.Answer? ==> route == Answer(reply) && v' == v)
  {
    hide Tokens, SlotOf, Contains, IsSetupReply, FirstHolding, OwnerOf, RangeOf, Step, Parse;
    NoTag(com, auth);
    RangesPartition(n, KeySlot(com), OwnerOf(n, KeySlot(com)));
  }

  /** One hop is enough: the owner treats the forwarded command on its table as it would
      the command itself at the authority of the first node's client, for every authority
      and whatever the authority of the connection between the nodes; so it answers
      without forwarding again exactly when the reply is plain. */
  lemma OneHopIsEnough(st: Chains, v: View, n: int, com: string, auth: int, other: int, env: Env)
    requires |st| == TABLE_S && OnKey(com) && 1 <= n && v.own == RangeOf(n, OwnerOf(n, KeySlot(com)))
    requires -TWO31 < auth < TWO31
    ensures var (reply, st1) := Step(st, Parse(Tokens(com)), auth % 256, env);
            var (route, st', v') := ScanOf(st, v, com + Tag(auth), other, env);
            && st' == st1
            && (route.Answer? <==> Plain(reply))
            && (route.Answer? ==> route == Answer(reply) && v' == v)
  {
    hide Tokens, SlotOf, Contains, IsSetupReply, FirstHolding, OwnerOf, RangeOf, Step, Parse, Untagged, Tag;
    TagComesOff(com, auth, other);
    RangesPartition(n, KeySlot(com), OwnerOf(n, KeySlot(com)));
  }

  // --------------------------------------------- what can be told beforehand

  /** The entry the command is about holds no harmful piece, if there is one. */
  ghost predicate EntryHarmless(st: Chains, com: string)
    requires |st| == TABLE_S
  {
    var c := Parse(Tokens(com));
    HasKey(c) ==> KeyHarmless(st, c.k)
  }

  lemma OnKeyCommand(com: string)
    requires OnKey(com)
    ensures var c := Parse(Tokens(com)); HasKey(c) || c.Unknown? || c.Read?
  {
    hide Tokens, Parse;
    ParseShape(Tokens(com));
  }

  /** A condition on the command and the stored value alone: if neither the command line
      nor a piece of the entry under its key contains the marking word or a backspace, the
      reply is plain. */
  lemma ReplyIsPlain(st: Chains, com: string, a: byte, env: Env)
    requires |st| == TABLE_S && OnKey(com) && Harmless(com) && EntryHarmless(st, com)
    ensures Plain(Step(st, Parse(Tokens(com)), a, env).0)
  {
    hide Tokens, Parse, Step, Harmless, KeyHarmless, IsSetupReply, Contains, OnKey;
    var c := Parse(Tokens(com));
    OnKeyCommand(com);
    TokensHarmless(com);
    if HasKey(c) {
      ReplyIsHarmless(st, Tokens(com), a, env);
    } else {
      OtherReplies(st, c, a, env);
    }
    HarmlessIsPlain(Step(st, c, a, env).0);
  }

  /** So the owner of the key answers such a command. */
  lemma OwnerAnswers(st: Chains, v: View, n: int, com: string, auth: int, env: Env)
    requires |st| == TABLE_S && OnKey(com) && 1 <= n && v.own == RangeOf(n, OwnerOf(n, KeySlot(com)))
    requires Harmless(com) && EntryHarmless(st, com)
    ensures var (reply, st1) := Step(st, Parse(Tokens(com)), auth % 256, env);
            ScanOf(st, v, com, auth, env) == (Answer(reply), st1, v)
  {
    hide Tokens, Parse, Step, Harmless, KeyHarmless, OnKey, ScanOf, OwnerOf, RangeOf, Plain;
    ReplyIsPlain(st, com, auth % 256, env);
    OwnerActs(st, v, n, com, auth, env);
  }

  // ---------------------------------------------------- commands that go astray

  /** The line that asks for the value of a key. */
  function GetLine(k: string): string {
    Join(["get", k], ' ')
  }

  ghost predicate KeyWord(k: string) {
    k != "" && ' ' !in k && BACKSPACE !in k
  }

  lemma GetLineIs(k: string)
    requires KeyWord(k)
    ensures Tokens(GetLine(k)) == ["get", k] && OnKey(GetLine(k)) && Parse(["get", k]) == Get(k)
    ensures KeySlot(GetLine(k)) == SlotOf(k)
  {
    hide SlotOf, Words, TrimOf;
    assert ["get", k][0] == "get" && ["get", k][1] == k;
    LineOfWords(["get", k]);
    assert GetLine(k) == "get" + [' '] + k;
  }

  /** A stored text that contains the marking word is never answered: whatever the table,
      the key and the size of the cluster, its owner takes the text for a redirection. */
  lemma StoredTextIsRedirected(st: Chains, k: string, e: Entry, v: View, n: int, auth: byte, env: Env)
    requires |st| == TABLE_S && KeyWord(k) && 1 <= n && v.own == RangeOf(n, OwnerOf(n, SlotOf(k)))
    requires Lookup(st, k) == Some(e) && e.data.Str? && Contains(e.data.text, REDIRECT)
    requires !IsExpired(e, env.now) && e.authr <= auth
    ensures Step(st, Parse(Tokens(GetLine(k))), auth, env) == (e.data.text, st)
    ensures !ScanOf(st, v, GetLine(k), auth, env).0.Answer?
  {
    hide SlotOf, OwnerOf, RangeOf, ScanOf, Lookup, Contains, GetLine, OnKey, KeySlot;
    GetLineIs(k);
    OwnerActs(st, v, n, GetLine(k), auth, env);
  }

  /** Nor is the refusal for a missing key whose name contains the word. */
  lemma MissingKeyIsRedirected(st: Chains, k: string, v: View, n: int, auth: byte, env: Env)
    requires |st| == TABLE_S && KeyWord(k) && 1 <= n && v.own == RangeOf(n, OwnerOf(n, SlotOf(k)))
    requires Lookup(st, k).None? && Contains(k, REDIRECT)
    ensures Step(st, Parse(Tokens(GetLine(k))), auth, env) == (NoSuchKey(k), st)
    ensures !ScanOf(st, v, GetLine(k), auth, env).0.Answer?
  {
    hide SlotOf, OwnerOf, RangeOf, ScanOf, Lookup, Contains, GetLine, OnKey, KeySlot;
    GetLineIs(k);
    var p := "ERROR : NO SUCH KEY (";
    assert NoSuchKey(k)[|p|..|p| + |k|] == k;
    ContainsSlice(NoSuchKey(k), |p|, |p| + |k|, REDIRECT);
    OwnerActs(st, v, n, GetLine(k), auth, env);
  }
}
