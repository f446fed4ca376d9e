/** The request handling of src/server_th.cpp: a node executes a command line on its own
    table and passes it on to the node whose recorded range holds the key. */
module Routing {
  import opened Commands
  import opened Hashing
  import opened Machine
  import opened SlotRanges
  import opened Store
  import opened Table
  import opened Text

  const BACKSPACE: char := 8 as char

  /** What a node knows of the cluster: its own slots and those of its peers. */
  datatype View = View(own: Range, peers: seq<Range>)

  /** What becomes of a request. Undefined stands for reading past a vector, an array or
      a string. */
  datatype Route = Answer(reply: string) | SetUp(reply: string) | Forward(peer: nat, message: string) | Undefined

  const REDIRECT: string := "hashval"

  predicate Contains(s: string, t: string) {
    |t| <= |s| && (s[..|t|] == t || (s != "" && Contains(s[1..], t)))
  }

  /** The tag a forwarded command carries behind it. */
  function Tag(auth: int): string {
    [' ', BACKSPACE] + (" " + Decimal(auth))
  }

  /** The command and the authority a request stands for. */
  function Untagged(com: string, auth: int): (string, int) {
    var bsp := IndexOf(com, BACKSPACE);
    if bsp == |com| then (com, auth) else (com[..bsp], Atoi(com[bsp + 1..]))
  }

  /** The first recorded range that holds a slot. */
  function FirstHolding(peers: seq<Range>, slot: int): (index: nat)
    ensures index <= |peers|
    ensures index < |peers| ==> InRange(slot, peers[index])
    ensures forall i :: 0 <= i < index ==> !InRange(slot, peers[i])
  {
    if peers == [] || InRange(slot, peers[0]) then 0 else FirstHolding(peers[1..], slot) + 1
  }

  predicate IsSetupReply(reply: string) {
    |reply| >= 2 && reply[..2] == MAGIC && IsSetup(reply[2..])
  }

  /** What follows from the reply of the node's own table. */
  function Routed(v: View, text: string, auth: int, reply: string): (Route, View) {
    if IsSetupReply(reply) then
      if reply[2..] == "clust" then
        if |Tokens(text)| < 5 then (Undefined, v) else (SetUp(reply), v.(peers := v.peers + [RangeIn(text)]))
      else if reply[2..] == "myinfo" then
        if |Tokens(text)| < 5 then (Undefined, v) else (SetUp(reply), v.(own := RangeIn(text)))
      else (SetUp(reply), v)
    else if Contains(reply, REDIRECT) then
      if |reply| < 8 then (Undefined, v) else
      var index := FirstHolding(v.peers, Atoi(reply[8..]));
      if index == |v.peers| then (Undefined, v) else (Forward(index, text + Tag(auth)), v)
    else (Answer(reply), v)
  }

  /** scan_and_send on one request. */
  function ScanOf(st: Chains, v: View, com: string, auth: int, env: Env): (r: (Route, Chains, View))
    requires |st| == TABLE_S
  {
    var (text, level) := Untagged(com, auth);
    var (reply, st') := Machine.Execute(st, text, level % 256, env, v.own);
    var (route, v') := Routed(v, text, auth, reply);
    (route, st', v')
  }

  // ---------------------------------------------------------------- server

  class Server {
    const server_hash: Hash
    var slot_start: seq<int>
    var slot_end: seq<int>
    var cluster_num: int
    ghost var peers: seq<Range>

    ghost predicate Valid()
      reads this, server_hash, server_hash.Repr
    {
      && server_hash.Valid() && this !in server_hash.Repr
      && cluster_num == |slot_start| == |slot_end| == |peers|
      && forall i :: 0 <= i < |peers| ==> peers[i] == Range(slot_start[i], slot_end[i])
    }

    ghost function Known(): View
      reads this, server_hash
    {
      View(Range(server_hash.start_num, server_hash.end_num), peers)
    }

    constructor (h: Hash)
      requires h.Valid()
      ensures Valid() && server_hash == h && peers == []
    {
      server_hash := h;
      slot_start, slot_end, cluster_num, peers := [], [], 0, [];
    }

    /** cluster_connect, once the connection is up: records the range of a peer. */
    method ClusterConnect(com: string)
      requires Valid() && |Tokens(com)| >= 5
      modifies this
      ensures Valid() && Known() == old(Known()).(peers := old(peers) + [RangeIn(com)])
    {
      hide Hash.Valid;
      var trimmed_com := Trim(com);
      var temp := Split(trimmed_com, ' ');
      assert temp[3] == temp[..][3] && temp[4] == temp[..][4];
      cluster_num := cluster_num + 1;
      slot_start := slot_start + [Atoi(temp[3])];
      slot_end := slot_end + [Atoi(temp[4])];
      peers := peers + [RangeIn(com)];
    }

    /** hash_reset: sets the node's own range. */
    method HashReset(com: string)
      requires Valid() && |Tokens(com)| >= 5
      modifies server_hash`start_num, server_hash`end_num
      ensures Valid() && Known() == old(Known()).(own := RangeIn(com))
    {
      hide Hash.Valid;
      var trimmed_com := Trim(com);
      var temp := Split(trimmed_com, ' ');
      assert temp[3] == temp[..][3] && temp[4] == temp[..][4];
      server_hash.SetBoundary(Atoi(temp[3]), Atoi(temp[4]));
    }

    /** The range search. */
    method Holder(key_val: int) returns (index: nat)
      requires Valid()
      ensures index == FirstHolding(peers, key_val)
    {
      index := 0;
      while index < cluster_num
        invariant 0 <= index <= cluster_num
        invariant forall i :: 0 <= i < index ==> !InRange(key_val, peers[i])
      {
        if key_val >= slot_start[index] && key_val <= slot_end[index] {
          break;
        }
        index := index + 1;
      }
    }

    /** What scan_and_send does once the command has been executed. */
    method Act(text: string, auth: int, reply: string) returns (route: Route)
      requires Valid()
      modifies this, server_hash`start_num, server_hash`end_num
      ensures Valid() && (route, Known()) == Routed(old(Known()), text, auth, reply)
      ensures server_hash.recs == old(server_hash.recs)
    {
      hide Hash.Valid;
      if IsSetupReply(reply) {
        if reply[2..] == "clust" || reply[2..] == "myinfo" {
          if |Tokens(text)| < 5 {
            return Undefined;
          }
          if reply[2..] == "clust" {
            ClusterConnect(text);
          } else {
            HashReset(text);
          }
        }
        return SetUp(reply);
      }
      if Contains(reply, REDIRECT) {
        if |reply| < 8 {
          return Undefined;
        }
        var index := Holder(Atoi(reply[8..]));
        if index == cluster_num {
          return Undefined;
        }
        return Forward(index, text + Tag(auth));
      }
      return Answer(reply);
    }

    /** scan_and_send. */
    method Scan(com: string, auth: int, env: Env) returns (route: Route)
      requires Valid()
      modifies this, server_hash.Repr
      ensures Valid() && fresh(server_hash.Repr - old(server_hash.Repr))
      ensures (route, server_hash.recs, Known()) == ScanOf(old(server_hash.recs), old(Known()), com, auth, env)
    {
      hide Hash.Valid, Routed, Machine.Execute, IndexOf, Atoi;
      var bsp := IndexOf(com, BACKSPACE);
      var new_auth := Atoi(com[if bsp == |com| then 0 else bsp + 1..]);
      var text, level := com, auth;
      if bsp != |com| {
        text := com[..bsp];
        level := new_auth;
      }
      var command := new Command(text, level % 256);
      var com_result, written := command.Execute(server_hash, env);
      route := Act(text, auth, com_result);
    }
  }
}
