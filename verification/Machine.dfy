/** The command machine of src/command.h and src/command.cpp as a function: one command
    line, the caller's authority and the time take a table to a reply and a next table. */
module Machine {
  import opened Entries
  import opened FieldPairs
  import opened Hashing
  import opened LinkedList
  import opened MachineInts
  import opened Sequences
  import opened SetBuckets
  import opened Snapshot
  import opened Sorting
  import opened Store
  import opened Text

  // ---------------------------------------------------------------- syntax

  datatype Cmd =
    | Get(k: string)
    | Make(k: string, v: string, auths: seq<string>)
    | Del(k: string)
    | LMake(k: string, parts: seq<string>)
    | LPush(k: string, xs: seq<string>)
    | RPush(k: string, xs: seq<string>)
    | LPop(k: string)
    | RPop(k: string)
    | LGet(k: string, index: string)
    | LSet(k: string, index: string, x: string)
    | LErase(k: string, index: string)
    | SMake(k: string, parts: seq<string>)
    | SPush(k: string, xs: seq<string>)
    | SPop(k: string)
    | SErase(k: string, x: string)
    | Sort(k: string)
    | HMake(k: string, parts: seq<string>)
    | HPush(k: string, f: string, x: string)
    | HGet(k: string, f: string)
    | HFields(k: string)
    | HVals(k: string)
    | HErase(k: string, f: string)
    | Keys
    | AuthR(k: string, level: string)
    | AuthW(k: string, level: string)
    | Expire(k: string, time: string)
    | Ttl(k: string)
    | Save
    | Read(password: string)
    | Unknown

  /** The dispatch table of execute, by name and number of tokens. */
  function Parse(args: seq<string>): Cmd {
    var n := |args|;
    if n == 0 then Unknown
    else if args[0] == "get" && n == 2 then Get(args[1])
    else if args[0] == "make" && n == 3 then Make(args[1], args[2], args[3..])
    else if args[0] == "make" && n == 4 then Make(args[1], args[2], args[3..])
    else if args[0] == "make" && n == 5 then Make(args[1], args[2], args[3..])
    else if args[0] == "del" && n == 2 then Del(args[1])
    else if args[0] == "lmake" && n >= 3 then LMake(args[1], args[2..])
    else if args[0] == "lpush" && n >= 3 then LPush(args[1], args[2..])
    else if args[0] == "rpush" && n >= 3 then RPush(args[1], args[2..])
    else if args[0] == "lpop" && n == 2 then LPop(args[1])
    else if args[0] == "rpop" && n == 2 then RPop(args[1])
    else if args[0] == "lget" && n == 3 then LGet(args[1], args[2])
    else if args[0] == "lset" && n == 4 then LSet(args[1], args[2], args[3])
    else if args[0] == "lerase" && n == 3 then LErase(args[1], args[2])
    else if args[0] == "smake" && n >= 3 then SMake(args[1], args[2..])
    else if args[0] == "spush" && n >= 3 then SPush(args[1], args[2..])
    else if args[0] == "spop" && n == 2 then SPop(args[1])
    else if args[0] == "serase" && n == 3 then SErase(args[1], args[2])
    else if args[0] == "sort" && n == 2 then Sort(args[1])
    else if args[0] == "hmake" && n >= 4 then HMake(args[1], args[2..])
    else if args[0] == "hpush" && n == 4 then HPush(args[1], args[2], args[3])
    else if args[0] == "hget" && n == 3 then HGet(args[1], args[2])
    else if args[0] == "hfields" && n == 2 then HFields(args[1])
    else if args[0] == "hvals" && n == 2 then HVals(args[1])
    else if args[0] == "herase" && n == 3 then HErase(args[1], args[2])
    else if args[0] == "xkeys" && n == 1 then Keys
    else if args[0] == "keys" && n == 1 then Keys
    else if args[0] == "authr" && n == 3 then AuthR(args[1], args[2])
    else if args[0] == "authw" && n == 3 then AuthW(args[1], args[2])
    else if args[0] == "expire" && n == 3 then Expire(args[1], args[2])
    else if args[0] == "ttl" && n == 2 then Ttl(args[1])
    else if args[0] == "save" && n == 1 then Save
    else if args[0] == "xsave" && n == 1 then Save
    else if args[0] == "read" && n == 2 then Read(args[1])
    else Unknown
  }

  /** The commands about one key. */
  predicate HasKey(c: Cmd) {
    !c.Keys? && !c.Save? && !c.Read? && !c.Unknown?
  }

  datatype ComType = Invalid | ReadType | WriteType

  /** The dispatch table of command_type, which decides what goes into the log. */
  function CommandType(args: seq<string>): ComType {
    var n := |args|;
    if n == 0 then Invalid
    else if args[0] == "get" && n == 2 then ReadType
    else if args[0] == "make" && n == 3 then WriteType
    else if args[0] == "make" && n == 4 then WriteType
    else if args[0] == "make" && n == 5 then WriteType
    else if args[0] == "del" && n == 2 then WriteType
    else if args[0] == "lmake" && n >= 3 then WriteType
    else if args[0] == "lpush" && n >= 3 then WriteType
    else if args[0] == "rpush" && n >= 3 then WriteType
    else if args[0] == "lpop" && n == 2 then WriteType
    else if args[0] == "rpop" && n == 2 then WriteType
    else if args[0] == "lget" && n == 3 then ReadType
    else if args[0] == "lset" && n == 4 then WriteType
    else if args[0] == "lerase" && n == 3 then WriteType
    else if args[0] == "smake" && n >= 3 then WriteType
    else if args[0] == "spush" && n >= 3 then WriteType
    else if args[0] == "spop" && n == 2 then WriteType
    else if args[0] == "serase" && n == 3 then WriteType
    else if args[0] == "sort" && n == 2 then ReadType
    else if args[0] == "hmake" && n >= 4 then WriteType
    else if args[0] == "hpush" && n == 4 then WriteType
    else if args[0] == "hget" && n == 3 then ReadType
    else if args[0] == "hfields" && n == 2 then ReadType
    else if args[0] == "hvals" && n == 2 then ReadType
    else if args[0] == "herase" && n == 3 then WriteType
    else if args[0] == "keys" && n == 1 then ReadType
    else if args[0] == "authr" && n == 3 then WriteType
    else if args[0] == "authw" && n == 3 then WriteType
    else if args[0] == "expire" && n == 3 then WriteType
    else if args[0] == "ttl" && n == 2 then ReadType
    else if args[0] == "save" && n == 1 then ReadType
    else if args[0] == "read" && n == 2 then WriteType
    else if args[0] == "exit" && n == 1 then ReadType
    else Invalid
  }

  // --------------------------------------------------------------- replies

  const OK: string := "OK!"
  const INVALID_COMMAND: string := "ERROR : INVALID COMMAND"
  const DENIED: string := "ERROR : NOT ENOUGH PERMISSION"
  const INVALID_AUTH: string := "ERROR : INVALID AUTH"
  const INVALID_TYPE: string := "ERROR : INVALID TYPE"
  const INVALID_INDEX: string := "ERROR : INVALID INDEX"
  const INVALID_TIME: string := "ERROR : INVALID TIME"
  const EMPTY_LIST: string := "ERROR : EMPTY LIST"
  const EMPTY_MAP: string := "ERROR : EMPTY HASHMAP"
  const NO_FILE: string := "ERROR : NO FILE"
  const READ_FAILED: string := "ERROR : FAIL TO READ FILE"
  /** Stands for the end of the process by an uncaught exception or a dangling value. */
  const ABORTED: string := "ABORTED"

  function NoSuchKey(k: string): string {
    "ERROR : NO SUCH KEY (" + k + ")"
  }

  function NoSuchField(f: string): string {
    "ERROR : NO SUCH FIELD (" + f + ")"
  }

  function NoSuchElement(x: string): string {
    "ERROR : NO SUCH ELEMENT (" + x + ")"
  }

  // ------------------------------------ commands on the value of a live entry

  /** The commands that look up a live entry, check its type and one authority, and then
      act on its value alone. */
  predicate OnValue(c: Cmd) {
    match c
    case Get(_) => true
    case LPush(_, _) => true
    case RPush(_, _) => true
    case LPop(_) => true
    case RPop(_) => true
    case LGet(_, _) => true
    case LSet(_, _, _) => true
    case LErase(_, _) => true
    case SPush(_, _) => true
    case SPop(_) => true
    case SErase(_, _) => true
    case Sort(_) => true
    case HPush(_, _, _) => true
    case HGet(_, _) => true
    case HFields(_) => true
    case HVals(_) => true
    case HErase(_, _) => true
    case _ => false
  }

  predicate KindFits(c: Cmd, kind: Kind)
    requires OnValue(c)
  {
    match c
    case Get(_) => true
    case Sort(_) => kind == ListKind || kind == SetKind
    case SPush(_, _) => kind == SetKind
    case SPop(_) => kind == SetKind
    case SErase(_, _) => kind == SetKind
    case HPush(_, _, _) => kind == MapKind
    case HGet(_, _) => kind == MapKind
    case HFields(_) => kind == MapKind
    case HVals(_) => kind == MapKind
    case HErase(_, _) => kind == MapKind
    case _ => kind == ListKind
  }

  /** Checked against the write authority; the others are checked against the read one. */
  predicate Modifies(c: Cmd)
    requires OnValue(c)
  {
    match c
    case Get(_) => false
    case LGet(_, _) => false
    case Sort(_) => false
    case HGet(_, _) => false
    case HFields(_) => false
    case HVals(_) => false
    case _ => true
  }

  function SortedText(text: string): string {
    Join(Sorted(SplitOf(text, ',')), ',')
  }

  /** The reply and the new value once type and authority are checked. */
  function Effect(c: Cmd, d: Data): (string, Data)
    requires OnValue(c) && KindFits(c, KindOf(d))
  {
    match c
    case Get(_) => (Decode(d), d)
    case LPush(_, xs) => (OK, Lst(Reverse(xs) + d.items))
    case RPush(_, xs) => (OK, Lst(d.items + xs))
    case LPop(_) =>
      if d.items == [] then (EMPTY_LIST, d) else (d.items[0], Lst(d.items[1..]))
    case RPop(_) =>
      if d.items == [] then (EMPTY_LIST, d)
      else (d.items[|d.items| - 1], Lst(d.items[..|d.items| - 1]))
    case LGet(_, index) =>
      if d.items == [] then (EMPTY_LIST, d)
      else if !IntOf(index).0 then (INVALID_INDEX, d)
      else (d.items[Position(IntOf(index).1, |d.items|)], d)
    case LSet(_, index, x) =>
      if d.items == [] then (EMPTY_LIST, d)
      else if !IntOf(index).0 then (INVALID_INDEX, d)
      else (OK, Lst(d.items[Position(IntOf(index).1, |d.items|) := x]))
    case LErase(_, index) =>
      if d.items == [] then (EMPTY_LIST, d)
      else if !IntOf(index).0 then (INVALID_INDEX, d)
      else (OK, Lst(Without(d.items, Position(IntOf(index).1, |d.items|))))
    case SPush(_, xs) => (OK, St(PushAll(d.buckets, xs)))
    case SPop(_) =>
      if Flat(d.buckets) == [] then (EMPTY_LIST, d)
      else (Popped(d.buckets).0, St(Popped(d.buckets).1))
    case SErase(_, x) =>
      if Flat(d.buckets) == [] then (EMPTY_LIST, d)
      else if Erased(d.buckets, x).0 then (OK, St(Erased(d.buckets, x).1))
      else (NoSuchElement(x), d)
    case Sort(_) =>
      (SortedText(if d.Lst? then Join(d.items, ',') else Join(Flat(d.buckets), ',')), d)
    case HPush(_, f, x) => (OK, Mp(Put(d.pairs, f, x)))
    case HGet(_, f) =>
      if d.pairs == [] then (EMPTY_MAP, d)
      else if ValueOf(d.pairs, f) == "NULL" then (NoSuchField(f), d)
      else (ValueOf(d.pairs, f), d)
    case HFields(_) =>
      if d.pairs == [] then (EMPTY_MAP, d) else (Join(FieldsOf(d.pairs), ','), d)
    case HVals(_) =>
      if d.pairs == [] then (EMPTY_MAP, d) else (Join(ValuesOf(d.pairs), ','), d)
    case HErase(_, f) =>
      if d.pairs == [] then (EMPTY_MAP, d)
      else if FieldAt(d.pairs, f) == |d.pairs| then (NoSuchField(f), d)
      else (OK, Mp(Cut(d.pairs, f)))
  }

  // ------------------------------------------------------------------ steps

  /** Looks a key up and drops its entry if that has expired. */
  function Live(st: Chains, k: string, now: int): (r: (Option<Entry>, Chains))
    requires |st| == TABLE_S
    ensures |r.1| == TABLE_S
  {
    match Lookup(st, k)
    case None => (None, st)
    case Some(e) => if IsExpired(e, now) then (None, Dropped(st, k)) else (Some(e), st)
  }

  function StepOnValue(st: Chains, c: Cmd, a: byte, now: int): (r: (string, Chains))
    requires |st| == TABLE_S && OnValue(c)
    ensures |r.1| == TABLE_S
  {
    match Live(st, c.k, now)
    case (None, st') => (NoSuchKey(c.k), st')
    case (Some(e), _) =>
      if !KindFits(c, KindOf(e.data)) then (INVALID_TYPE, st)
      else if a < (if Modifies(c) then e.authw else e.authr) then (DENIED, st)
      else
        var (reply, d) := Effect(c, e.data);
        (reply, if Modifies(c) then Replaced(st, c.k, e.(data := d)) else st)
  }

  /** The three creation commands and make's authority arguments; an existing entry is
      only checked for its write authority, not for expiry. */
  function StepMake(st: Chains, c: Cmd, a: byte): (r: (string, Chains))
    requires |st| == TABLE_S && c.Make? && |c.auths| <= 2
    ensures |r.1| == TABLE_S
  {
    var d := Str(c.v);
    if Lookup(st, c.k).Some? && a < Lookup(st, c.k).value.authw then (DENIED, st)
    else if |c.auths| == 0 then (OK, Assigned(st, c.k, d, 0, a))
    else
      var (ok1, x) := IntOf(c.auths[0]);
      if |c.auths| == 1 then
        if !ok1 || x < 0 then (INVALID_AUTH, st)
        else if a < x then (DENIED, st)
        else (OK, Assigned(st, c.k, d, x, a))
      else
        var (ok2, w) := IntOf(c.auths[1]);
        if !ok1 || x < 0 || !ok2 || w < 0 then (INVALID_AUTH, st)
        else if a < x || a < w then (DENIED, st)
        else if x > w then (INVALID_AUTH, st)
        else (OK, Assigned(st, c.k, d, x, w))
  }

  function StepContainer(st: Chains, k: string, d: Data, reply: string, a: byte): (r: (string, Chains))
    requires |st| == TABLE_S
    ensures |r.1| == TABLE_S
  {
    if Lookup(st, k).Some? && a < Lookup(st, k).value.authw then (DENIED, st)
    else (reply, Assigned(st, k, d, 0, a))
  }

  function StepDel(st: Chains, k: string, a: byte): (r: (string, Chains))
    requires |st| == TABLE_S
    ensures |r.1| == TABLE_S
  {
    if Lookup(st, k).None? then (NoSuchKey(k), st)
    else if a < Lookup(st, k).value.authw then (DENIED, st)
    else (OK, Dropped(st, k))
  }

  function StepAuth(st: Chains, k: string, level: string, a: byte, isRead: bool): (r: (string, Chains))
    requires |st| == TABLE_S
    ensures |r.1| == TABLE_S
  {
    match Lookup(st, k)
    case None => (NoSuchKey(k), st)
    case Some(e) =>
      var (ok, x) := IntOf(level);
      if !ok || x < 0 then (INVALID_AUTH, st)
      else if a < x || a < e.authw then (DENIED, st)
      else (OK, Replaced(st, k, if isRead then WithAuthr(e, x) else WithAuthw(e, x)))
  }

  function StepExpire(st: Chains, k: string, time: string, a: byte, now: int): (r: (string, Chains))
    requires |st| == TABLE_S
    ensures |r.1| == TABLE_S
  {
    if !IntOf(time).0 then (INVALID_TIME, st) else
    match Live(st, k, now)
    case (None, st') => (NoSuchKey(k), st')
    case (Some(e), _) =>
      if a < e.authw then (DENIED, st)
      else (OK, Replaced(st, k, WithTtl(e, IntOf(time).1, now)))
  }

  function StepTtl(st: Chains, k: string, a: byte, now: int): (r: (string, Chains))
    requires |st| == TABLE_S
    ensures |r.1| == TABLE_S
  {
    match Live(st, k, now)
    case (None, st') => (NoSuchKey(k), st')
    case (Some(e), _) =>
      if a < e.authr then (DENIED, st)
      else (Decimal(GetTtl(e, now).0), Replaced(st, k, GetTtl(e, now).1))
  }

  /** The keys the caller may read, expired ones included. */
  function Visible(st: Chains, keys: seq<string>, a: byte): seq<string>
    requires |st| == TABLE_S
    decreases |keys|
  {
    if keys == [] then []
    else (if Lookup(st, keys[0]).Some? && a >= Lookup(st, keys[0]).value.authr then [keys[0]] else [])
         + Visible(st, keys[1..], a)
  }

  /** read: the snapshot file may be missing. */
  function StepRead(st: Chains, password: string, file: Option<seq<string>>): (r: (string, Chains))
    requires |st| == TABLE_S
    ensures |r.1| == TABLE_S
  {
    if file.None? || !IntOf(password).0 then (READ_FAILED, st) else
    var (outcome, st') := ReadLines(st, file.value, IntOf(password).1);
    match outcome
    case Finished(ok) => (if ok then OK else READ_FAILED, st')
    case ReadThrew => (ABORTED, st')
    case ReadDangling => (ABORTED, st')
  }

  /** The commands that build a container from their arguments. */
  predicate Builds(c: Cmd) {
    c.LMake? || c.SMake? || c.HMake?
  }

  /** The argument texts are joined by commas and split at commas again. */
  function StepBuild(st: Chains, c: Cmd, a: byte): (r: (string, Chains))
    requires |st| == TABLE_S && Builds(c)
    ensures |r.1| == TABLE_S
  {
    var text := Join(c.parts, ',');
    match c
    case LMake(k, parts) => StepContainer(st, k, Encode(text, ListKind), Decimal(|parts|), a)
    case SMake(k, parts) =>
      var d := Encode(text, SetKind);
      StepContainer(st, k, d, Decimal(|Flat(d.buckets)|), a)
    case HMake(k, parts) =>
      if |parts| % 2 != 0 then (INVALID_COMMAND, st)
      else StepContainer(st, k, Encode(text, MapKind), OK, a)
  }

  /** What a command needs from outside the table: the time, the snapshot file if there is
      one, and whether it can be opened for writing. */
  datatype Env = Env(now: int, file: Option<seq<string>>, writable: bool)

  function Step(st: Chains, c: Cmd, a: byte, env: Env): (r: (string, Chains))
    requires |st| == TABLE_S
    ensures |r.1| == TABLE_S
  {
    match c
    case Make(k, v, auths) => if |auths| <= 2 then StepMake(st, c, a) else (INVALID_COMMAND, st)
    case Del(k) => StepDel(st, k, a)
    case LMake(_, _) => StepBuild(st, c, a)
    case SMake(_, _) => StepBuild(st, c, a)
    case HMake(_, _) => StepBuild(st, c, a)
    case Keys => (Join(Visible(st, KeysOf(st), a), ','), st)
    case AuthR(k, level) => StepAuth(st, k, level, a, true)
    case AuthW(k, level) => StepAuth(st, k, level, a, false)
    case Expire(k, time) => StepExpire(st, k, time, a, env.now)
    case Ttl(k) => StepTtl(st, k, a, env.now)
    case Save => (if env.writable then OK else NO_FILE, st)
    case Read(password) => StepRead(st, password, env.file)
    case Unknown => (INVALID_COMMAND, st)
    case _ => StepOnValue(st, c, a, env.now)
  }

  // ----------------------------------------------------------------- execute

  /** The slots a node owns. */
  datatype Range = Range(start: int, end: int)

  predicate InRange(slot: int, r: Range) {
    r.start <= slot <= r.end
  }

  const MAGIC: string := [' ', 8 as char]

  /** The set-up commands are answered before anything else is looked at. */
  predicate IsSetup(name: string) {
    name == "client" || name == "give" || name == "clust" || name == "myinfo"
    || name == "replicanumber" || name == "replica" || name == "replicaaccept"
  }

  function Tokens(line: string): seq<string> {
    SplitOf(TrimOf(line), ' ')
  }

  /** Whether a command reaches the dispatch table; else the reply that turns it away. */
  function Screen(args: seq<string>, own: Range): Option<string> {
    if args == [] then Some(INVALID_COMMAND)
    else if IsSetup(args[0]) then Some(MAGIC + args[0])
    else if |args| > 1 && !InRange(SlotOf(args[1]), own) then Some("hashval " + Decimal(SlotOf(args[1])))
    else None
  }

  /** COMMAND::execute on one line. */
  function Execute(st: Chains, line: string, a: byte, env: Env, own: Range): (r: (string, Chains))
    requires |st| == TABLE_S
    ensures |r.1| == TABLE_S
  {
    var args := Tokens(line);
    match Screen(args, own)
    case Some(reply) => (reply, st)
    case None => Step(st, Parse(args), a, env)
  }
}
