/** The command language: how each command is written, as an independent reference for the
    dispatch table of src/command.h. */
module CommandNames {
  import opened Entries
  import opened Machine
  import opened Commands
  import opened Hashing
  import opened MachineInts
  import opened Routing
  import opened Store
  import opened Text

  /** The words of a command. */
  function Written(c: Cmd): seq<string> {
    match c
    case Get(k) => ["get", k]
    case Make(k, v, auths) => ["make", k, v] + auths
    case Del(k) => ["del", k]
    case LMake(k, parts) => ["lmake", k] + parts
    case LPush(k, xs) => ["lpush", k] + xs
    case RPush(k, xs) => ["rpush", k] + xs
    case LPop(k) => ["lpop", k]
    case RPop(k) => ["rpop", k]
    case LGet(k, index) => ["lget", k, index]
    case LSet(k, index, x) => ["lset", k, index, x]
    case LErase(k, index) => ["lerase", k, index]
    case SMake(k, parts) => ["smake", k] + parts
    case SPush(k, xs) => ["spush", k] + xs
    case SPop(k) => ["spop", k]
    case SErase(k, x) => ["serase", k, x]
    case Sort(k) => ["sort", k]
    case HMake(k, parts) => ["hmake", k] + parts
    case HPush(k, f, x) => ["hpush", k, f, x]
    case HGet(k, f) => ["hget", k, f]
    case HFields(k) => ["hfields", k]
    case HVals(k) => ["hvals", k]
    case HErase(k, f) => ["herase", k, f]
    case Keys => ["keys"]
    case AuthR(k, level) => ["authr", k, level]
    case AuthW(k, level) => ["authw", k, level]
    case Expire(k, time) => ["expire", k, time]
    case Ttl(k) => ["ttl", k]
    case Save => ["save"]
    case Read(password) => ["read", password]
    case Unknown => []
  }

  /** The numbers of arguments the open-ended commands take. */
  predicate Complete(c: Cmd) {
    match c
    case Make(_, _, auths) => |auths| <= 2
    case LMake(_, parts) => |parts| >= 1
    case LPush(_, xs) => |xs| >= 1
    case RPush(_, xs) => |xs| >= 1
    case SMake(_, parts) => |parts| >= 1
    case SPush(_, xs) => |xs| >= 1
    case HMake(_, parts) => |parts| >= 2
    case _ => true
  }

  /** The words behind the first few. */
  lemma RestOf(name: string, k: string, rest: seq<string>)
    ensures var args := [name, k] + rest; args[0] == name && args[1] == k && args[2..] == rest
  {
  }

  lemma WrittenMake(c: Cmd)
    requires c.Make? && Complete(c)
    ensures Parse(Written(c)) == c
  {
    var args := ["make", c.k, c.v] + c.auths;
    assert args[0] == "make" && args[1] == c.k && args[2] == c.v && args[3..] == c.auths;
  }

  lemma WrittenBuilds(c: Cmd)
    requires Builds(c) && Complete(c)
    ensures Parse(Written(c)) == c
  {
    RestOf(Written(c)[0], c.k, c.parts);
  }

  lemma WrittenPushes(c: Cmd)
    requires (c.LPush? || c.RPush? || c.SPush?) && Complete(c)
    ensures Parse(Written(c)) == c
  {
    RestOf(Written(c)[0], c.k, c.xs);
  }

  lemma WrittenMarks(c: Cmd)
    requires c.AuthR? || c.AuthW?
    ensures Parse(Written(c)) == c
  {
  }

  lemma WrittenExpire(c: Cmd)
    requires c.Expire?
    ensures Parse(Written(c)) == c
  {
  }

  lemma WrittenEntries(c: Cmd)
    requires c.Del? || c.Ttl?
    ensures Parse(Written(c)) == c
  {
  }

  lemma WrittenReaders(c: Cmd)
    requires OnValue(c) && !Modifies(c) && Complete(c)
    ensures Parse(Written(c)) == c
  {
  }

  lemma WrittenModifiers(c: Cmd)
    requires c.HPush? || c.HErase?
    ensures Parse(Written(c)) == c
  {
  }

  lemma WrittenSets(c: Cmd)
    requires c.SPop? || c.SErase?
    ensures Parse(Written(c)) == c
  {
  }

  lemma WrittenLists(c: Cmd)
    requires c.LPop? || c.RPop? || c.LSet? || c.LErase?
    ensures Parse(Written(c)) == c
  {
  }

  lemma WrittenOthers(c: Cmd)
    requires !HasKey(c)
    ensures Parse(Written(c)) == c
  {
  }

  /** Every complete command is parsed from its words. */
  lemma WrittenParses(c: Cmd)
    requires Complete(c)
    ensures Parse(Written(c)) == c
  {
    hide Parse, Written, Complete;
    if c.Make? {
      WrittenMake(c);
    } else if Builds(c) {
      WrittenBuilds(c);
    } else if c.LPush? || c.RPush? || c.SPush? {
      WrittenPushes(c);
    } else if c.Del? || c.Ttl? {
      WrittenEntries(c);
    } else if c.Expire? {
      WrittenExpire(c);
    } else if OnEntry(c) {
      WrittenMarks(c);
    } else if !HasKey(c) {
      WrittenOthers(c);
    } else if Modifies(c) {
      if KindFits(c, ListKind) {
        WrittenLists(c);
      } else if KindFits(c, SetKind) {
        WrittenSets(c);
      } else {
        WrittenModifiers(c);
      }
    } else {
      WrittenReaders(c);
    }
  }

  lemma ParsedEntries(args: seq<string>)
    requires OnEntry(Parse(args))
    ensures Complete(Parse(args)) && Written(Parse(args)) == args
  {
  }

  lemma ParsedReaders(args: seq<string>)
    requires var c := Parse(args); OnValue(c) && !Modifies(c)
    ensures Written(Parse(args)) == args
  {
  }

  lemma ParsedLists(args: seq<string>)
    requires var c := Parse(args); OnValue(c) && Modifies(c) && KindFits(c, ListKind)
    ensures Complete(Parse(args)) && Written(Parse(args)) == args
  {
  }

  lemma ParsedModifiers(args: seq<string>)
    requires var c := Parse(args); OnValue(c) && Modifies(c) && !KindFits(c, ListKind)
    ensures Complete(Parse(args)) && Written(Parse(args)) == args
  {
  }

  lemma ParsedKeys(args: seq<string>)
    requires Parse(args).Keys?
    ensures args == ["keys"] || args == ["xkeys"]
  {
  }

  lemma ParsedSave(args: seq<string>)
    requires Parse(args).Save?
    ensures args == ["save"] || args == ["xsave"]
  {
  }

  lemma ParsedRead(args: seq<string>)
    requires Parse(args).Read?
    ensures args == ["read", Parse(args).password]
  {
  }

  lemma ParsedOthers(args: seq<string>)
    requires var c := Parse(args); !HasKey(c) && !c.Unknown?
    ensures var c := Parse(args);
            Written(c) == args || (c.Keys? && args == ["xkeys"]) || (c.Save? && args == ["xsave"])
  {
    hide Parse;
    match Parse(args)
    case Keys => ParsedKeys(args);
    case Save => ParsedSave(args);
    case Read(_) => ParsedRead(args);
  }

  /** Whatever is parsed as a command is the words of that command; xkeys and xsave are
      other names for keys and save. */
  lemma ParsedIsWritten(args: seq<string>)
    requires !Parse(args).Unknown?
    ensures var c := Parse(args);
            Complete(c) && (Written(c) == args || (c.Keys? && args == ["xkeys"]) || (c.Save? && args == ["xsave"]))
  {
    hide Parse, Written;
    var c := Parse(args);
    if OnEntry(c) {
      ParsedEntries(args);
    } else if !HasKey(c) {
      ParsedOthers(args);
    } else if Modifies(c) {
      if KindFits(c, ListKind) {
        ParsedLists(args);
      } else {
        ParsedModifiers(args);
      }
    } else {
      ParsedReaders(args);
    }
  }

  lemma OtherNames()
    ensures Parse(["xkeys"]) == Keys && Parse(["xsave"]) == Save
  {
  }

  /** The word by which a line with more than one word is screened. */
  ghost predicate Admitted(ws: seq<string>, own: Range) {
    |ws| > 1 ==> InRange(SlotOf(ws[1]), own)
  }

  lemma ReplicaIsUnknown(args: seq<string>)
    requires args != [] && (args[0] == "replica" || args[0] == "replicanumber" || args[0] == "replicaaccept")
    ensures Parse(args).Unknown?
  {
  }

  lemma ClusterIsUnknown(args: seq<string>)
    requires args != [] && (args[0] == "clust" || args[0] == "myinfo")
    ensures Parse(args).Unknown?
  {
  }

  lemma ClientIsUnknown(args: seq<string>)
    requires args != [] && (args[0] == "client" || args[0] == "give")
    ensures Parse(args).Unknown?
  {
  }

  /** No set-up verb is a command. */
  lemma SetupIsUnknown(args: seq<string>)
    requires args != [] && IsSetup(args[0])
    ensures Parse(args).Unknown?
  {
    hide Parse;
    if args[0] == "client" || args[0] == "give" {
      ClientIsUnknown(args);
    } else if args[0] == "clust" || args[0] == "myinfo" {
      ClusterIsUnknown(args);
    } else {
      ReplicaIsUnknown(args);
    }
  }

  lemma WrittenName(c: Cmd)
    requires !c.Unknown? && Complete(c)
    ensures Written(c) != [] && !IsSetup(Written(c)[0])
  {
    hide Parse, IsSetup, Complete;
    WrittenParses(c);
    if IsSetup(Written(c)[0]) {
      SetupIsUnknown(Written(c));
    }
  }

  /** A command typed as a line runs as that command on the node that owns the slot of its
      second word, and is turned away with that slot on any other. */
  lemma LineRuns(st: Chains, c: Cmd, a: byte, env: Env, own: Range)
    requires |st| == TABLE_S && !c.Unknown? && Complete(c) && AreWords(Written(c))
    ensures Machine.Execute(st, Join(Written(c), ' '), a, env, own) ==
            if Admitted(Written(c), own) then Step(st, c, a, env)
            else ("hashval " + Decimal(SlotOf(Written(c)[1])), st)
  {
    hide Parse, Written, Complete, Step, SlotOf, IsSetup, Join, Decimal, AreWords;
    WrittenParses(c);
    WrittenName(c);
    LineOfWords(Written(c));
  }

  /** The verbs of set-up messages. */
  const VERBS: seq<string> := ["client", "give", "clust", "myinfo", "replicanumber", "replica", "replicaaccept"]

  lemma VerbsAreSetup(verb: string)
    ensures verb in VERBS <==> IsSetup(verb)
  {
    assert VERBS[0] == "client" && VERBS[1] == "give" && VERBS[2] == "clust" && VERBS[3] == "myinfo";
    assert VERBS[4] == "replicanumber" && VERBS[5] == "replica" && VERBS[6] == "replicaaccept";
  }

  /** A line that begins with one of them is answered with the verb behind a blank and a
      backspace, whatever follows, and changes nothing; the empty line is refused. */
  lemma SetupRuns(st: Chains, line: string, a: byte, env: Env, own: Range)
    requires |st| == TABLE_S
    ensures var ws := Words(line);
            var r := Machine.Execute(st, line, a, env, own);
            && (ws == [] ==> r == (INVALID_COMMAND, st))
            && (ws != [] && ws[0] in VERBS ==> r == ([' ', 8 as char] + ws[0], st))
  {
    hide Words, TrimOf, Step, Parse, IsSetup, SlotOf, Decimal;
    TokensAreWords(line);
    if Words(line) != [] {
      VerbsAreSetup(Words(line)[0]);
    }
  }

  /** The wording of the replies that the laws name. */
  lemma ReplyTexts(w: string)
    ensures OK == "OK!" && DENIED == "ERROR : NOT ENOUGH PERMISSION" && INVALID_COMMAND == "ERROR : INVALID COMMAND"
    ensures INVALID_AUTH == "ERROR : INVALID AUTH" && INVALID_TYPE == "ERROR : INVALID TYPE"
    ensures INVALID_INDEX == "ERROR : INVALID INDEX" && INVALID_TIME == "ERROR : INVALID TIME"
    ensures EMPTY_LIST == "ERROR : EMPTY LIST" && EMPTY_MAP == "ERROR : EMPTY HASHMAP"
    ensures NO_FILE == "ERROR : NO FILE" && READ_FAILED == "ERROR : FAIL TO READ FILE"
    ensures NoSuchKey(w) == "ERROR : NO SUCH KEY (" + (w + ")")
    ensures NoSuchField(w) == "ERROR : NO SUCH FIELD (" + (w + ")")
    ensures NoSuchElement(w) == "ERROR : NO SUCH ELEMENT (" + (w + ")")
    ensures REDIRECT == "hashval" && BACKSPACE as int == 8
  {
  }
}
