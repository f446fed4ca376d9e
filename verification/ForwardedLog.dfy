/** What the log of a node makes of commands that other nodes have forwarded to it:
    scan_and_send of src/server_th.cpp classifies a line before it takes the forwarding
    tag off, so that the two tokens of the tag count as arguments. */
module ForwardedLog {
  import opened Hashing
  import opened Machine
  import opened MachineInts
  import opened OneHop
  import opened Replay
  import opened Routing
  import opened SlotRanges
  import opened Store
  import opened Text

  /** The two tokens a tag adds to a line. */
  function TagWords(auth: int): seq<string> {
    [[BACKSPACE], Decimal(auth)]
  }

  /** The tokens of a forwarded line. */
  lemma TagAddsTokens(com: string, auth: int)
    ensures Tokens(com + Tag(auth)) == Tokens(com) + TagWords(auth)
  {
    hide Words, TrimOf, Decimal;
    var tag := [BACKSPACE] + (" " + Decimal(auth));
    assert com + Tag(auth) == com + (" " + tag);
    WordsConcat(com, tag);
    WordsConcat([BACKSPACE], Decimal(auth));
    OneWord([BACKSPACE]);
    DecimalIsWord(auth);
    OneWord(Decimal(auth));
    TokensAreWords(com);
    TokensAreWords(com + Tag(auth));
  }

  /** The writes whose argument number is open-ended, and make without authorities, which
      takes up to two more arguments. */
  predicate StillLogged(c: Cmd) {
    || (c.Make? && c.auths == [])
    || c.LMake? || c.LPush? || c.RPush? || c.SMake? || c.SPush? || c.HMake?
  }

  lemma StillLoggedIsWrite(args: seq<string>, more: seq<string>)
    requires |more| == |args| + 2 && (args != [] ==> more[0] == args[0]) && StillLogged(Parse(args))
    ensures CommandType(more) == WriteType
  {
  }

  lemma OtherWritesAreNot(args: seq<string>, more: seq<string>)
    requires |more| == |args| + 2 && (args != [] ==> more[0] == args[0])
    requires Logs(Parse(args)) && !StillLogged(Parse(args))
    ensures CommandType(more) != WriteType
  {
  }

  lemma ReadsAreNot(args: seq<string>, more: seq<string>)
    requires |more| == |args| + 2 && (args != [] ==> more[0] == args[0])
    requires !Logs(Parse(args)) && !Parse(args).Unknown?
    ensures CommandType(more) != WriteType
  {
  }

  lemma TwoMoreArguments(args: seq<string>, tag: seq<string>)
    requires |tag| == 2 && !Parse(args).Unknown?
    ensures CommandType(args + tag) == WriteType <==> StillLogged(Parse(args))
  {
    hide Parse, CommandType, StillLogged, Logs;
    if StillLogged(Parse(args)) {
      StillLoggedIsWrite(args, args + tag);
    } else if Logs(Parse(args)) {
      OtherWritesAreNot(args, args + tag);
    } else {
      ReadsAreNot(args, args + tag);
    }
  }

  /** A forwarded command is logged by its owner exactly when it is one of these; the
      others of the log's own class are not, although the owner executes them. */
  lemma ForwardedIsLogged(com: string, auth: int)
    requires !Parse(Tokens(com)).Unknown?
    ensures CommandType(Tokens(com + Tag(auth))) == WriteType <==> StillLogged(Parse(Tokens(com)))
  {
    hide Parse, CommandType, Tokens, Tag, StillLogged;
    TagAddsTokens(com, auth);
    TwoMoreArguments(Tokens(com), TagWords(auth));
  }

  /** So the log of the owner misses forwarded changes: a forwarded del of any key removes
      the entry from the owner's table, and its line is none the log takes. */
  lemma ForwardedDelIsLost(st: Chains, v: View, k: string, auth: byte, other: int, env: Env)
    requires |st| == TABLE_S && AreWords([k]) && BACKSPACE !in k && InRange(SlotOf(k), v.own)
    requires Lookup(st, k).Some? && Lookup(st, k).value.authw <= auth
    ensures var message := Join(["del", k], ' ') + Tag(auth);
            && CommandType(Tokens(message)) != WriteType
            && ScanOf(st, v, message, other, env).1 == Dropped(st, k) != st
  {
    hide SlotOf, Lookup, Dropped, Tokens, Tag, Untagged, Join, IsSetup, Parse, CommandType, Routed, Decimal;
    var com := Join(["del", k], ' ');
    DelLine(k);
    TagComesOff(com, auth, other);
    ForwardedIsLogged(com, auth);
    DroppedDiffers(st, k);
  }

  lemma DelLine(k: string)
    requires AreWords([k]) && BACKSPACE !in k
    ensures var com := Join(["del", k], ' ');
            BACKSPACE !in com && Tokens(com) == ["del", k] && Parse(["del", k]) == Del(k) && !IsSetup("del")
  {
    hide Parse;
    assert AreWords(["del", k]) by { assert [k][0] == k; }
    LineOfWords(["del", k]);
    assert Join(["del", k], ' ') == "del" + " " + k by {
      JoinNext(["del", k], 1, ' ');
      JoinEnds(["del", k], ' ');
    }
    ParseDel(k);
  }

  lemma ParseDel(k: string)
    ensures Parse(["del", k]) == Del(k)
  {
  }
}
