/** The text helpers of src/kvstore.cpp. Strings are sequences of characters; the cipher
    modules restrict themselves to characters below 256 where bytes matter. */
module Text {
  import opened MachineInts
  import opened Sequences

  // ------------------------------------------------------- split and merge

  /** The first position of c in s, or |s|. */
  function IndexOf(s: string, c: char): (i: nat)
    ensures i <= |s| && (i < |s| ==> s[i] == c)
    ensures forall k :: 0 <= k < i ==> s[k] != c
  {
    if s == "" || s[0] == c then 0 else IndexOf(s[1..], c) + 1
  }

  /** The pieces between the separators; always at least one. */
  function Pieces(s: string, c: char): (ps: seq<string>)
    ensures |ps| >= 1
    decreases |s|
  {
    var i := IndexOf(s, c);
    if i == |s| then [s] else [s[..i]] + Pieces(s[i + 1..], c)
  }

  /** What split delivers: nothing at all for the empty string. */
  function SplitOf(s: string, c: char): seq<string> {
    if s == "" then [] else Pieces(s, c)
  }

  /** What merge delivers. */
  function Join(ps: seq<string>, c: char): string {
    if ps == [] then "" else if |ps| == 1 then ps[0] else ps[0] + [c] + Join(ps[1..], c)
  }

  ghost predicate SeparatorFree(ps: seq<string>, c: char) {
    forall i :: 0 <= i < |ps| ==> c !in ps[i]
  }

  function Count(s: string, c: char): nat {
    if s == "" then 0 else (if s[0] == c then 1 else 0) + Count(s[1..], c)
  }

  lemma {:induction false} CountAtIndex(s: string, c: char)
    ensures var i := IndexOf(s, c);
            Count(s, c) == if i == |s| then 0 else 1 + Count(s[i + 1..], c)
  {
    if s != "" && s[0] != c {
      CountAtIndex(s[1..], c);
      var i := IndexOf(s[1..], c);
      if i < |s[1..]| {
        assert s[1..][i + 1..] == s[i + 2..];
      }
    }
  }

  lemma {:induction false} PiecesCount(s: string, c: char)
    ensures |Pieces(s, c)| == Count(s, c) + 1
    decreases |s|
  {
    CountAtIndex(s, c);
    var i := IndexOf(s, c);
    if i < |s| {
      PiecesCount(s[i + 1..], c);
    }
  }

  method CountSeparators(input: string, token: char) returns (n: nat)
    ensures n == Count(input, token)
  {
    n := 0;
    for i := 0 to |input|
      invariant n + Count(input[i..], token) == Count(input, token)
    {
      assert input[i..][1..] == input[i + 1..];
      if input[i] == token {
        n := n + 1;
      }
    }
  }

  lemma PiecesAt(s: string, c: char)
    ensures var i := IndexOf(s, c);
            Pieces(s, c) == if i == |s| then [s] else [s[..i]] + Pieces(s[i + 1..], c)
  {
  }

  /** What is still to be filled in from an index on are the pieces of the rest. */
  ghost predicate Remaining(whole: seq<string>, index: nat, rest: string, c: char) {
    index <= |whole| && whole[index..] == Pieces(rest, c)
  }

  /** The piece in front of the next separator, or the last one. */
  lemma NextPiece(whole: seq<string>, index: nat, rest: string, c: char)
    requires Remaining(whole, index, rest, c)
    ensures index < |whole|
    ensures var i := IndexOf(rest, c);
            if i == |rest| then index + 1 == |whole| && whole[index] == rest
            else whole[index] == rest[..i] && Remaining(whole, index + 1, rest[i + 1..], c)
  {
    hide Pieces, IndexOf;
    var i := IndexOf(rest, c);
    PiecesAt(rest, c);
    if i == |rest| {
      assert [rest] == [rest] + [];
      TailCons(whole, index, rest, []);
    } else {
      TailCons(whole, index, rest[..i], Pieces(rest[i + 1..], c));
    }
  }

  /** The loop that cuts off one piece after the other; the array is sized just so. */
  method FillPieces(input: string, token: char, splited: array<string>)
    requires splited.Length == |Pieces(input, token)|
    modifies splited
    ensures splited[..] == Pieces(input, token)
  {
    ghost var whole := Pieces(input, token);
    assert Remaining(whole, 0, input, token);
    hide *;
    var str, index := input, 0;
    var pos := IndexOf(str, token);
    while pos != |str|
      invariant pos == IndexOf(str, token) && 0 <= index
      invariant Remaining(whole, index, str, token)
      invariant forall k :: 0 <= k < index < |whole| ==> splited[k] == whole[k]
      decreases |str|
    {
      NextPiece(whole, index, str, token);
      splited[index] := str[..pos];
      index := index + 1;
      str := str[pos + 1..];
      pos := IndexOf(str, token);
    }
    NextPiece(whole, index, str, token);
    splited[index] := str;
  }

  /** Splits into an array that is sized by counting separators first; the count is
      exactly the number of pieces, so the filling loop stays inside the array. */
  method Split(input: string, token: char) returns (splited: array<string>)
    ensures fresh(splited) && splited[..] == SplitOf(input, token)
  {
    if input == "" {
      splited := new string[0];
      return;
    }
    var len := CountSeparators(input, token);
    len := len + 1;
    PiecesCount(input, token);
    splited := new string[len];
    FillPieces(input, token, splited);
  }

  lemma {:induction false} JoinSnoc(ps: seq<string>, p: string, c: char)
    requires ps != []
    ensures Join(ps + [p], c) == Join(ps, c) + [c] + p
  {
    if |ps| == 1 {
      assert (ps + [p])[1..] == [p];
    } else {
      assert (ps + [p])[1..] == ps[1..] + [p];
      JoinSnoc(ps[1..], p, c);
    }
  }

  /** One more piece of a sequence. */
  lemma JoinNext(ps: seq<string>, i: nat, c: char)
    requires 0 < i < |ps|
    ensures Join(ps[..i + 1], c) == Join(ps[..i], c) + ([c] + ps[i])
  {
    hide Join;
    JoinSnoc(ps[..i], ps[i], c);
    assert ps[..i + 1] == ps[..i] + [ps[i]];
    Assoc(Join(ps[..i], c), [c], ps[i]);
  }

  lemma JoinEnds(ps: seq<string>, c: char)
    ensures Join(ps[..0], c) == "" && Join(ps[..|ps|], c) == Join(ps, c)
    ensures ps != [] ==> Join(ps[..1], c) == ps[0]
  {
    assert ps[..|ps|] == ps;
    if ps != [] {
      assert ps[..1] == [ps[0]];
    }
  }

  method Merge(token: char, splited: seq<string>) returns (str: string)
    ensures str == Join(splited, token)
  {
    JoinEnds(splited, token);
    if |splited| == 0 {
      str := "";
    } else {
      str := splited[0];
      for i := 1 to |splited|
        invariant str == Join(splited[..i], token)
      {
        JoinNext(splited, i, token);
        str := str + ([token] + splited[i]);
      }
    }
  }

  lemma {:induction false} PiecesFree(s: string, c: char)
    ensures SeparatorFree(Pieces(s, c), c)
    decreases |s|
  {
    var i := IndexOf(s, c);
    if i == |s| {
      assert s[..i] == s;
    } else {
      PiecesFree(s[i + 1..], c);
    }
  }

  lemma {:induction false} JoinPieces(s: string, c: char)
    ensures Join(Pieces(s, c), c) == s
    decreases |s|
  {
    var i := IndexOf(s, c);
    if i < |s| {
      JoinPieces(s[i + 1..], c);
      AroundAt(s, i);
    }
  }

  /** merge undoes split, for every string and separator. */
  lemma MergeUndoesSplit(s: string, c: char)
    ensures Join(SplitOf(s, c), c) == s
  {
    if s != "" {
      JoinPieces(s, c);
    }
  }

  lemma IndexOfFirst(p: string, rest: string, c: char)
    requires c !in p && (rest == "" || rest[0] == c)
    ensures IndexOf(p + rest, c) == |p|
  {
    var s := p + rest;
    assert forall k :: 0 <= k < |p| ==> s[k] == p[k];
    assert rest != "" ==> s[|p|] == c;
  }

  lemma PiecesFirst(p: string, rest: string, c: char)
    requires c !in p
    ensures Pieces(p + [c] + rest, c) == [p] + Pieces(rest, c)
  {
    var s := p + [c] + rest;
    assert s == p + ([c] + rest);
    IndexOfFirst(p, [c] + rest, c);
    assert s[..|p|] == p && s[|p| + 1..] == rest;
  }

  lemma {:induction false} PiecesJoin(ps: seq<string>, c: char)
    requires ps != [] && SeparatorFree(ps, c)
    ensures Pieces(Join(ps, c), c) == ps
  {
    if |ps| == 1 {
      IndexOfFirst(ps[0], "", c);
      assert ps[0] + "" == ps[0];
    } else {
      PiecesFirst(ps[0], Join(ps[1..], c), c);
      PiecesJoin(ps[1..], c);
    }
  }

  /** split undoes merge exactly for the lists of separator-free strings other than
      the list of one empty string. */
  lemma SplitUndoesMerge(ps: seq<string>, c: char)
    ensures SplitOf(Join(ps, c), c) == ps <==> SeparatorFree(ps, c) && ps != [""]
  {
    var s := Join(ps, c);
    if SeparatorFree(ps, c) && ps != [""] && ps != [] {
      PiecesJoin(ps, c);
      assert s != "";
    }
    if SplitOf(s, c) == ps && s != "" {
      PiecesFree(s, c);
      JoinPieces(s, c);
    }
  }

  // ------------------------------------------------------ trim and tokens

  /** The maximal space-free runs of s, in order. */
  function Words(s: string): seq<string>
    decreases |s|
  {
    if s == "" then [] else
    if s[0] == ' ' then Words(s[1..]) else
      var i := IndexOf(s, ' ');
      [s[..i]] + Words(s[i..])
  }

  function TrimOf(s: string): string {
    Join(Words(s), ' ')
  }

  ghost predicate IsWordSpan(s: string, a: nat, b: nat) {
    && a < b <= |s|
    && (forall k :: a <= k < b ==> s[k] != ' ')
    && (a == 0 || s[a - 1] == ' ')
    && (b == |s| || s[b] == ' ')
  }

  function RunEnd(s: string, k: nat): (e: nat)
    requires k <= |s|
    ensures k <= e <= |s| && (e == |s| || s[e] == ' ')
    ensures forall j :: k <= j < e ==> s[j] != ' '
    decreases |s| - k
  {
    if k == |s| || s[k] == ' ' then k else RunEnd(s, k + 1)
  }

  /** The boundaries of the runs of s from position k on, in reading order. */
  function Spans(s: string, k: nat): seq<(nat, nat)>
    requires k <= |s|
    decreases |s| - k
  {
    if k == |s| then [] else
    if s[k] == ' ' then Spans(s, k + 1) else [(k, RunEnd(s, k))] + Spans(s, RunEnd(s, k))
  }

  /** These are the maximal runs from k on, none missing, from left to right without
      touching. */
  ghost predicate RunsFrom(s: string, k: nat, spans: seq<(nat, nat)>) {
    && (forall i :: 0 <= i < |spans| ==> k <= spans[i].0 && IsWordSpan(s, spans[i].0, spans[i].1))
    && (forall i, j :: 0 <= i < j < |spans| ==> spans[i].1 < spans[j].0)
    && (forall a: nat, b: nat :: k <= a && IsWordSpan(s, a, b) ==> (a, b) in spans)
  }

  lemma RunsCons(s: string, k: nat, e: nat, rest: seq<(nat, nat)>)
    requires IsWordSpan(s, k, e) && RunsFrom(s, e, rest)
    ensures RunsFrom(s, k, [(k, e)] + rest)
  {
    var spans := [(k, e)] + rest;
    forall i | 0 <= i < |rest|
      ensures e < rest[i].0
    {
      assert s[rest[i].0] != ' ';
    }
    forall a: nat, b: nat | k <= a && IsWordSpan(s, a, b)
      ensures (a, b) in spans
    {
      if a < e {
        SameSpan(s, k, e, a, b);
        assert spans[0] == (a, b);
      } else {
        assert (a, b) in rest;
      }
    }
  }

  /** Two maximal runs that overlap are the same. */
  lemma SameSpan(s: string, k: nat, e: nat, a: nat, b: nat)
    requires IsWordSpan(s, k, e) && IsWordSpan(s, a, b) && k <= a < e
    ensures a == k && b == e
  {
  }

  lemma RunsSkip(s: string, k: nat, rest: seq<(nat, nat)>)
    requires k < |s| && s[k] == ' ' && RunsFrom(s, k + 1, rest)
    ensures RunsFrom(s, k, rest)
  {
  }

  /** From a boundary on, Spans lists exactly these. */
  lemma {:induction false} SpansAreRuns(s: string, k: nat)
    requires k <= |s| && (k == 0 || k == |s| || s[k] == ' ' || s[k - 1] == ' ')
    ensures RunsFrom(s, k, Spans(s, k))
    decreases |s| - k
  {
    if k < |s| {
      hide RunsFrom, RunEnd;
      if s[k] == ' ' {
        SpansAreRuns(s, k + 1);
        RunsSkip(s, k, Spans(s, k + 1));
      } else {
        var e := RunEnd(s, k);
        SpansAreRuns(s, e);
        RunsCons(s, k, e, Spans(s, e));
      }
    }
  }

  lemma WordsPrefix(p: string, q: string)
    requires p != "" && ' ' !in p && (q == "" || q[0] == ' ')
    ensures Words(p + q) == [p] + Words(q)
  {
    IndexOfFirst(p, q, ' ');
    assert (p + q)[0] == p[0] && p[0] in p;
    assert (p + q)[..|p|] == p && (p + q)[|p|..] == q;
  }

  lemma WordsSpace(q: string)
    ensures Words(" " + q) == Words(q)
  {
    assert (" " + q)[1..] == q;
  }

  /** The spans mark these words in s. */
  ghost predicate Marks(s: string, spans: seq<(nat, nat)>, words: seq<string>) {
    && |spans| == |words|
    && forall i :: 0 <= i < |spans| ==>
         spans[i].0 <= spans[i].1 <= |s| && s[spans[i].0..spans[i].1] == words[i]
  }

  lemma MarksCons(s: string, a: nat, b: nat, spans: seq<(nat, nat)>, words: seq<string>)
    requires a <= b <= |s| && Marks(s, spans, words)
    ensures Marks(s, [(a, b)] + spans, [s[a..b]] + words)
  {
  }

  lemma {:induction false} SpansGiveWords(s: string, k: nat)
    requires k <= |s|
    ensures Marks(s, Spans(s, k), Words(s[k..]))
    decreases |s| - k
  {
    hide IndexOf, RunEnd;
    if k < |s| {
      hide Marks;
      if s[k] == ' ' {
        assert s[k..] == " " + s[k + 1..];
        WordsSpace(s[k + 1..]);
        SpansGiveWords(s, k + 1);
      } else {
        var e := RunEnd(s, k);
        assert s[k..] == s[k..e] + s[e..];
        WordsPrefix(s[k..e], s[e..]);
        SpansGiveWords(s, e);
        MarksCons(s, k, e, Spans(s, e), Words(s[e..]));
      }
    }
  }

  /** Words(s) is the left-to-right list of the maximal space-free runs of s. */
  lemma WordsAreRuns(s: string) returns (spans: seq<(nat, nat)>)
    ensures |spans| == |Words(s)|
    ensures forall i :: 0 <= i < |spans| ==>
              IsWordSpan(s, spans[i].0, spans[i].1) && s[spans[i].0..spans[i].1] == Words(s)[i]
    ensures forall i, j :: 0 <= i < j < |spans| ==> spans[i].1 < spans[j].0
    ensures forall a: nat, b: nat :: IsWordSpan(s, a, b) ==> (a, b) in spans
  {
    spans := Spans(s, 0);
    SpansAreRuns(s, 0);
    SpansGiveWords(s, 0);
    assert s[0..] == s;
  }

  ghost predicate AreWords(ws: seq<string>) {
    forall i :: 0 <= i < |ws| ==> ws[i] != "" && ' ' !in ws[i]
  }

  lemma {:induction false} WordsAreWords(s: string)
    ensures AreWords(Words(s))
    decreases |s|
  {
    if s != "" {
      WordsAreWords(s[if s[0] == ' ' then 1 else IndexOf(s, ' ')..]);
    }
  }

  lemma {:induction false} WordsConcat(s: string, t: string)
    ensures Words(s + (" " + t)) == Words(s) + Words(t)
    decreases |s|
  {
    if s == "" {
      assert s + (" " + t) == " " + t;
      WordsSpace(t);
    } else if s[0] == ' ' {
      assert (s + (" " + t))[1..] == s[1..] + (" " + t);
      WordsConcat(s[1..], t);
    } else {
      var i := IndexOf(s, ' ');
      var p, q := s[..i], s[i..];
      WordsConcat(q, t);
      assert s + (" " + t) == p + (q + (" " + t));
      WordsPrefix(p, q + (" " + t));
      Assoc([p], Words(q), Words(t));
    }
  }

  lemma OneWord(w: string)
    requires w != "" && ' ' !in w
    ensures Words(w) == [w]
  {
    WordsPrefix(w, "");
    assert w + "" == w;
  }

  lemma {:induction false} WordsOfJoin(ws: seq<string>)
    requires AreWords(ws)
    ensures Words(Join(ws, ' ')) == ws
  {
    if |ws| == 1 {
      OneWord(ws[0]);
    } else if ws != [] {
      hide Words;
      var rest := Join(ws[1..], ' ');
      WordsOfJoin(ws[1..]);
      OneWord(ws[0]);
      WordsConcat(ws[0], rest);
      assert Join(ws, ' ') == ws[0] + (" " + rest);
    }
  }

  /** The tokens of a command line are the maximal space-free runs of its text. */
  lemma TokensAreWords(s: string)
    ensures SplitOf(TrimOf(s), ' ') == Words(s)
  {
    WordsAreWords(s);
    SplitUndoesMerge(Words(s), ' ');
  }

  /** A line of words splits into just these words. */
  lemma LineOfWords(ws: seq<string>)
    requires AreWords(ws)
    ensures SplitOf(TrimOf(Join(ws, ' ')), ' ') == ws
  {
    WordsOfJoin(ws);
    TokensAreWords(Join(ws, ' '));
  }

  lemma TrimIsIdempotent(s: string)
    ensures TrimOf(TrimOf(s)) == TrimOf(s)
  {
    WordsAreWords(s);
    WordsOfJoin(Words(s));
  }

  /** A space followed by a space or by the end separates nothing. */
  lemma WordsDropSpace(s: string, t: string)
    requires t == "" || t[0] == ' '
    ensures Words(s + (" " + t)) == Words(s + t)
  {
    hide Words;
    WordsConcat(s, t);
    if t == "" {
      NoWords();
      assert s + t == s && Words(s) + [] == Words(s);
    } else {
      var u := t[1..];
      assert t == " " + u;
      WordsSpace(u);
      WordsConcat(s, u);
    }
  }

  lemma NoWords()
    ensures Words("") == []
  {
  }

  ghost predicate SolidEnds(s: string) {
    s != "" ==> s[0] != ' ' && s[|s| - 1] != ' '
  }

  /** No two spaces in a row start before position i. */
  ghost predicate SingleBefore(s: string, i: int) {
    forall j, k :: 0 <= j < i && j + 1 == k && k < |s| ==> !(s[j] == ' ' && s[k] == ' ')
  }

  ghost predicate Normal(s: string) {
    SolidEnds(s) && SingleBefore(s, |s|)
  }

  lemma NormalRest(s: string, i: nat)
    requires Normal(s) && i < |s| && s[i] == ' '
    ensures s[i + 1..] != "" && Normal(s[i + 1..])
  {
    var t := s[i + 1..];
    assert i + 1 < |s| && t[0] == s[i + 1];
    forall j, k | 0 <= j && j + 1 == k && k < |t|
      ensures !(t[j] == ' ' && t[k] == ' ')
    {
      assert t[j] == s[i + 1 + j] && t[k] == s[i + 1 + k];
    }
  }

  lemma TrimPrefix(p: string, t: string)
    requires p != "" && ' ' !in p && TrimOf(t) == t && t != ""
    ensures TrimOf(p + [' '] + t) == p + [' '] + t
  {
    WordsSpace(t);
    WordsPrefix(p, " " + t);
    Assoc(p, [' '], t);
    assert Words(t) != [];
    assert ([p] + Words(t))[1..] == Words(t);
  }

  lemma {:induction false} NormalIsTrimmed(s: string)
    requires Normal(s)
    ensures TrimOf(s) == s
    decreases |s|
  {
    var i := IndexOf(s, ' ');
    if s != "" && i == |s| {
      WordsPrefix(s, "");
      assert s + "" == s;
    } else if s != "" {
      NormalRest(s, i);
      NormalIsTrimmed(s[i + 1..]);
      TrimPrefix(s[..i], s[i + 1..]);
      AroundAt(s, i);
    }
  }

  /** First loop of trim: erases the leading spaces. */
  method StripFront(input: string) returns (str: string)
    ensures Words(str) == Words(input)
    ensures str != "" ==> str[0] != ' '
  {
    var i := 0;
    while i < |input| && input[i] == ' '
      invariant 0 <= i <= |input|
      invariant Words(input[i..]) == Words(input)
    {
      assert input[i..][1..] == input[i + 1..];
      i := i + 1;
    }
    str := input[i..];
  }

  /** Second loop of trim: erases the trailing spaces; the bound is tested first. */
  method StripBack(input: string) returns (str: string)
    requires input != "" ==> input[0] != ' '
    ensures Words(str) == Words(input)
    ensures SolidEnds(str)
  {
    var i := |input| - 1;
    assert input[..i + 1] == input;
    while i >= 0 && input[i] == ' '
      invariant -1 <= i < |input|
      invariant Words(input[..i + 1]) == Words(input)
    {
      WordsDropSpace(input[..i], "");
      assert input[..i] + (" " + "") == input[..i + 1] && input[..i] + "" == input[..i];
      i := i - 1;
    }
    str := input[..i + 1];
  }

  lemma EraseSpace(s: string, i: nat)
    requires SolidEnds(s) && SingleBefore(s, i)
    requires i + 1 < |s| && s[i] == ' ' && s[i + 1] == ' '
    ensures var t := s[..i] + s[i + 1..];
            Words(t) == Words(s) && SolidEnds(t) && SingleBefore(t, i)
  {
    WordsDropSpace(s[..i], s[i + 1..]);
    AroundAt(s, i);
    Assoc(s[..i], " ", s[i + 1..]);
  }

  /** Third loop of trim: erases inside the string and steps the index back. */
  method Collapse(input: string) returns (str: string)
    requires SolidEnds(input)
    ensures Words(str) == Words(input) && Normal(str)
  {
    str := input;
    var i := 0;
    while i < |str| - 1
      invariant 0 <= i
      invariant Words(str) == Words(input)
      invariant SolidEnds(str) && SingleBefore(str, i)
      decreases |str| - i
    {
      if str[i] == ' ' && str[i + 1] == ' ' {
        EraseSpace(str, i);
        str := str[..i] + str[i + 1..];
        i := i - 1;
      }
      i := i + 1;
    }
  }

  method Trim(input: string) returns (str: string)
    ensures str == TrimOf(input)
  {
    str := input;
    if str == "" {
      return;
    }
    str := StripFront(str);
    str := StripBack(str);
    str := Collapse(str);
    NormalIsTrimmed(str);
  }

  // -------------------------------------------------------------- numbers

  predicate IsDigit(c: char) {
    '0' <= c <= '9'
  }

  function DigitChar(d: nat): (c: char)
    requires d < 10
    ensures IsDigit(c) && c as int - '0' as int == d
  {
    ('0' as int + d) as char
  }

  /** The accumulator of strtoint over a run of digits, in 32-bit arithmetic. */
  function DigitsValue(ds: string): int {
    if ds == "" then 0 else
      Wrap32(DigitsValue(ds[..|ds| - 1]) * 10 + (ds[|ds| - 1] as int - '0' as int))
  }

  predicate AllDigits(s: string) {
    forall i :: 0 <= i < |s| ==> IsDigit(s[i])
  }

  function Unsigned(s: string): string {
    if s != "" && s[0] == '-' then s[1..] else s
  }

  /** The result of strtoint: (is it a number, its value). */
  function IntOf(s: string): (bool, int) {
    if !AllDigits(Unsigned(s)) then (false, 0)
    else if s != "" && s[0] == '-' then (true, Wrap32(-DigitsValue(s[1..])))
    else (true, DigitsValue(s))
  }

  /** The texts that are numbers: digits only, but for a minus sign in front. */
  lemma NumberTexts(s: string)
    ensures IntOf(s).0 <==> forall i :: 0 <= i < |s| ==> IsDigit(s[i]) || (i == 0 && s[0] == '-')
  {
    if s != "" && s[0] == '-' {
      assert forall i :: 0 < i < |s| ==> s[i] == s[1..][i - 1];
      assert forall i :: 0 <= i < |s[1..]| ==> s[1..][i] == s[i + 1];
    }
  }

  lemma DigitsStep(str: string, start: nat, i: nat)
    requires start <= i < |str|
    ensures DigitsValue(str[start..i + 1]) == Wrap32(DigitsValue(str[start..i]) * 10 + (str[i] as int - '0' as int))
  {
    assert str[start..i + 1][..i - start] == str[start..i];
  }

  method StrToInt(str: string) returns (ok: bool, value: int)
    requires str != ""
    ensures (ok, value) == IntOf(str)
  {
    var sgn := 1;
    var i, res := 0, 0;
    if str[0] == '-' {
      sgn := -1;
      i := 1;
    }
    ghost var start := i;
    assert Unsigned(str) == str[start..];
    while i < |str|
      invariant start <= i <= |str|
      invariant forall k :: start <= k < i ==> IsDigit(str[k])
      invariant res == DigitsValue(str[start..i])
    {
      if str[i] < '0' || str[i] > '9' {
        assert Unsigned(str)[i - start] == str[i];
        return false, 0;
      }
      DigitsStep(str, start, i);
      res := Wrap32(res * 10 + (str[i] as int - '0' as int));
      i := i + 1;
    }
    assert str[start..i] == Unsigned(str);
    return true, Wrap32(sgn * res);
  }

  function Digits(n: nat): string {
    if n < 10 then [DigitChar(n)] else Digits(n / 10) + [DigitChar(n % 10)]
  }

  /** Decimal notation, as std::to_string prints an int. */
  function Decimal(n: int): string {
    if n < 0 then "-" + Digits(-n) else Digits(n)
  }

  lemma {:induction false} DigitsAreDigits(n: nat)
    ensures Digits(n) != "" && AllDigits(Digits(n))
  {
    if n >= 10 {
      DigitsAreDigits(n / 10);
    }
  }

  /** No step of reading these digits exceeds n. */
  ghost predicate StaysBelow(ds: string, n: int) {
    forall k :: 0 <= k < |ds| ==> 0 <= DigitsValue(ds[..k]) * 10 + (ds[k] as int - '0' as int) <= n
  }

  lemma OneMoreDigit(ds: string, d: nat, n: int)
    requires d < 10 && 0 <= n && n * 10 + d < TWO31
    requires DigitsValue(ds) == n && StaysBelow(ds, n)
    ensures DigitsValue(ds + [DigitChar(d)]) == n * 10 + d && StaysBelow(ds + [DigitChar(d)], n * 10 + d)
  {
    hide DigitsValue;
    var more := ds + [DigitChar(d)];
    ValueOfMore(ds, DigitChar(d));
    forall k | 0 <= k < |more|
      ensures 0 <= DigitsValue(more[..k]) * 10 + (more[k] as int - '0' as int) <= n * 10 + d
    {
      if k < |ds| {
        assert more[..k] == ds[..k] && more[k] == ds[k];
      } else {
        assert more[..k] == ds;
      }
    }
  }

  lemma ValueOfMore(ds: string, c: char)
    ensures DigitsValue(ds + [c]) == Wrap32(DigitsValue(ds) * 10 + (c as int - '0' as int))
  {
    assert (ds + [c])[..|ds|] == ds;
  }

  /** Reading back a printed natural number never overflows on the way. */
  lemma {:induction false} DigitsRoundTrip(n: nat)
    requires n < TWO31
    ensures DigitsValue(Digits(n)) == n && StaysBelow(Digits(n), n)
  {
    hide StaysBelow, DigitsValue;
    if n < 10 {
      NoDigits();
      OneMoreDigit("", n, 0);
      assert "" + [DigitChar(n)] == [DigitChar(n)];
    } else {
      DigitsRoundTrip(n / 10);
      OneMoreDigit(Digits(n / 10), n % 10, n / 10);
    }
  }

  lemma NoDigits()
    ensures DigitsValue("") == 0 && StaysBelow("", 0)
  {
  }

  /** strtoint inverts decimal printing on every int but the least. */
  lemma PrintedIntReadsBack(n: int)
    requires -TWO31 < n < TWO31
    ensures Decimal(n) != "" && IntOf(Decimal(n)) == (true, n)
  {
    var m := if n < 0 then -n else n;
    DigitsAreDigits(m);
    DigitsRoundTrip(m);
    if n < 0 {
      assert Decimal(n)[1..] == Digits(m);
    }
  }
}
