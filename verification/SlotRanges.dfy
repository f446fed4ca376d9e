/** How the two cluster builders hand out hash slots: the running start of src/cluster.cpp,
    the closed form of src/distribute.cpp, and the set-up messages that carry them. */
module SlotRanges {
  import opened Hashing
  import opened Machine
  import opened MachineInts
  import opened Sequences
  import opened Text

  // ------------------------------------------------------------------ atoi

  predicate IsBlank(c: char) {
    c == ' ' || 9 <= c as int <= 13
  }

  /** The longest prefix of digits. */
  function LeadingDigits(s: string): (ds: string)
    ensures AllDigits(ds) && |ds| <= |s| && ds == s[..|ds|]
  {
    if s == "" || !IsDigit(s[0]) then "" else [s[0]] + LeadingDigits(s[1..])
  }

  /** The library function atoi; out of range it wraps. */
  function Atoi(s: string): int {
    if s == "" then 0
    else if IsBlank(s[0]) then Atoi(s[1..])
    else if s[0] == '-' then Wrap32(-DigitsValue(LeadingDigits(s[1..])))
    else if s[0] == '+' then DigitsValue(LeadingDigits(s[1..]))
    else DigitsValue(LeadingDigits(s))
  }

  lemma AtoiSkipsSpace(s: string)
    ensures Atoi(" " + s) == Atoi(s)
  {
    assert (" " + s)[1..] == s;
  }

  /** atoi inverts decimal printing. */
  lemma AtoiReadsBack(n: int)
    requires -TWO31 < n < TWO31
    ensures Atoi(Decimal(n)) == n && Atoi(" " + Decimal(n)) == n
  {
    hide Atoi, Digits, DigitsValue;
    var m := if n < 0 then -n else n;
    DigitsAreDigits(m);
    DigitsRoundTrip(m);
    AtoiStops(Digits(m), "");
    AtoiSkipsSpace(Decimal(n));
    assert Digits(m) + "" == Digits(m);
  }

  lemma {:induction false} LeadStops(ds: string, rest: string)
    requires AllDigits(ds) && (rest != "" ==> !IsDigit(rest[0]))
    ensures LeadingDigits(ds + rest) == ds
  {
    if ds == "" {
      assert ds + rest == rest;
    } else {
      assert (ds + rest)[1..] == ds[1..] + rest;
      LeadStops(ds[1..], rest);
    }
  }

  lemma AtoiStops(ds: string, t: string)
    requires AllDigits(ds) && ds != "" && (t != "" ==> !IsDigit(t[0]))
    ensures Atoi(ds + t) == DigitsValue(ds) && Atoi("-" + (ds + t)) == Wrap32(-DigitsValue(ds))
  {
    hide DigitsValue, LeadingDigits;
    LeadStops(ds, t);
    assert (ds + t)[0] == ds[0] && IsDigit(ds[0]);
    assert ("-" + (ds + t))[1..] == ds + t;
  }

  /** atoi stops behind a number. */
  lemma NumberStops(n: int, rest: string)
    requires -TWO31 < n < TWO31 && rest != "" && rest[0] == ' '
    ensures Atoi(" " + (Decimal(n) + rest)) == n
  {
    hide Atoi, Digits, DigitsValue;
    var m := if n < 0 then -n else n;
    var ds := Digits(m);
    DigitsAreDigits(m);
    DigitsRoundTrip(m);
    AtoiStops(ds, rest);
    AtoiSkipsSpace(Decimal(n) + rest);
    assert n < 0 ==> Decimal(n) + rest == "-" + (ds + rest);
  }

  lemma DecimalIsWord(n: int)
    ensures Decimal(n) != "" && ' ' !in Decimal(n) && 8 as char !in Decimal(n)
  {
    DigitsAreDigits(if n < 0 then -n else n);
  }

  // ---------------------------------------------------------------- ranges

  function Each(n: int): nat
    requires n >= 1
  {
    TABLE_S / n
  }

  /** The slots of node k of n. */
  function RangeOf(n: int, k: int): Range
    requires n >= 1
  {
    Range(Each(n) * k, if k != n - 1 then Each(n) * (k + 1) - 1 else TABLE_S - 1)
  }

  function OwnerOf(n: int, slot: nat): (k: nat)
    requires n >= 1
    ensures k < n
  {
    if Each(n) == 0 || slot / Each(n) >= n then n - 1 else slot / Each(n)
  }

  lemma EachTimes(n: int, k: int)
    requires 1 <= n && 0 <= k <= n
    ensures 0 <= Each(n) * k <= TABLE_S
  {
    var e := Each(n);
    assert e * n <= TABLE_S;
    assert e * k <= e * n;
  }

  /** The number of slots in a range. */
  function SizeOf(r: Range): int {
    r.end - r.start + 1
  }

  /** The shares in numbers, for every cluster size: they follow one another from slot 0 to
      slot 10006, all but the last are of one size, and the last is at least as large and
      larger by fewer slots than there are nodes. */
  lemma SharesAreEqual(n: int) returns (share: nat)
    requires n >= 1
    ensures RangeOf(n, 0).start == 0 && RangeOf(n, n - 1).end == 10006
    ensures forall j, k :: 0 <= j && k == j + 1 && k < n ==> RangeOf(n, k).start == RangeOf(n, j).end + 1
    ensures forall k :: 0 <= k < n - 1 ==> SizeOf(RangeOf(n, k)) == share
    ensures share <= SizeOf(RangeOf(n, n - 1)) < share + n
  {
    share := Each(n);
    forall j, k | 0 <= j && k == j + 1 && k < n
      ensures RangeOf(n, k).start == RangeOf(n, j).end + 1 && SizeOf(RangeOf(n, j)) == share
    {
      RangeHere(n, j, Each(n) * j);
    }
    forall k | 0 <= k < n - 1
      ensures SizeOf(RangeOf(n, k)) == share
    {
      var j := k + 1;
      RangeHere(n, k, Each(n) * k);
    }
    LastShare(n);
  }

  lemma LastShare(n: int)
    requires n >= 1
    ensures Each(n) <= SizeOf(RangeOf(n, n - 1)) < Each(n) + n
  {
    var e, r := TABLE_S / n, TABLE_S % n;
    assert TABLE_S == n * e + r;
    assert e * (n - 1) == n * e - e;
  }

  lemma InRangeIffQuotient(e: nat, slot: nat, k: nat)
    requires e > 0
    ensures e * k <= slot <= e * (k + 1) - 1 <==> slot / e == k
    ensures e * k <= slot <==> k <= slot / e
  {
    var q, r := slot / e, slot % e;
    assert slot == e * q + r;
    assert e * (k + 1) == e * k + e;
    if k < q {
      assert e * (k + 1) <= e * q;
    } else if q < k {
      assert e * (q + 1) <= e * k;
      assert e * (q + 1) == e * q + e;
    }
  }

  /** For every cluster size, more nodes than slots included, the ranges partition the
      slots: each slot lies in the range of its owner and in no other. */
  lemma RangesPartition(n: int, slot: nat, k: nat)
    requires 1 <= n && slot < TABLE_S && k < n
    ensures InRange(slot, RangeOf(n, k)) <==> k == OwnerOf(n, slot)
  {
    var e := Each(n);
    if e > 0 {
      InRangeIffQuotient(e, slot, k);
    } else {
      assert e * k == 0 && e * (k + 1) == 0;
    }
  }

  // ------------------------------------------------- the size of the cluster

  /** What the reader of the first configuration line ends with: the value of the last
      suffix that starts with a digit and is not zero. */
  function SizeIn(lr: string): int {
    if lr == "" then 0
    else if SizeIn(lr[1..]) != 0 then SizeIn(lr[1..])
    else if IsDigit(lr[0]) then Atoi(lr)
    else 0
  }

  method ReadSize(lr: string) returns (cluster_num: int)
    ensures cluster_num == SizeIn(lr)
  {
    cluster_num := 0;
    assert lr[0..] == lr;
    for i := 0 to |lr|
      invariant SizeIn(lr) == if SizeIn(lr[i..]) != 0 then SizeIn(lr[i..]) else cluster_num
    {
      assert lr[i..][1..] == lr[i + 1..];
      if IsDigit(lr[i]) {
        var cluster_num_char := lr[i..];
        if Atoi(cluster_num_char) != 0 {
          cluster_num := Atoi(cluster_num_char);
        }
      }
    }
  }

  /** The value of a run of digits, without overflow. */
  function Magnitude(ds: string): nat
    requires AllDigits(ds)
  {
    if ds == "" then 0 else Magnitude(ds[..|ds| - 1]) * 10 + (ds[|ds| - 1] as int - '0' as int)
  }

  lemma {:induction false} FrontDigit(ds: string)
    requires AllDigits(ds) && ds != ""
    ensures Magnitude(ds) >= Magnitude(ds[1..])
    ensures ds[0] != '0' ==> Magnitude(ds) > Magnitude(ds[1..])
    ensures ds[0] == '0' ==> Magnitude(ds) == Magnitude(ds[1..])
  {
    var last := |ds| - 1;
    if last > 0 {
      FrontDigit(ds[..last]);
      assert ds[..last][1..] == ds[1..][..last - 1];
    }
  }

  lemma {:induction false} MagnitudeRead(ds: string)
    requires AllDigits(ds) && Magnitude(ds) < TWO31
    ensures DigitsValue(ds) == Magnitude(ds)
  {
    if ds != "" {
      MagnitudeRead(ds[..|ds| - 1]);
    }
  }

  lemma {:induction false} DigitsMagnitude(n: nat)
    ensures AllDigits(Digits(n)) && Digits(n) != "" && Magnitude(Digits(n)) == n
    ensures n > 0 ==> Digits(n)[0] != '0'
  {
    DigitsAreDigits(n);
    if n >= 10 {
      DigitsMagnitude(n / 10);
      var ds := Digits(n);
      assert ds[..|ds| - 1] == Digits(n / 10);
    }
  }

  ghost predicate NoDigits(s: string) {
    forall k :: 0 <= k < |s| ==> !IsDigit(s[k])
  }

  lemma {:induction false} SizeOfText(t: string)
    requires NoDigits(t)
    ensures SizeIn(t) == 0
  {
    if t != "" {
      SizeOfText(t[1..]);
    }
  }

  lemma {:induction false} SizeOfDigits(ds: string, t: string)
    requires AllDigits(ds) && Magnitude(ds) < TWO31 && NoDigits(t)
    ensures 0 <= SizeIn(ds + t) <= Magnitude(ds)
    ensures SizeIn(ds + t) == 0 <==> forall k :: 0 <= k < |ds| ==> ds[k] == '0'
  {
    hide DigitsValue, Atoi, Magnitude;
    if ds == "" {
      assert ds + t == t;
      SizeOfText(t);
      ZerosAreNothing(ds);
    } else {
      assert (ds + t)[1..] == ds[1..] + t && (ds + t)[0] == ds[0];
      FrontDigit(ds);
      SizeOfDigits(ds[1..], t);
      MagnitudeRead(ds);
      AtoiStops(ds, t);
      assert forall k :: 0 < k < |ds| ==> ds[k] == ds[1..][k - 1];
      if SizeIn(ds[1..] + t) == 0 {
        ZerosAreNothing(ds[1..]);
      }
    }
  }

  lemma {:induction false} ZerosAreNothing(ds: string)
    requires forall k :: 0 <= k < |ds| ==> ds[k] == '0'
    ensures AllDigits(ds) && Magnitude(ds) == 0
  {
    if ds != "" {
      ZerosAreNothing(ds[..|ds| - 1]);
    }
  }

  lemma {:induction false} SizeAfterText(w: string, rest: string)
    requires NoDigits(w)
    ensures SizeIn(w + rest) == SizeIn(rest)
  {
    if w == "" {
      assert w + rest == rest;
    } else {
      assert (w + rest)[1..] == w[1..] + rest;
      SizeAfterText(w[1..], rest);
    }
  }

  /** From a line with one number, wherever it stands, cluster.cpp reads the size of the
      cluster right exactly when no digit after the first one differs from zero: 1 to 10,
      20, 30 and so on, but not 12. */
  lemma SizeReadRight(w: string, n: nat, t: string)
    requires 1 <= n < TWO31 && NoDigits(w) && NoDigits(t)
    ensures SizeIn(w + (Decimal(n) + t)) == n <==> forall k :: 1 <= k < |Decimal(n)| ==> Decimal(n)[k] == '0'
  {
    hide Digits, DigitsValue, Magnitude, Atoi;
    var ds := Digits(n);
    SizeAfterText(w, ds + t);
    DigitsMagnitude(n);
    FrontDigit(ds);
    SizeOfDigits(ds[1..], t);
    MagnitudeRead(ds);
    AtoiStops(ds, t);
    assert (ds + t)[1..] == ds[1..] + t && (ds + t)[0] == ds[0];
    assert forall k :: 1 <= k < |ds| ==> ds[k] == ds[1..][k - 1];
    assert forall k :: 0 <= k < |ds[1..]| ==> ds[1..][k] == ds[k + 1];
  }

  lemma SizeTwelve()
    ensures SizeIn("cluster " + Decimal(12)) == 2
  {
    var ds := "12";
    assert Decimal(12) == ds;
    SizeAfterText("cluster ", ds);
    assert ds[1..] == "2" && LeadingDigits("2") == "2" && DigitsValue("2") == 2;
    assert Atoi("2") == 2;
    assert SizeIn("2") == 2;
  }

  // --------------------------------------------------------------- builder

  /** A set-up message: verb, address line of the node, first and last slot. */
  function Message(verb: string, info: string, r: Range): string {
    verb + (" " + (info + (" " + (Decimal(r.start) + (" " + Decimal(r.end))))))
  }

  /** What the loop over the configuration lines has to leave at index k. */
  function ListEntry(verb: string, n: int, infos: seq<string>, k: nat): string
    requires 1 <= n && k < n && k < |infos|
  {
    Message(verb, if k < n - 1 then infos[k] else infos[|infos| - 1], RangeOf(n, k))
  }

  lemma RangeHere(n: int, k: int, start: int)
    requires 0 <= k < n && start == Each(n) * k
    ensures RangeOf(n, k) == Range(start, if k == n - 1 then TABLE_S - 1 else start + Each(n) - 1)
    ensures start + Each(n) == Each(n) * (k + 1)
  {
  }

  /** The loop of cluster.cpp over the lines after the first. The last range runs to the end
      of the table; lines beyond the cluster size overwrite the last entry. */
  method BuildLists(cluster_num: int, infos: seq<string>) returns (addr_list: array<string>, my_list: array<string>)
    requires 1 <= cluster_num <= |infos|
    ensures addr_list.Length == my_list.Length == cluster_num
    ensures forall k :: 0 <= k < cluster_num ==>
              && addr_list[k] == ListEntry("clust", cluster_num, infos, k)
              && my_list[k] == ListEntry("myinfo", cluster_num, infos, k)
  {
    hide RangeOf, Message;
    var each_slot := TABLE_S / cluster_num;
    addr_list, my_list := new string[cluster_num], new string[cluster_num];
    var line_num, start := 1, 0;
    for i := 0 to |infos|
      invariant line_num == if i < cluster_num then i + 1 else cluster_num
      invariant start == each_slot * (line_num - 1)
      invariant forall k :: 0 <= k < i && k < cluster_num - 1 ==>
                  && addr_list[k] == Message("clust", infos[k], RangeOf(cluster_num, k))
                  && my_list[k] == Message("myinfo", infos[k], RangeOf(cluster_num, k))
      invariant i >= cluster_num ==>
                  && addr_list[cluster_num - 1] == Message("clust", infos[i - 1], RangeOf(cluster_num, cluster_num - 1))
                  && my_list[cluster_num - 1] == Message("myinfo", infos[i - 1], RangeOf(cluster_num, cluster_num - 1))
    {
      var lr := infos[i];
      RangeHere(cluster_num, line_num - 1, start);
      if line_num == cluster_num {
        var r := Range(start, TABLE_S - 1);
        addr_list[line_num - 1] := Message("clust", lr, r);
        my_list[line_num - 1] := Message("myinfo", lr, r);
      } else {
        var r := Range(start, start + each_slot - 1);
        addr_list[line_num - 1] := Message("clust", lr, r);
        my_list[line_num - 1] := Message("myinfo", lr, r);
        start := start + each_slot;
        line_num := line_num + 1;
      }
    }
  }

  /** The slot bounds distribute.cpp computes for node k. */
  method ClosedForm(cluster_num: int, k: int) returns (slot_start: int, slot_end: int)
    requires 0 <= k < cluster_num
    ensures Range(slot_start, slot_end) == RangeOf(cluster_num, k)
  {
    var each_slot := TABLE_S / cluster_num;
    if k != cluster_num - 1 {
      slot_start := each_slot * k;
      slot_end := each_slot * (k + 1) - 1;
    } else {
      slot_start := each_slot * k;
      slot_end := TABLE_S - 1;
    }
  }

  // ------------------------------------------------- parsing a set-up message

  /** The tokens of a set-up message; the bounds are tokens 3 and 4, where the receiver
      looks for them, exactly when the address line consists of two words. */
  lemma MessageTokens(verb: string, info: string, r: Range)
    requires verb != "" && ' ' !in verb
    ensures Tokens(Message(verb, info, r)) == [verb] + Words(info) + [Decimal(r.start), Decimal(r.end)]
  {
    var a, b := Decimal(r.start), Decimal(r.end);
    DecimalIsWord(r.start);
    DecimalIsWord(r.end);
    OneWord(a);
    OneWord(b);
    OneWord(verb);
    WordsConcat(a, b);
    WordsConcat(info, a + (" " + b));
    WordsConcat(verb, info + (" " + (a + (" " + b))));
    TokensAreWords(Message(verb, info, r));
    Assoc([verb], Words(info), [a, b]);
  }

  /** What the receiver makes of a set-up message. */
  function RangeIn(com: string): Range
    requires |Tokens(com)| >= 5
  {
    Range(Atoi(Tokens(com)[3]), Atoi(Tokens(com)[4]))
  }

  lemma RangeSurvives(verb: string, info: string, n: int, k: int)
    requires verb != "" && ' ' !in verb && |Words(info)| == 2
    requires 0 <= k < n
    ensures var m := Message(verb, info, RangeOf(n, k));
            |Tokens(m)| == 5 && Tokens(m)[0] == verb && RangeIn(m) == RangeOf(n, k)
  {
    hide Tokens, Words, Message, Atoi, Decimal;
    var r := RangeOf(n, k);
    MessageTokens(verb, info, r);
    EachTimes(n, k);
    EachTimes(n, k + 1);
    AtoiReadsBack(r.start);
    AtoiReadsBack(r.end);
  }

  /** Which node gets which address line: entry k carries the words of line k, and the last
      entry those of the last line, however many there are. */
  lemma EntryTokens(verb: string, n: int, infos: seq<string>, k: nat)
    requires verb != "" && ' ' !in verb && k < n <= |infos|
    ensures var info := if k + 1 < n then infos[k] else infos[|infos| - 1];
            Tokens(ListEntry(verb, n, infos, k)) ==
            [verb] + Words(info) + [Decimal(RangeOf(n, k).start), Decimal(RangeOf(n, k).end)]
  {
    hide Tokens, Words, Decimal, RangeOf, Message;
    MessageTokens(verb, if k + 1 < n then infos[k] else infos[|infos| - 1], RangeOf(n, k));
  }
}
