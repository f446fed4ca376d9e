/** The numbers strtoint reads, in closed form: the decimal value of the digits, taken
    modulo 2^32 into the range of an int, although every step wraps around. */
module NumberLaws {
  import opened HashLaws
  import opened MachineInts
  import opened NumberTheory
  import opened SlotRanges
  import opened Text

  lemma {:induction false} ValueWraps(ds: string)
    requires AllDigits(ds)
    ensures DigitsValue(ds) == Wrap32(Magnitude(ds))
  {
    hide Wrap32;
    if ds == "" {
      FirstBase();
    } else {
      var n, c := Magnitude(ds[..|ds| - 1]), ds[|ds| - 1] as int - '0' as int;
      ValueWraps(ds[..|ds| - 1]);
      WrapStep(n, c);
    }
  }

  lemma WrapStep(n: int, c: int)
    ensures Wrap32(Wrap32(n) * 10 + c) == Wrap32(n * 10 + c)
  {
    WrapIs(n);
    var k := (Wrap32(n) - n) / WORD;
    assert Wrap32(n) == n + WORD * k;
    ModShift(n * 10 + c, WORD, k * 10);
    WrapSame(Wrap32(n) * 10 + c, n * 10 + c);
  }

  lemma WrapNegated(n: int)
    ensures Wrap32(-Wrap32(n)) == Wrap32(-n)
  {
    WrapIs(n);
    var k := (Wrap32(n) - n) / WORD;
    assert Wrap32(n) == n + WORD * k;
    ModShift(-n, WORD, -k);
    WrapSame(-Wrap32(n), -n);
  }

  /** The value of a text of digits, with or without a minus sign. */
  lemma NumberLaw(ds: string)
    requires AllDigits(ds) && ds != ""
    ensures IntOf(ds) == (true, Wrap32(Magnitude(ds)))
    ensures IntOf("-" + ds) == (true, Wrap32(-1 * Magnitude(ds)))
  {
    hide Wrap32, DigitsValue, Magnitude;
    ValueWraps(ds);
    WrapNegated(Magnitude(ds));
    assert ("-" + ds)[1..] == ds && IsDigit(ds[0]);
  }
}
