/** The two hash functions in closed form: the loops add up the characters times 53 to the
    powers of two, as if no multiplication wrapped around, and the slot is what the shifts
    of the source make of the sum. */
module HashLaws {
  import opened Hashing
  import opened MachineInts
  import opened NumberTheory

  const WORD: int := 0x1_0000_0000

  lemma WrapIs(x: int)
    ensures Wrap32(x) % WORD == x % WORD && (Wrap32(x) - x) % WORD == 0
  {
    var q := (x + TWO31) / WORD;
    assert x + TWO31 == WORD * q + (x + TWO31) % WORD;
    assert Wrap32(x) == x + WORD * -q;
    ModShift(x, WORD, -q);
    ModUnique(Wrap32(x) - x, WORD, -q, 0);
  }

  /** The wrapped number depends on the residue alone. */
  lemma WrapSame(x: int, y: int)
    requires x % WORD == y % WORD
    ensures Wrap32(x) == Wrap32(y)
  {
    ModDiff(x, y, WORD);
    var k := (x - y) / WORD;
    assert x + TWO31 == (y + TWO31) + WORD * k;
    ModShift(y + TWO31, WORD, k);
  }

  lemma WrapAdd(x: int, y: int)
    ensures Wrap32(Wrap32(x) + Wrap32(y)) == Wrap32(x + y)
  {
    WrapIs(x);
    WrapIs(y);
    ModDiff(Wrap32(x) + Wrap32(y), x + y, WORD);
    var i, j := (Wrap32(x) - x) / WORD, (Wrap32(y) - y) / WORD;
    ModUnique(Wrap32(x) + Wrap32(y) - (x + y), WORD, i + j, 0);
    WrapSame(Wrap32(x) + Wrap32(y), x + y);
  }

  lemma WrapMul(x: int, y: int)
    ensures Wrap32(x * Wrap32(y)) == Wrap32(x * y)
  {
    WrapIs(y);
    ModMulLeft(Wrap32(y), x, WORD);
    ModMulLeft(y, x, WORD);
    Commute(x, y, Wrap32(y));
    WrapSame(x * Wrap32(y), x * y);
  }

  lemma Commute(x: int, y: int, z: int)
    ensures x * y == y * x && x * z == z * x
  {
  }

  // -------------------------------------------------------------- the sums

  /** 53 squared i times. */
  function Base(i: nat): int {
    TwoIsPositive(i);
    Pow(53, Pow(2, i))
  }

  /** The characters from position i on, less an offset, times their powers. */
  function Sum(rest: string, i: nat, offset: int): int {
    if rest == "" then 0 else (CharCode(rest[0]) - offset) * Base(i) + Sum(rest[1..], i + 1, offset)
  }

  lemma {:induction false} TwoIsPositive(i: nat)
    ensures Pow(2, i) >= 1
  {
    if i > 0 {
      TwoIsPositive(i - 1);
    }
  }

  lemma NextBase(i: nat)
    ensures Wrap32(Wrap32(Base(i)) * Wrap32(Base(i))) == Wrap32(Base(i + 1))
  {
    hide Wrap32;
    var b, e := Base(i), Pow(2, i);
    TwoIsPositive(i);
    assert Pow(2, i + 1) == e + e;
    PowAdd(53, e, e);
    WrapMul(Wrap32(b), b);
    WrapMul(b, b);
    Commute(b, Wrap32(b), b);
  }

  /** One round of either loop. */
  lemma OneRound(c: int, i: nat, h: int)
    ensures Wrap32(Wrap32(h) + Wrap32(c * Wrap32(Base(i)))) == Wrap32(h + c * Base(i))
  {
    hide Wrap32, Base;
    WrapMul(c, Base(i));
    WrapAdd(h, c * Base(i));
  }

  function Rounds(h: int): int {
    Round(Round(Round(h, 3), 2), 1)
  }

  lemma RoundsAre(p: int, h: int)
    ensures SlotFrom("", p, h, 3) == Rounds(h) % TABLE_S
  {
    hide Round;
    SlotRounds(p, h);
  }

  lemma SlotStepAt(rest: string, p: int, h: int)
    requires rest != ""
    ensures SlotFrom(rest, p, h, 3) ==
            SlotFrom(rest[1..], Wrap32(p * p), Wrap32(h + Wrap32((CharCode(rest[0]) - 64) * p)), 3)
  {
    hide Round, Wrap32;
  }

  lemma {:induction false} SlotSum(rest: string, i: nat, h: int)
    ensures SlotFrom(rest, Wrap32(Base(i)), Wrap32(h), 3) == Rounds(Wrap32(h + Sum(rest, i, 64))) % TABLE_S
    decreases |rest|
  {
    hide Wrap32, Base, Round, Rounds;
    if rest != "" {
      var c := CharCode(rest[0]) - 64;
      NextBase(i);
      OneRound(c, i, h);
      SlotStepAt(rest, Wrap32(Base(i)), Wrap32(h));
      SlotSum(rest[1..], i + 1, h + c * Base(i));
    } else {
      RoundsAre(Wrap32(Base(i)), Wrap32(h));
    }
  }

  lemma {:induction false} BucketSum(rest: string, i: nat, h: int)
    ensures BucketFrom(rest, Wrap32(Base(i)), Wrap32(h)) == Wrap32(h + Sum(rest, i, 96)) % SET_S
    decreases |rest|
  {
    hide Wrap32, Base;
    if rest != "" {
      var c := CharCode(rest[0]) - 96;
      NextBase(i);
      OneRound(c, i, h);
      BucketSum(rest[1..], i + 1, h + c * Base(i));
    }
  }

  // ------------------------------------------------------------ the shifts

  function ShiftLeft(h: int, k: nat): int {
    Wrap32(h * Pow(2, k))
  }

  /** An arithmetic shift: rounds towards minus infinity. */
  function ShiftRight(h: int, k: nat): int
  {
    TwoIsPositive(k);
    h / Pow(2, k)
  }

  function Mixed(h: int, left: nat, right: nat): int {
    var x := Xor32(h, ShiftLeft(h, left));
    Wrap32(x + ShiftRight(x, right))
  }

  lemma TwoPowers()
    ensures Pow(2, 3) == 8 && Pow(2, 5) == 32 && Pow(2, 4) == 16 && Pow(2, 17) == 131072
    ensures Pow(2, 25) == 33554432 && Pow(2, 6) == 64
  {
    PowAdd(2, 4, 4);
    PowAdd(2, 8, 8);
    PowAdd(2, 16, 1);
    PowAdd(2, 17, 8);
  }

  lemma RoundsAreShifts(h: int)
    ensures Round(h, 3) == Mixed(h, 3, 5) && Round(h, 2) == Mixed(h, 4, 17) && Round(h, 1) == Mixed(h, 25, 6)
  {
    hide Xor32, Wrap32, Pow;
    TwoPowers();
  }

  lemma Halves(b: int, x: int)
    requires 0 <= b < 2
    ensures (b + 2 * x) / 2 == x && (b + 2 * x) % 2 == b
  {
  }

  lemma NoShift(x: int)
    ensures ShiftRight(x, 0) == x
  {
  }

  lemma NextPower(n: nat)
    requires n > 0
    ensures Pow(2, n) == 2 * Pow(2, n - 1)
  {
  }

  /** Exclusive or, bit by bit. */
  lemma {:induction false} XorByBits(x: int, y: int, n: nat, j: nat)
    ensures 0 <= XorBits(x, y, n) < Pow(2, n)
    ensures j < n ==> ShiftRight(XorBits(x, y, n), j) % 2 == (ShiftRight(x, j) % 2 + ShiftRight(y, j) % 2) % 2
    decreases n
  {
    hide Pow, ShiftRight;
    if n == 0 {
      assert Pow(2, 0) == 1 by { NoPower(); }
    } else {
      var rest := XorBits(x / 2, y / 2, n - 1);
      XorByBits(x / 2, y / 2, n - 1, if j > 0 then j - 1 else 0);
      Halves((x % 2 + y % 2) % 2, rest);
      NextPower(n);
      if j == 0 {
        NoShift(XorBits(x, y, n));
        NoShift(x);
        NoShift(y);
      } else if j < n {
        ShiftMore(XorBits(x, y, n), j);
        ShiftMore(x, j);
        ShiftMore(y, j);
      }
    }
  }

  lemma NoPower()
    ensures Pow(2, 0) == 1
  {
  }

  lemma ShiftMore(x: int, j: nat)
    requires j > 0
    ensures ShiftRight(x, j) == ShiftRight(x / 2, j - 1)
  {
    TwoIsPositive(j - 1);
    var p := Pow(2, j - 1);
    var q, r := (x / 2) / p, (x / 2) % p;
    assert x / 2 == p * q + r;
    assert x == 2 * (x / 2) + x % 2;
    assert x == (p * 2) * q + (2 * r + x % 2);
    ModUnique(x, p * 2, q, 2 * r + x % 2);
  }

  // ---------------------------------------------------------------- results

  /** The slot of a key. */
  lemma SlotLaw(key: string)
    ensures SlotOf(key) == Mixed(Mixed(Mixed(Wrap32(Sum(key, 0, 64)), 3, 5), 4, 17), 25, 6) % 10007
  {
    hide Wrap32, Mixed, Round, Sum, SlotFrom, Base;
    FirstBase();
    SlotSum(key, 0, 0);
    var h := Wrap32(Sum(key, 0, 64));
    RoundsAreShifts(h);
    RoundsAreShifts(Round(h, 3));
    RoundsAreShifts(Round(Round(h, 3), 2));
  }

  lemma FirstBase()
    ensures Base(0) == 53 && Wrap32(53) == 53 && Wrap32(0) == 0
  {
  }

  /** The bucket of an element. */
  lemma BucketLaw(content: string)
    ensures SetSlot(content) == Wrap32(Sum(content, 0, 96)) % 97
  {
    hide Wrap32, Sum;
    FirstBase();
    BucketSum(content, 0, 0);
  }
}
