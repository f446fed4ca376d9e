/** The hash functions of the main table and of the set type, in 32-bit arithmetic. */
module Hashing {
  import opened MachineInts
  import NumberTheory

  const TABLE_S: int := 10007
  const SET_S: int := 97

  /** A char is signed. */
  function CharCode(c: char): int {
    (c as int + 128) % 256 - 128
  }

  /** Exclusive or of the low n bits in two's complement. */
  function XorBits(x: int, y: int, n: nat): int
    decreases n, x, y
  {
    if n == 0 then 0 else (x % 2 + y % 2) % 2 + 2 * XorBits(x / 2, y / 2, n - 1)
  }

  function Xor32(x: int, y: int): int {
    Wrap32(XorBits(x, y, 32))
  }

  /** The shift-and-add rounds after the loop of the main table's hash, with n of them
      left; a right shift of an int rounds towards minus infinity. */
  function Round(h: int, n: nat): int {
    var (left, right) := if n == 3 then (8, 32) else if n == 2 then (16, 131072) else (33554432, 64);
    var h := Xor32(h, Wrap32(h * left));
    Wrap32(h + h / right)
  }

  /** The slot of a key in the main table, from the loop state (p, h), the rest of the key
      and the number of rounds left. */
  function SlotFrom(rest: string, p: int, h: int, n: nat): (i: nat)
    ensures i < TABLE_S
    decreases |rest|, n, p, h
  {
    if rest != "" then SlotFrom(rest[1..], Wrap32(p * p), Wrap32(h + Wrap32((CharCode(rest[0]) - 64) * p)), n)
    else if n == 0 then h % TABLE_S
    else SlotFrom("", p, Round(h, n), n - 1)
  }

  function SlotOf(key: string): (i: nat)
    ensures i < TABLE_S
  {
    SlotFrom(key, 53, 0, 3)
  }

  /** The bucket of an element in a set, likewise. */
  function BucketFrom(rest: string, p: int, h: int): (i: nat)
    ensures i < SET_S
  {
    if rest == "" then h % SET_S
    else BucketFrom(rest[1..], Wrap32(p * p), Wrap32(h + Wrap32((CharCode(rest[0]) - 96) * p)))
  }

  function SetSlot(content: string): (i: nat)
    ensures i < SET_S
  {
    BucketFrom(content, 53, 0)
  }

  /** Adding the divisor to a negative remainder yields the Euclidean remainder. */
  lemma TruncRemFix(a: int, b: int)
    requires b > 0
    ensures a % b == if TruncRem(a, b) < 0 then TruncRem(a, b) + b else TruncRem(a, b)
  {
    if a < 0 {
      NumberTheory.NegatedRemainder(-a, b);
    }
  }

  lemma SlotStep(key: string, i: nat, p: int, h: int)
    requires i < |key|
    ensures SlotFrom(key[i..], p, h, 3) ==
            SlotFrom(key[i + 1..], Wrap32(p * p), Wrap32(h + Wrap32((CharCode(key[i]) - 64) * p)), 3)
  {
    hide Round;
    assert key[i..][1..] == key[i + 1..];
  }

  lemma SlotRounds(p: int, h: int)
    ensures SlotFrom("", p, h, 3) == Round(Round(Round(h, 3), 2), 1) % TABLE_S
  {
    hide Round;
    assert SlotFrom("", p, h, 3) == SlotFrom("", p, Round(h, 3), 2);
    assert SlotFrom("", p, Round(h, 3), 2) == SlotFrom("", p, Round(Round(h, 3), 2), 1);
  }

  /** Hash::hash_func. */
  method TableHash(key: string) returns (index: nat)
    ensures index == SlotOf(key)
  {
    hide Round, SlotFrom;
    var p, h := 53, 0;
    assert key[0..] == key;
    for i := 0 to |key|
      invariant SlotFrom(key[i..], p, h, 3) == SlotOf(key)
    {
      SlotStep(key, i, p, h);
      h := Wrap32(h + Wrap32((CharCode(key[i]) - 64) * p));
      p := Wrap32(p * p);
    }
    SlotRounds(p, h);
    assert key[|key|..] == "";
    h := Round(h, 3);
    h := Round(h, 2);
    h := Round(h, 1);
    TruncRemFix(h, TABLE_S);
    if TruncRem(h, TABLE_S) < 0 {
      index := TruncRem(h, TABLE_S) + TABLE_S;
    } else {
      index := TruncRem(h, TABLE_S);
    }
  }

  /** Hashset::hash_func. */
  method SetHash(content: string) returns (index: nat)
    ensures index == SetSlot(content)
  {
    var p, h := 53, 0;
    assert content[0..] == content;
    for i := 0 to |content|
      invariant BucketFrom(content[i..], p, h) == SetSlot(content)
    {
      assert content[i..][1..] == content[i + 1..];
      h := Wrap32(h + Wrap32((CharCode(content[i]) - 96) * p));
      p := Wrap32(p * p);
    }
    TruncRemFix(h, SET_S);
    if TruncRem(h, SET_S) < 0 {
      index := TruncRem(h, SET_S) + SET_S;
    } else {
      index := TruncRem(h, SET_S);
    }
  }
}
