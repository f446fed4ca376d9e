/** The arithmetic behind the snapshot cipher: Euclid's algorithm, Bezout's identity,
    Euclid's lemma and Fermat's little theorem, all on non-negative integers. */
module NumberTheory {
  import opened Sequences

  function Pow(b: int, e: nat): int {
    if e == 0 then 1 else Pow(b, e - 1) * b
  }

  ghost predicate IsPrime(p: int) {
    p >= 2 && forall i :: 2 <= i < p ==> p % i != 0
  }

  // ---------------------------------------------------------------- residues

  lemma MulMono(a: int, x: int, y: int)
    requires 0 <= a && x <= y
    ensures a * x <= a * y
  {
  }

  lemma ModUnique(x: int, n: int, q: int, r: int)
    requires n > 0 && x == n * q + r && 0 <= r < n
    ensures x % n == r && x / n == q
  {
    var q', r' := x / n, x % n;
    assert x == n * q' + r';
    assert n * (q - q') == r' - r;
    if q < q' {
      MulMono(n, q - q', -1);
    } else if q > q' {
      MulMono(n, 1, q - q');
    }
  }

  lemma NegatedProduct(n: int, q: int)
    ensures n * -q == -(n * q) && n * (-q - 1) == -(n * q) - n
  {
  }

  /** The remainder of the negated number. */
  lemma NegatedRemainder(x: int, n: int)
    requires n > 0
    ensures -x % n == if x % n == 0 then 0 else n - x % n
  {
    var q, r := x / n, x % n;
    assert x == n * q + r;
    NegatedProduct(n, q);
    if r == 0 {
      ModUnique(-x, n, -q, 0);
    } else {
      ModUnique(-x, n, -q - 1, n - r);
    }
  }

  lemma ModShift(x: int, n: int, k: int)
    requires n > 0
    ensures (x + n * k) % n == x % n
  {
    ModUnique(x + n * k, n, x / n + k, x % n);
  }

  lemma ModMulLeft(a: int, b: int, n: int)
    requires n > 0
    ensures (a % n * b) % n == (a * b) % n
  {
    var q := a / n;
    assert a * b == a % n * b + n * (q * b) by {
      assert a == n * q + a % n;
      assert (n * q) * b == n * (q * b);
    }
    ModShift(a % n * b, n, q * b);
  }

  lemma ModMul(a: int, b: int, n: int)
    requires n > 0
    ensures (a % n * (b % n)) % n == (a * b) % n
  {
    ModMulLeft(a, b % n, n);
    ModMulLeft(b, a, n);
  }

  /** Equal residues, seen from the difference. */
  lemma ModDiff(a: int, b: int, n: int)
    requires n > 0
    ensures a % n == b % n <==> (a - b) % n == 0
  {
    var qa, qb := a / n, b / n;
    assert a == n * qa + a % n && b == n * qb + b % n;
    if a % n == b % n {
      ModUnique(a - b, n, qa - qb, 0);
    }
    if (a - b) % n == 0 {
      var k := (a - b) / n;
      assert a == b + n * k;
      ModShift(b, n, k);
    }
  }

  lemma ModLinear(a: int, b: int, s: int, t: int, d: int)
    requires d > 0 && a % d == 0 && b % d == 0
    ensures (s * a + t * b) % d == 0
  {
    var x, y := a / d, b / d;
    assert s * a == d * (s * x) && t * b == d * (t * y);
    ModUnique(s * a + t * b, d, s * x + t * y, 0);
  }

  // ------------------------------------------------------------------ powers

  lemma {:induction false} PowAdd(b: int, x: nat, y: nat)
    ensures Pow(b, x + y) == Pow(b, x) * Pow(b, y)
  {
    if y != 0 {
      PowAdd(b, x, y - 1);
      assert Pow(b, x + y) == Pow(b, x + y - 1) * b;
    }
  }

  lemma {:induction false} PowPow(b: int, x: nat, y: nat)
    ensures 0 <= x * y && Pow(b, x * y) == Pow(Pow(b, x), y)
  {
    if y == 0 {
      assert x * y == 0;
    } else {
      assert x * y == x * (y - 1) + x;
      PowPow(b, x, y - 1);
      PowAdd(b, x * (y - 1), x);
    }
  }

  lemma {:induction false} PowMod(b: int, e: nat, n: int)
    requires n > 0
    ensures Pow(b % n, e) % n == Pow(b, e) % n
  {
    if e != 0 {
      PowMod(b, e - 1, n);
      ModMulCong(Pow(b % n, e - 1), Pow(b, e - 1), b, n);
    }
  }

  lemma {:induction false} PowOneMod(b: int, e: nat, n: int)
    requires n > 1 && b % n == 1
    ensures Pow(b, e) % n == 1
  {
    if e == 0 {
      ModUnique(1, n, 0, 1);
    } else {
      PowOneMod(b, e - 1, n);
      ModMul(Pow(b, e - 1), b, n);
      ModUnique(1, n, 0, 1);
    }
  }

  lemma {:induction false} PowZeroMod(b: int, e: nat, n: int)
    requires n > 0 && b % n == 0 && e > 0
    ensures Pow(b, e) % n == 0
  {
    ModMul(Pow(b, e - 1), b, n);
    ModUnique(0, n, 0, 0);
  }

  // ------------------------------------------------------------------ Euclid

  /** Euclid's algorithm as the key generator runs it. */
  function Gcd(n1: nat, n2: nat): nat
    decreases n1
  {
    if n1 == 0 then n2 else Gcd(n2 % n1, n1)
  }

  lemma BezoutStep(a: int, q: int, r: int, s: int, t: int)
    ensures (t - s * q) * a + s * (a * q + r) == s * r + t * a
  {
    assert s * (a * q + r) == (s * q) * a + s * r;
  }

  /** Bezout's identity, with the coefficients Euclid's algorithm yields. */
  lemma {:induction false} Bezout(a: nat, b: nat) returns (s: int, t: int)
    ensures s * a + t * b == Gcd(a, b)
    decreases a
  {
    if a == 0 {
      s, t := 0, 1;
    } else {
      var s', t' := Bezout(b % a, a);
      s, t := t' - s' * (b / a), s';
      BezoutStep(a, b / a, b % a, s', t');
    }
  }

  /** Gcd is the true greatest common divisor: it divides both arguments and every
      common divisor divides it. */
  lemma {:induction false} GcdIsGreatest(a: nat, b: nat)
    requires a > 0 || b > 0
    ensures Gcd(a, b) > 0
    ensures a % Gcd(a, b) == 0 && b % Gcd(a, b) == 0
    ensures forall d :: 0 < d && a % d == 0 && b % d == 0 ==> Gcd(a, b) % d == 0 && d <= Gcd(a, b)
    decreases a
  {
    GcdDivides(a, b);
    var g := Gcd(a, b);
    var s, t := Bezout(a, b);
    forall d | 0 < d && a % d == 0 && b % d == 0
      ensures g % d == 0 && d <= g
    {
      ModLinear(a, b, s, t, d);
      if g < d {
        ModUnique(g, d, 0, g);
      }
    }
  }

  lemma {:induction false} GcdDivides(a: nat, b: nat)
    requires a > 0 || b > 0
    ensures Gcd(a, b) > 0
    ensures a % Gcd(a, b) == 0 && b % Gcd(a, b) == 0
    decreases a
  {
    if a == 0 {
      ModUnique(0, b, 0, 0);
      ModUnique(b, b, 1, 0);
    } else {
      GcdDivides(b % a, a);
      var q := b / a;
      ModLinear(a, b % a, q, 1, Gcd(a, b));
      assert b == q * a + 1 * (b % a);
    }
  }

  // ------------------------------------------------------------------ primes

  lemma PrimeGcd(a: int, p: int)
    requires IsPrime(p) && a % p != 0
    ensures Gcd(a % p, p) == 1
  {
    var r := a % p;
    GcdIsGreatest(r, p);
    var g := Gcd(r, p);
    if g >= p {
      ModUnique(r, g, 0, r);
    }
  }

  /** Euclid's lemma. */
  lemma EuclidLemma(a: int, b: int, p: int)
    requires IsPrime(p) && (a * b) % p == 0 && a % p != 0
    ensures b % p == 0
  {
    PrimeGcd(a, p);
    var r := a % p;
    var s, t := Bezout(r, p);
    ModMulLeft(a, b, p);
    assert (r * b) % p == 0;
    ModUnique(p, p, 1, 0);
    ModLinear(r * b, p, s, t * b, p);
    assert s * (r * b) + (t * b) * p == b * (s * r + t * p);
  }

  lemma ModCancel(a: int, x: int, y: int, p: int)
    requires IsPrime(p) && a % p != 0 && (a * x) % p == (a * y) % p
    ensures x % p == y % p
  {
    ModDiff(a * x, a * y, p);
    assert a * x - a * y == a * (x - y);
    EuclidLemma(a, x - y, p);
    ModDiff(x, y, p);
  }

  // ------------------------------------------------- Fermat's little theorem

  function Prod(s: seq<int>): int {
    if s == [] then 1 else s[0] * Prod(s[1..])
  }

  function Factorial(n: nat): nat {
    if n == 0 then 1 else n * Factorial(n - 1)
  }

  ghost predicate Arrangement(s: seq<int>) {
    && (forall i :: 0 <= i < |s| ==> 1 <= s[i] <= |s|)
    && (forall i, j :: 0 <= i < j < |s| ==> s[i] != s[j])
  }

  lemma {:induction false} ProdRemove(s: seq<int>, k: nat)
    requires k < |s|
    ensures Prod(s) == s[k] * Prod(s[..k] + s[k + 1..])
  {
    if k == 0 {
      assert s[..k] + s[k + 1..] == s[1..];
    } else {
      ProdRemove(s[1..], k - 1);
      var t := s[..k] + s[k + 1..];
      assert t[0] == s[0] && t[1..] == s[1..][..k - 1] + s[1..][k..];
      assert s[0] * (s[k] * Prod(t[1..])) == s[k] * (s[0] * Prod(t[1..]));
    }
  }

  function Range(n: nat): (r: set<int>)
    ensures |r| == n && forall x :: x in r <==> 1 <= x <= n
  {
    if n == 0 then {} else Range(n - 1) + {n}
  }

  lemma SubsetOfEqualSize(a: set<int>, b: set<int>)
    requires a <= b && |a| == |b|
    ensures a == b
  {
    assert |b - a| == |b| - |a| by {
      assert b == a + (b - a);
    }
  }

  /** The product of any arrangement of 1..n is n!. */
  lemma {:induction false} ProdArrangement(s: seq<int>)
    requires Arrangement(s)
    ensures Prod(s) == Factorial(|s|)
    decreases |s|
  {
    var n := |s|;
    if n != 0 {
      assert n in s by {
        NoRepeatsCount(s);
        SubsetOfEqualSize((set x | x in s), Range(n));
        assert n in Range(n);
      }
      var k :| 0 <= k < n && s[k] == n;
      ProdRemove(s, k);
      var t := s[..k] + s[k + 1..];
      forall i | 0 <= i < |t|
        ensures 1 <= t[i] <= n - 1
      {
        assert t[i] == if i < k then s[i] else s[i + 1];
      }
      ProdArrangement(t);
    }
  }

  function Multiples(a: int, p: int, n: nat): (s: seq<int>)
    requires p > 0
    ensures |s| == n && forall i :: 0 <= i < n ==> s[i] == (a * (i + 1)) % p
  {
    if n == 0 then [] else Multiples(a, p, n - 1) + [(a * n) % p]
  }

  lemma {:induction false} ProdSnoc(s: seq<int>, x: int)
    ensures Prod(s + [x]) == Prod(s) * x
  {
    if s == [] {
      assert ([x])[1..] == [];
      assert s + [x] == [x];
    } else {
      assert (s + [x])[1..] == s[1..] + [x];
      ProdSnoc(s[1..], x);
      assert s[0] * (Prod(s[1..]) * x) == (s[0] * Prod(s[1..])) * x;
    }
  }

  lemma MulInterchange(a: int, b: int, c: int, d: int)
    ensures (a * b) * (c * d) == (a * c) * (d * b)
  {
    calc {
      (a * b) * (c * d);
      ((a * b) * c) * d;
      ((a * c) * b) * d;
      (a * c) * (b * d);
    }
  }

  lemma ModMulCong(x: int, x': int, y: int, n: int)
    requires n > 0 && x % n == x' % n
    ensures (x * (y % n)) % n == (x' * y) % n
  {
    ModMulLeft(x, y % n, n);
    ModMulLeft(x', y % n, n);
    ModMulLeft(y, x', n);
  }

  lemma {:induction false} ProdMultiples(a: int, p: int, n: nat)
    requires p > 0
    ensures Prod(Multiples(a, p, n)) % p == (Pow(a, n) * Factorial(n)) % p
  {
    if n != 0 {
      ProdMultiples(a, p, n - 1);
      var s, x := Multiples(a, p, n - 1), Pow(a, n - 1) * Factorial(n - 1);
      ProdSnoc(s, (a * n) % p);
      ModMulCong(Prod(s), x, a * n, p);
      MulInterchange(Pow(a, n - 1), Factorial(n - 1), a, n);
    }
  }

  lemma {:induction false} PrimeFactorial(n: nat, p: int)
    requires IsPrime(p) && n < p
    ensures Factorial(n) % p != 0
  {
    if n == 0 {
      ModUnique(1, p, 0, 1);
    } else {
      PrimeFactorial(n - 1, p);
      if Factorial(n) % p == 0 {
        ModUnique(n, p, 0, n);
        EuclidLemma(n, Factorial(n - 1), p);
      }
    }
  }

  lemma MultiplesArrange(a: int, p: int)
    requires IsPrime(p) && a % p != 0
    ensures Arrangement(Multiples(a, p, p - 1))
  {
    var s := Multiples(a, p, p - 1);
    forall i | 0 <= i < |s|
      ensures 1 <= s[i] <= p - 1
    {
      ModUnique(i + 1, p, 0, i + 1);
      if s[i] == 0 {
        EuclidLemma(a, i + 1, p);
      }
    }
    forall i, j | 0 <= i < j < |s|
      ensures s[i] != s[j]
    {
      ModUnique(i + 1, p, 0, i + 1);
      ModUnique(j + 1, p, 0, j + 1);
      if s[i] == s[j] {
        ModCancel(a, i + 1, j + 1, p);
      }
    }
  }

  /** Fermat's little theorem. */
  lemma Fermat(a: int, p: int)
    requires IsPrime(p) && a % p != 0
    ensures Pow(a, p - 1) % p == 1
  {
    MultiplesArrange(a, p);
    ProdArrangement(Multiples(a, p, p - 1));
    ProdMultiples(a, p, p - 1);
    var f := Factorial(p - 1);
    PrimeFactorial(p - 1, p);
    assert f * 1 == f && f * Pow(a, p - 1) == Pow(a, p - 1) * f;
    ModCancel(f, Pow(a, p - 1), 1, p);
    ModUnique(1, p, 0, 1);
  }

  lemma TimesOne(a: int, m: int, n: int)
    requires n > 1 && a % n == 1
    ensures (a * m) % n == m % n
  {
    ModMulLeft(a, m, n);
  }

  /** Raising to an exponent that is 1 modulo p - 1 is the identity on residues of a
      prime p, multiples of p included. */
  lemma PowIdentity(m: int, p: int, x: nat, k: nat)
    requires IsPrime(p) && x == (p - 1) * k + 1
    ensures Pow(m, x) % p == m % p
  {
    if m % p == 0 {
      PowZeroMod(m, x, p);
    } else {
      Fermat(m, p);
      PowPow(m, p - 1, k);
      PowOneMod(Pow(m, p - 1), k, p);
      TimesOne(Pow(m, x - 1), m, p);
    }
  }

  /** Two distinct primes that divide a number divide it jointly. */
  lemma PrimesDivideJointly(x: int, p: int, q: int)
    requires IsPrime(p) && IsPrime(q) && p != q
    requires x % p == 0 && x % q == 0
    ensures p * q > 0 && x % (p * q) == 0
  {
    var k := x / p;
    assert x == p * k;
    if p % q == 0 {
      if p < q { ModUnique(p, q, 0, p); }
      assert false;
    }
    EuclidLemma(p, k, q);
    var j := k / q;
    assert x == p * (q * j);
    assert p * (q * j) == (p * q) * j;
    assert p * q >= 0;
    ModUnique(x, p * q, j, 0);
  }
}
