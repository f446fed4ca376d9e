/** The byte cipher of src/encrypt.cpp and src/encrypt.h: key search and the two modular
    exponentiation loops, the RSAEP and RSADP primitives of section 5.1 of RFC 8017 with
    keys as in its section 3. */
module Cipher {
  import opened MachineInts
  import opened NumberTheory

  // ------------------------------------------------------------ prime test

  /** The integer part of the square root. */
  function ISqrt(p: nat): (r: nat)
    ensures r * r <= p < (r + 1) * (r + 1)
  {
    if p == 0 then 0 else
      var r := ISqrt(p - 1);
      if (r + 1) * (r + 1) <= p then r + 1 else r
  }

  /** Of two factors one is at most the square root. */
  lemma SmallFactor(p: nat, r: nat, i: nat, j: nat) returns (k: nat)
    requires 2 <= i < p < (r + 1) * (r + 1) && p == i * j
    ensures 2 <= k <= r && p % k == 0
  {
    FactorApart(p, i, j);
    if i <= r {
      ModUnique(p, i, j, 0);
      k := i;
    } else {
      if j > r {
        MulMono(i, r + 1, j);
        MulMono(r + 1, r + 1, i);
      }
      ModUnique(p, j, i, 0);
      k := j;
    }
  }

  lemma FactorApart(p: nat, i: nat, j: nat)
    requires 2 <= i < p && p == i * j
    ensures j >= 2
  {
    if j <= 1 {
      MulMono(i, j, 1);
    }
  }

  /** A number without a divisor up to its square root has none at all. */
  lemma SmallDivisor(p: nat, r: nat)
    requires p >= 2 && p < (r + 1) * (r + 1)
    requires forall i :: 2 <= i <= r ==> p % i != 0
    ensures IsPrime(p)
  {
    if i :| 2 <= i < p && p % i == 0 {
      var k := SmallFactor(p, r, i, p / i);
    }
  }

  /** The first trial-division loop of get_prime. */
  method TrialDivision(p: nat) returns (flag: bool)
    ensures flag <==> p < 2 || IsPrime(p)
  {
    flag := true;
    var i := 2;
    while i <= ISqrt(p)
      invariant 2 <= i
      invariant forall k :: 2 <= k < i && k <= ISqrt(p) ==> p % k != 0
      decreases ISqrt(p) + 1 - i
    {
      if p % i == 0 {
        MulMono(ISqrt(p), 2, ISqrt(p));
        assert i < p;
        flag := false;
        return;
      }
      i := i + 1;
    }
    if p >= 2 {
      SmallDivisor(p, ISqrt(p));
    }
  }

  // ------------------------------------------------------------ key search

  /** The draws of get_encrypt_key are given; the first coprime one is accepted. */
  method GetEncryptKey(P: int, draws: seq<nat>) returns (e: int)
    requires P > 0
    ensures e == -1 ==> forall k :: 0 <= k < |draws| ==> Gcd(draws[k] % P, P) != 1
    ensures e != -1 ==> 0 <= e < P && Gcd(e, P) == 1
    ensures e != -1 ==> exists k :: 0 <= k < |draws| && e == draws[k] % P &&
                                    forall l :: 0 <= l < k ==> Gcd(draws[l] % P, P) != 1
  {
    var n := 0;
    while n < |draws|
      invariant 0 <= n <= |draws|
      invariant forall k :: 0 <= k < n ==> Gcd(draws[k] % P, P) != 1
    {
      e := draws[n] % P;
      if Gcd(e, P) == 1 {
        return;
      }
      n := n + 1;
    }
    e := -1;
  }

  ghost predicate IsInverse(d: int, e: int, P: int)
    requires P > 0
  {
    (d * e) % P == 1
  }

  lemma CoprimeHasInverse(P: int, e: nat) returns (d: int)
    requires P >= 2 && Gcd(e, P) == 1
    ensures 1 <= d < P && IsInverse(d, e, P)
  {
    var s, t := Bezout(e, P);
    d := s % P;
    ModShift(1, P, -t);
    assert s * e == 1 + P * -t;
    ModUnique(1, P, 0, 1);
    ModMulLeft(s, e, P);
    if d == 0 {
      ModUnique(0, P, 0, 0);
    }
  }

  lemma InverseIsCoprime(P: int, e: nat, d: int)
    requires P >= 2 && IsInverse(d, e, P)
    ensures Gcd(e, P) == 1
  {
    GcdIsGreatest(e, P);
    var g := Gcd(e, P);
    var q := (d * e) / P;
    ModLinear(e, P, d, -q, g);
    assert d * e + -q * P == 1;
    if g > 1 {
      ModUnique(1, g, 0, 1);
    }
  }

  /** A key has an inverse in [1, P) exactly when it is coprime to P >= 2. */
  lemma InverseExists(P: int, e: nat)
    requires P >= 2
    ensures Gcd(e, P) == 1 <==> exists d :: 1 <= d < P && IsInverse(d, e, P)
  {
    if Gcd(e, P) == 1 {
      var d := CoprimeHasInverse(P, e);
    }
    if d :| 1 <= d < P && IsInverse(d, e, P) {
      InverseIsCoprime(P, e, d);
    }
  }

  /** The least inverse of e, or -1 exactly when the key generator would have to retry;
      a key accepted by get_encrypt_key never makes it retry. */
  method GetDecryptKey(P: int, e: int) returns (r: int)
    requires 0 <= e < TWO31 && P < TWO31
    ensures r != -1 ==> 1 <= r < P && IsInverse(r, e, P)
    ensures forall d :: 1 <= d < (if r == -1 then P else r) ==> !IsInverse(d, e, P)
    ensures P >= 2 ==> (r == -1 <==> Gcd(e, P) != 1)
  {
    var d := 1;
    while d < P
      invariant 1 <= d
      invariant forall k :: 1 <= k < d && k < P ==> !IsInverse(k, e, P)
    {
      ProductFits(d, e);
      var prod := U64(U64(d) * U64(e));
      if prod % P == 1 {
        assert IsInverse(d, e, P);
        if P >= 2 { InverseExists(P, e); }
        r := d;
        return;
      }
      d := d + 1;
    }
    if P >= 2 { InverseExists(P, e); }
    r := -1;
  }

  lemma ProductFits(x: int, y: int)
    requires 0 <= x < TWO31 && 0 <= y < TWO31
    ensures U64(x) == x && U64(y) == y && U64(x * y) == x * y
  {
    MulMono(x, y, TWO31);
    MulMono(TWO31, x, TWO31);
    assert 0 <= x * y < TWO64;
    ModUnique(x, TWO64, 0, x);
    ModUnique(y, TWO64, 0, y);
    ModUnique(x * y, TWO64, 0, x * y);
  }

  // -------------------------------------------------------- exponentiation

  /** What the loop of encrypt and decrypt leaves in `res`, wrap-around included. */
  function ModExp(N: int, e: int, m: int): (r: nat)
    requires N > 0
    ensures r < N || r == 1
    decreases e, N, m
  {
    if e <= 0 then 1 else U64(ModExp(N, e - 1, m) * U64(m)) % N
  }

  /** For keys and messages in range no product leaves 64 bits, so the loop computes
      the mathematical power. */
  lemma {:induction false} ModExpIsPower(N: int, e: nat, m: int)
    requires 1 < N < TWO31 && 0 <= m < TWO31
    ensures ModExp(N, e, m) == Pow(m, e) % N
    ensures forall i :: 0 <= i <= e ==> ModExp(N, i, m) * m < TWO64
  {
    var x := ModExp(N, e, m);
    ProductFits(x, m);
    ModUnique(x * m, TWO64, 0, x * m);
    if e == 0 {
      ModUnique(1, N, 0, 1);
    } else {
      ModExpIsPower(N, e - 1, m);
      ProductFits(ModExp(N, e - 1, m), m);
      ModMulLeft(Pow(m, e - 1), m, N);
    }
  }

  method Encrypt(N: int, e: int, message: byte) returns (res: int)
    requires 0 < N < TWO31
    ensures res == ModExp(N, e, message)
  {
    res := 1;
    var i := 0;
    while i < e
      invariant 0 <= i && (0 <= e ==> i <= e) && (e < 0 ==> i == 0)
      invariant res == ModExp(N, i, message)
    {
      res := U64(res * U64(message)) % N;
      i := i + 1;
    }
  }

  /** The result is narrowed to uint8_t. */
  method Decrypt(N: int, d: int, encrypted: int) returns (m: byte)
    requires 0 < N < TWO31
    ensures m == ModExp(N, d, encrypted) % 256
  {
    var res := 1;
    var i := 0;
    while i < d
      invariant 0 <= i && (0 <= d ==> i <= d) && (d < 0 ==> i == 0)
      invariant res == ModExp(N, i, encrypted)
    {
      res := U64(res * U64(encrypted)) % N;
      i := i + 1;
    }
    m := res % 256;
  }

  ghost predicate KeyPair(p: int, q: int, e: int, d: int) {
    && IsPrime(p) && IsPrime(q) && p != q
    && p * q < TWO31
    && 0 <= e && 0 <= d
    && (p - 1) * (q - 1) > 0
    && IsInverse(d, e, (p - 1) * (q - 1))
  }

  /** Both exponents undo each other modulo p, for P == (p - 1) * r. */
  lemma PowerRoundTripPrime(p: int, r: int, e: nat, d: nat, m: int)
    requires IsPrime(p) && r > 0 && (p - 1) * r > 0 && IsInverse(d, e, (p - 1) * r)
    ensures (Pow(Pow(m, e), d) - m) % p == 0
  {
    var P := (p - 1) * r;
    var k := d * e / P;
    assert d * e == P * k + 1;
    MulMono(d, 0, e);
    if k < 0 {
      MulMono(P, k, -1);
    }
    assert k >= 0;
    MulMono(r, 0, k);
    MulAssoc(p - 1, r, k);
    PowPow(m, e, d);
    assert e * d == d * e;
    PowIdentity(m, p, d * e, r * k);
    ModDiff(Pow(m, d * e), m, p);
  }

  lemma MulAssoc(a: int, b: int, c: int)
    ensures (a * b) * c == a * (b * c)
  {
  }

  /** Raising to e and then to d is the identity modulo p*q, multiples of p or q included. */
  lemma PowerRoundTrip(p: int, q: int, e: int, d: int, m: int)
    requires KeyPair(p, q, e, d)
    ensures p * q > 1 && Pow(Pow(m, e), d) % (p * q) == m % (p * q)
  {
    PowerRoundTripPrime(p, q - 1, e, d, m);
    assert (p - 1) * (q - 1) == (q - 1) * (p - 1);
    PowerRoundTripPrime(q, p - 1, e, d, m);
    PrimesDivideJointly(Pow(Pow(m, e), d) - m, p, q);
    ModDiff(Pow(Pow(m, e), d), m, p * q);
    MulMono(p, 2, q);
  }

  /** Decryption of an encrypted message in 64-bit arithmetic is the message modulo p*q. */
  lemma CipherInverse(p: int, q: int, e: int, d: int, m: int)
    requires KeyPair(p, q, e, d) && 0 <= m < TWO31
    ensures p * q > 1 && ModExp(p * q, d, ModExp(p * q, e, m)) == m % (p * q)
  {
    PowerRoundTrip(p, q, e, d, m);
    var N := p * q;
    ModExpIsPower(N, e, m);
    ModExpIsPower(N, d, ModExp(N, e, m));
    PowMod(Pow(m, e), d, N);
  }

  /** decrypt returns what encrypt was given exactly when the byte is below the modulus. */
  lemma CipherRoundTrip(p: int, q: int, e: int, d: int, m: byte)
    requires KeyPair(p, q, e, d)
    ensures p * q > 1
    ensures ModExp(p * q, d, ModExp(p * q, e, m)) % 256 == m <==> m < p * q
  {
    CipherInverse(p, q, e, d, m);
    var N := p * q;
    if m < N {
      ModUnique(m, N, 0, m);
    }
    ModUnique(m % N, 256, 0, m % N);
  }

  /** One round of key_generator after the two primes are drawn: once a candidate is
      accepted the retry branch is never taken and every byte survives the cipher. */
  method KeyGenerator(p: int, q: int, draws: seq<nat>) returns (e: int, d: int)
    requires IsPrime(p) && IsPrime(q) && p != q && 255 < p * q < TWO31
    ensures e == -1 <==> forall k :: 0 <= k < |draws| ==> Gcd(draws[k] % TotientOf(p, q), TotientOf(p, q)) != 1
    ensures e != -1 ==> 1 <= d < TotientOf(p, q) && KeyPair(p, q, e, d)
    ensures e != -1 ==> forall m: byte :: ModExp(p * q, d, ModExp(p * q, e, m)) % 256 == m
  {
    var P := (p - 1) * (q - 1);
    assert P == TotientOf(p, q) && 2 <= P < p * q;
    e := GetEncryptKey(P, draws);
    d := -1;
    if e != -1 {
      d := GetDecryptKey(P, e);
      forall m: byte
        ensures ModExp(p * q, d, ModExp(p * q, e, m)) % 256 == m
      {
        CipherRoundTrip(p, q, e, d, m);
      }
    }
  }

  function TotientOf(p: int, q: int): (P: int)
    requires p >= 2 && q >= 2 && p != q
    ensures 2 <= P < p * q
  {
    MulMono(p - 1, 1, q - 1);
    MulMono(q - 1, 1, p - 1);
    assert p * q == (p - 1) * (q - 1) + (p - 1) + (q - 1) + 1;
    (p - 1) * (q - 1)
  }

  // --------------------------------------------------------- the fixed key

  const SNAPSHOT_N: int := 1483513
  const SNAPSHOT_E: int := 28969

  /** The constants written into save and read: the modulus is 1021 * 1453, both prime,
      and 409 is a password that opens every snapshot. */
  lemma SnapshotKey()
    ensures SNAPSHOT_N == 1021 * 1453
    ensures KeyPair(1021, 1453, SNAPSHOT_E, 409)
  {
    assert forall i :: 2 <= i <= 31 ==> 1021 % i != 0;
    SmallDivisor(1021, 31);
    assert forall i :: 2 <= i <= 38 ==> 1453 % i != 0;
    SmallDivisor(1453, 38);
    ModUnique(409 * SNAPSHOT_E, 1020 * 1452, 8, 1);
  }
}
