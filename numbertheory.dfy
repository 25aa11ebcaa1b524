/** The number theory behind textbook RSA: primes, Euclid's lemma, the
    binomial theorem, Fermat's little theorem and the exponent identity
    `m^(e*d) == m (mod p*q)` that makes decryption undo encryption. */
module NumberTheory {
  import opened Arith

  ghost predicate IsPrime(p: nat)
  {
    p >= 2 && forall d :: 2 <= d < p ==> p % d != 0
  }

  lemma ModEqDivides(a: int, b: int, n: nat)
    requires n > 0
    ensures a % n == b % n <==> Divides(n, a - b)
  {
    assert a - b == n * (a / n - b / n) + (a % n - b % n);
    if a % n == b % n {
      ModOfMultiple(n, a / n - b / n);
    } else if a % n > b % n {
      DivModUnique(a - b, n, a / n - b / n, a % n - b % n);
    } else {
      DivModUnique(a - b, n, a / n - b / n - 1, n + a % n - b % n);
    }
  }

  lemma DivisorAtMost(d: nat, a: nat)
    requires d > 0 && a > 0 && Divides(d, a)
    ensures d <= a
  {
    if d > a {
      DivModUnique(a, d, 0, a);
    }
  }

  lemma PrimeCoprime(p: nat, a: nat)
    requires IsPrime(p) && !Divides(p, a)
    ensures Gcd(a, p) == 1
  {
    var g := Gcd(a, p);
    GcdDivides(a, p);
    DivisorAtMost(g, p);
  }

  /** Euclid's lemma: a prime dividing a product divides one of its factors. */
  lemma EuclidLemma(p: nat, a: int, b: int)
    requires IsPrime(p) && Divides(p, a * b)
    ensures Divides(p, a) || Divides(p, b)
  {
    var a' := a % p;
    if a' != 0 {
      ModIdempotent(a, p);
      PrimeCoprime(p, a');
      var (g, x, y) := ExtGcd(a', p);
      ModMulLeft(a, b, p);
      BezoutCancel(p, a', b, x, y);
    }
  }

  /** If `u*x + p*y == 1` then `p` dividing `u*b` divides `b`. */
  lemma BezoutCancel(p: nat, u: int, b: int, x: int, y: int)
    requires p > 0 && Divides(p, u * b) && u * x + p * y == 1
    ensures Divides(p, b)
  {
    assert b == (u * b) * x + p * (b * y) by {
      assert b * (u * x + p * y) == (u * b) * x + p * (b * y);
    }
    ModOfMultiple(p, b * y);
    DividesLinear(p, u * b, p * (b * y), x);
  }

  lemma DividesProduct(d: nat, a: int, k: int)
    requires Divides(d, a)
    ensures Divides(d, a * k) && Divides(d, k * a)
  {
    DividesSelf(d);
    DividesLinear(d, a, 0, k);
  }

  lemma DividesSum(d: nat, a: int, b: int)
    requires Divides(d, a) && Divides(d, b)
    ensures Divides(d, a + b) && Divides(d, a - b)
  {
    DividesLinear(d, a, b, 1);
    DividesLinear(d, b, a, -1);
    assert b * -1 + a == a - b;
  }

  // ---------------------------------------------------------------------
  // Binomial coefficients

  function Binom(n: nat, k: nat): nat
  {
    if k == 0 then 1 else if n == 0 then 0 else Binom(n - 1, k - 1) + Binom(n - 1, k)
  }

  lemma {:induction false} BinomBeyond(n: nat, k: nat)
    requires k > n
    ensures Binom(n, k) == 0
  {
    if n > 0 {
      BinomBeyond(n - 1, k - 1);
      BinomBeyond(n - 1, k);
    }
  }

  lemma {:induction false} BinomOne(n: nat)
    ensures Binom(n, 1) == n
  {
    if n > 0 {
      BinomOne(n - 1);
    }
  }

  /** `k * C(n, k) == n * C(n-1, k-1)`. */
  lemma {:induction false} BinomAbsorb(n: nat, k: nat)
    requires n >= 1 && k >= 1
    ensures k * Binom(n, k) == n * Binom(n - 1, k - 1)
  {
    if k == 1 {
      BinomOne(n);
    } else if n == 1 {
      BinomBeyond(1, k);
      BinomBeyond(0, k - 1);
    } else {
      // k*C(n,k) = k*C(n-1,k-1) + k*C(n-1,k)
      //          = C(n-1,k-1) + (n-1)*C(n-2,k-2) + (n-1)*C(n-2,k-1)
      //          = C(n-1,k-1) + (n-1)*C(n-1,k-1)
      BinomAbsorb(n - 1, k - 1);
      BinomAbsorb(n - 1, k);
      AbsorbAlgebra(n, k, Binom(n - 1, k - 1), Binom(n - 1, k),
                    Binom(n - 2, k - 2), Binom(n - 2, k - 1));
    }
  }

  lemma AbsorbAlgebra(n: int, k: int, a: int, b: int, c: int, d: int)
    requires (k - 1) * a == (n - 1) * c && k * b == (n - 1) * d && a == c + d
    ensures k * (a + b) == n * a
  {
    assert k * (a + b) == a + (k - 1) * a + k * b;
    assert (n - 1) * c + (n - 1) * d == (n - 1) * a;
  }

  lemma PrimeDividesBinom(p: nat, k: nat)
    requires IsPrime(p) && 0 < k < p
    ensures Divides(p, Binom(p, k))
  {
    BinomAbsorb(p, k);
    ModOfMultiple(p, Binom(p - 1, k - 1));
    EuclidLemma(p, k, Binom(p, k));
    if Divides(p, k) {
      DivModUnique(k, p, 0, k);
    }
  }

  /** `sum_{j < k} C(n, j) * x^j`. */
  function BinomSum(x: int, n: nat, k: nat): int
  {
    if k == 0 then 0 else BinomSum(x, n, k - 1) + Binom(n, k - 1) * Pow(x, k - 1)
  }

  lemma {:induction false} BinomSumPascal(x: int, n: nat, k: nat)
    ensures BinomSum(x, n + 1, k + 1) == BinomSum(x, n, k + 1) + x * BinomSum(x, n, k)
  {
    if k > 0 {
      BinomSumPascal(x, n, k - 1);
      PascalAlgebra(x, BinomSum(x, n, k), BinomSum(x, n, k - 1),
                    Binom(n, k - 1), Binom(n, k), Pow(x, k - 1));
    }
  }

  lemma PascalAlgebra(x: int, s2: int, s3: int, b1: int, b2: int, w: int)
    ensures s2 + x * s3 + (b1 + b2) * (x * w) == (s2 + b2 * (x * w)) + x * (s3 + b1 * w)
  {
    assert (b1 + b2) * (x * w) == b1 * (x * w) + b2 * (x * w);
    assert x * (s3 + b1 * w) == x * s3 + b1 * (x * w);
  }

  /** The binomial theorem for `(x + 1)^n`. */
  lemma {:induction false} BinomialTheorem(x: int, n: nat)
    ensures Pow(x + 1, n) == BinomSum(x, n, n + 1)
  {
    if n > 0 {
      var s := BinomSum(x, n - 1, n);
      BinomialTheorem(x, n - 1);
      BinomSumPascal(x, n - 1, n);
      BinomBeyond(n - 1, n);
      assert BinomSum(x, n - 1, n + 1) == s;
      assert Pow(x + 1, n) == (x + 1) * s == s + x * s;
    }
  }

  lemma {:induction false} BinomSumModPrime(x: int, p: nat, k: nat)
    requires IsPrime(p) && 1 <= k <= p
    ensures Divides(p, BinomSum(x, p, k) - 1)
  {
    if k == 1 {
      assert BinomSum(x, p, 1) == 1;
    } else {
      BinomSumModPrime(x, p, k - 1);
      PrimeDividesBinom(p, k - 1);
      DividesProduct(p, Binom(p, k - 1), Pow(x, k - 1));
      DividesSum(p, BinomSum(x, p, k - 1) - 1, Binom(p, k - 1) * Pow(x, k - 1));
    }
  }

  /** `(x + 1)^p == x^p + 1 (mod p)`. */
  lemma FreshmansDream(x: int, p: nat)
    requires IsPrime(p)
    ensures Divides(p, Pow(x + 1, p) - Pow(x, p) - 1)
  {
    var s := BinomSum(x, p, p);
    BinomSumModPrime(x, p, p);
    assert Pow(x + 1, p) == s + Pow(x, p) by {
      BinomialTheorem(x, p);
      BinomAbsorbTop(p);
      assert BinomSum(x, p, p + 1) == s + Binom(p, p) * Pow(x, p);
    }
    assert Pow(x + 1, p) - Pow(x, p) - 1 == s - 1;
  }

  lemma {:induction false} BinomAbsorbTop(n: nat)
    ensures Binom(n, n) == 1
  {
    if n > 0 {
      BinomAbsorbTop(n - 1);
      BinomBeyond(n - 1, n);
    }
  }

  /** Fermat's little theorem: `x^p == x (mod p)`. */
  lemma {:induction false} Fermat(x: nat, p: nat)
    requires IsPrime(p)
    ensures Divides(p, Pow(x, p) - x)
  {
    if x == 0 {
      PowAdd(0, 1, p - 1);
      DividesSelf(p);
    } else {
      Fermat(x - 1, p);
      FreshmansDream(x - 1, p);
      DividesSum(p, Pow(x, p) - Pow(x - 1, p) - 1, Pow(x - 1, p) - (x - 1));
    }
  }

  /** `m^(p-1) == 1 (mod p)` when `p` does not divide `m`. */
  lemma FermatCoprime(m: nat, p: nat)
    requires IsPrime(p) && !Divides(p, m)
    ensures Divides(p, Pow(m, p - 1) - 1)
  {
    Fermat(m, p);
    assert Pow(m, p) == m * Pow(m, p - 1);
    assert Pow(m, p) - m == m * (Pow(m, p - 1) - 1);
    EuclidLemma(p, m, Pow(m, p - 1) - 1);
  }

  /** `m^(1 + (p-1)*t) == m (mod p)` for every `m`, divisible by `p` or not. */
  lemma PrimeExponent(m: nat, p: nat, t: nat)
    requires IsPrime(p)
    ensures Divides(p, Pow(m, 1 + (p - 1) * t) - m)
  {
    var k := (p - 1) * t;
    var big := Pow(m, k);
    if Divides(p, m) {
      DividesProduct(p, m, big);
      DividesSum(p, m * big, m);
    } else {
      FermatPower(m, p, t);
      DividesProduct(p, big - 1, m);
      assert (big - 1) * m == m * big - m;
    }
    assert Pow(m, 1 + k) == m * big;
  }

  /** `m^((p-1)*t) == 1 (mod p)` when `p` does not divide `m`. */
  lemma FermatPower(m: nat, p: nat, t: nat)
    requires IsPrime(p) && !Divides(p, m)
    ensures Divides(p, Pow(m, (p - 1) * t) - 1)
  {
    FermatCoprime(m, p);
    PowMul(m, p - 1, t);
    PowOfOneModulo(Pow(m, p - 1), t, p);
  }

  /** A power of something congruent to 1 is congruent to 1. */
  lemma PowOfOneModulo(b: int, t: nat, p: nat)
    requires p > 0 && Divides(p, b - 1)
    ensures Divides(p, Pow(b, t) - 1)
  {
    ModEqDivides(b, 1, p);
    PowModBase(b, t, p);
    PowModBase(1, t, p);
    PowOne(t);
    ModEqDivides(Pow(b, t), 1, p);
  }

  lemma {:induction false} PowOne(t: nat)
    ensures Pow(1, t) == 1
  {
    if t > 0 {
      PowOne(t - 1);
    }
  }

  /** Two distinct primes that both divide `x` divide it together. */
  lemma CoprimeProduct(p: nat, q: nat, x: int)
    requires IsPrime(p) && IsPrime(q) && p != q
    requires Divides(p, x) && Divides(q, x)
    ensures Divides(p * q, x)
  {
    var t := x / p;
    assert x == p * t;
    EuclidLemma(q, p, t);
    if Divides(q, p) {
      DivisorAtMost(q, p);
    }
    assert t == q * (t / q);
    assert x == (p * q) * (t / q);
    ModOfMultiple(p * q, t / q);
  }

  lemma TotientAtLeastTwo(p: nat, q: nat)
    requires IsPrime(p) && IsPrime(q) && p != q
    ensures (p - 1) * (q - 1) >= 2
  {
    if p == 2 {
      MulMonotone(q - 1, 1, p - 1);
    } else {
      MulMonotone(p - 1, 1, q - 1);
    }
  }

  /** `e*d == 1 (mod a*b)` makes `e*d` one more than a multiple of both
      `a` and `b`. */
  lemma ExponentShape(ed: nat, a: nat, b: nat) returns (sa: nat, sb: nat)
    requires a * b >= 2 && ed % (a * b) == 1 % (a * b)
    ensures ed == 1 + a * sa
    ensures ed == 1 + b * sb
  {
    var t := OneMoreThanMultiple(ed, a * b);
    sa, sb := b * t, a * t;
    assert (a * b) * t == b * (a * t) == a * (b * t);
  }

  lemma OneMoreThanMultiple(x: nat, n: nat) returns (t: nat)
    requires n >= 2 && x % n == 1 % n
    ensures x == n * t + 1
  {
    t := x / n;
    DivModSplit(x, n);
  }

  /** The RSA exponent identity: if `e*d == 1 (mod (p-1)*(q-1))` then
      `m^(e*d) == m (mod p*q)` for every `m < p*q`. */
  lemma RsaExponent(m: nat, e: nat, d: nat, p: nat, q: nat)
    requires IsPrime(p) && IsPrime(q) && p != q
    requires (e * d) % ((p - 1) * (q - 1)) == 1 % ((p - 1) * (q - 1))
    requires m < p * q
    ensures Pow(m, e * d) % (p * q) == m
  {
    var ed := e * d;
    TotientAtLeastTwo(p, q);
    var sp, sq := ExponentShape(ed, p - 1, q - 1);
    PrimeExponent(m, p, sp);
    PrimeExponent(m, q, sq);
    var x := Pow(m, ed) - m;
    CoprimeProduct(p, q, x);
    ModRecovers(Pow(m, ed), m, p * q);
  }

  /** A residue that is already below the modulus is its own remainder. */
  lemma ModRecovers(a: int, m: nat, n: nat)
    requires m < n && Divides(n, a - m)
    ensures a % n == m
  {
    ModEqDivides(a, m, n);
    DivModUnique(m, n, 0, m);
  }
}
