/** Exact integer arithmetic that both source files rely on: powers,
    Euclidean division facts, divisibility, the greatest common divisor and
    its Bezout coefficients, bit lengths, and Python's three-argument `pow`. */
module Arith {
  import opened Wrappers

  /** A byte, as stored in a Python `bytes` object. */
  type Byte = b: int | 0 <= b < 256

  function Pow(a: int, k: nat): int
  {
    if k == 0 then 1 else a * Pow(a, k - 1)
  }

  // ---------------------------------------------------------------------
  // Division and remainder (Dafny's `/` and `%` agree with Python's `//`
  // and `%` whenever the divisor is positive).

  lemma DivModSplit(i: nat, n: nat)
    requires n > 0
    ensures i == (i / n) * n + i % n
  {
  }

  lemma MulMonotone(n: int, s: int, t: int)
    requires n >= 0 && s <= t
    ensures n * s <= n * t
  {
    assert n * t - n * s == n * (t - s);
  }

  /** Quotient and remainder are the only pair with `a == n*q + r`, `0 <= r < n`. */
  lemma DivModUnique(a: int, n: int, q: int, r: int)
    requires n > 0 && 0 <= r < n && a == n * q + r
    ensures a / n == q && a % n == r
  {
    var q', r' := a / n, a % n;
    assert a == n * q' + r';
    if q' < q {
      MulMonotone(n, q' + 1, q);
      assert false;
    } else if q < q' {
      MulMonotone(n, q + 1, q');
      assert false;
    }
  }

  lemma ModAddMultiple(a: int, n: int, k: int)
    requires n > 0
    ensures (a + n * k) % n == a % n
  {
    assert a + n * k == n * (a / n + k) + a % n;
    DivModUnique(a + n * k, n, a / n + k, a % n);
  }

  lemma ModOfMultiple(n: int, k: int)
    requires n > 0
    ensures (n * k) % n == 0
  {
    ModAddMultiple(0, n, k);
  }

  lemma ModMulLeft(a: int, b: int, n: int)
    requires n > 0
    ensures (a * b) % n == ((a % n) * b) % n
  {
    assert a * b == (a % n) * b + n * ((a / n) * b);
    ModAddMultiple((a % n) * b, n, (a / n) * b);
  }

  lemma ModMulBoth(a: int, b: int, n: int)
    requires n > 0
    ensures (a * b) % n == ((a % n) * (b % n)) % n
  {
    ModMulLeft(a, b, n);
    ModMulLeft(b, a % n, n);
  }

  lemma ModIdempotent(a: int, n: int)
    requires n > 0
    ensures (a % n) % n == a % n
  {
    DivModUnique(a % n, n, 0, a % n);
  }

  lemma DivDiv(a: nat, b: nat, c: nat)
    requires b > 0 && c > 0
    ensures a / b / c == a / (b * c)
  {
    var q1, r1 := a / b, a % b;
    var q2, r2 := q1 / c, q1 % c;
    assert a == b * (c * q2 + r2) + r1;
    assert a == (b * c) * q2 + (b * r2 + r1);
    MulMonotone(b, r2, c - 1);
    DivModUnique(a, b * c, q2, b * r2 + r1);
  }

  // ---------------------------------------------------------------------
  // Powers

  lemma {:induction false} PowAdd(a: int, j: nat, k: nat)
    ensures Pow(a, j + k) == Pow(a, j) * Pow(a, k)
  {
    if j > 0 {
      PowAdd(a, j - 1, k);
    }
  }

  lemma {:induction false} PowMul(a: int, j: nat, k: nat)
    ensures Pow(a, j * k) == Pow(Pow(a, j), k)
  {
    if k > 0 {
      PowMul(a, j, k - 1);
      assert j * k == j + j * (k - 1);
      PowAdd(a, j, j * (k - 1));
    }
  }

  lemma {:induction false} PowPositive(a: int, k: nat)
    requires a > 0
    ensures Pow(a, k) > 0
  {
    if k > 0 {
      PowPositive(a, k - 1);
    }
  }

  lemma {:induction false} PowModBase(a: int, k: nat, n: int)
    requires n > 0
    ensures Pow(a % n, k) % n == Pow(a, k) % n
  {
    if k > 0 {
      PowModBase(a, k - 1, n);
      calc {
        Pow(a % n, k) % n;
        ((a % n) * Pow(a % n, k - 1)) % n;
        { ModMulBoth(a % n, Pow(a % n, k - 1), n); ModIdempotent(a, n); }
        ((a % n) * (Pow(a, k - 1) % n)) % n;
        { ModMulBoth(a, Pow(a, k - 1), n); }
        (a * Pow(a, k - 1)) % n;
      }
    }
  }

  // ---------------------------------------------------------------------
  // Divisibility and the greatest common divisor

  /** `d` divides `a`; zero divides only zero. */
  predicate Divides(d: nat, a: int)
  {
    if d == 0 then a == 0 else a % d == 0
  }

  lemma DividesLinear(d: nat, x: int, y: int, k: int)
    requires Divides(d, x) && Divides(d, y)
    ensures Divides(d, x * k + y)
  {
    if d > 0 {
      assert x == d * (x / d);
      assert y == d * (y / d);
      assert x * k + y == d * ((x / d) * k + y / d);
      ModOfMultiple(d, (x / d) * k + y / d);
    }
  }

  lemma DividesSelf(a: nat)
    ensures Divides(a, a) && Divides(a, 0)
  {
    if a > 0 {
      DivModUnique(a, a, 1, 0);
    }
  }

  /** Euclid's recursion; what it means is stated by `GcdDivides` and `GcdGreatest`. */
  function Gcd(a: nat, b: nat): nat
    decreases b
  {
    if b == 0 then a else Gcd(b, a % b)
  }

  lemma {:induction false} GcdDivides(a: nat, b: nat)
    ensures Divides(Gcd(a, b), a) && Divides(Gcd(a, b), b)
    decreases b
  {
    if b == 0 {
      DividesSelf(a);
    } else {
      GcdDivides(b, a % b);
      assert a == b * (a / b) + a % b;
      DividesLinear(Gcd(a, b), b, a % b, a / b);
    }
  }

  /** One step of the extended algorithm: coefficients for `(b, a % b)`
      give coefficients for `(a, b)`. */
  lemma BezoutStep(a: int, b: int, q: int, r: int, x: int, y: int, g: int)
    requires a == b * q + r && b * x + r * y == g
    ensures a * y + b * (x - q * y) == g
  {
    assert a * y == b * q * y + r * y;
    assert b * (x - q * y) == b * x - b * q * y;
  }

  /** The extended Euclidean algorithm written as a recursion: a triple
      `(g, x, y)` with `g` the gcd and `a*x + b*y == g`. */
  function ExtGcd(a: nat, b: nat): (r: (nat, int, int))
    ensures r.0 == Gcd(a, b)
    ensures a * r.1 + b * r.2 == r.0
    decreases b
  {
    if b == 0 then (a, 1, 0)
    else
      var (g, x, y) := ExtGcd(b, a % b);
      BezoutStep(a, b, a / b, a % b, x, y, g);
      (g, y, x - (a / b) * y)
  }

  /** Every common divisor of `a` and `b` divides their gcd. */
  lemma GcdGreatest(a: nat, b: nat, c: nat)
    requires Divides(c, a) && Divides(c, b)
    ensures Divides(c, Gcd(a, b))
  {
    var (g, x, y) := ExtGcd(a, b);
    DividesLinear(c, b, 0, y);
    DividesLinear(c, a, b * y, x);
    assert a * x + b * y == g;
  }

  // ---------------------------------------------------------------------
  // Bit and byte lengths (Python's `int.bit_length` and `(bit_length + 7) // 8`)

  function BitLength(i: nat): nat
  {
    if i == 0 then 0 else 1 + BitLength(i / 2)
  }

  /** The number of bytes `int_to_bytes` emits for `i`. */
  function ByteLength(i: nat): nat
  {
    (BitLength(i) + 7) / 8
  }

  lemma {:induction false} BitLengthBounds(i: nat)
    ensures i == 0 <==> BitLength(i) == 0
    ensures i > 0 ==> Pow(2, BitLength(i) - 1) <= i < Pow(2, BitLength(i))
  {
    if i > 0 {
      BitLengthBounds(i / 2);
    }
  }

  lemma {:induction false} BitLengthShift(i: nat, k: nat)
    ensures Pow(2, k) > 0
    ensures BitLength(i / Pow(2, k)) == if BitLength(i) >= k then BitLength(i) - k else 0
  {
    PowPositive(2, k);
    if k > 0 {
      BitLengthShift(i, k - 1);
      var x := i / Pow(2, k - 1);
      DivDiv(i, Pow(2, k - 1), 2);
      assert Pow(2, k) == Pow(2, k - 1) * 2;
      assert i / Pow(2, k) == x / 2;
      BitLengthBounds(x);
      if x > 0 {
        assert BitLength(x) == 1 + BitLength(x / 2);
      }
    }
  }

  /** Removing the low byte removes one byte of length. */
  lemma ByteLengthStep(i: nat)
    ensures i == 0 ==> ByteLength(i) == 0
    ensures i > 0 ==> ByteLength(i) == 1 + ByteLength(i / 256)
  {
    BitLengthBounds(i);
    BitLengthShift(i, 8);
    assert Pow(2, 8) == 256;
  }

  /** `ByteLength(i)` bytes are enough for `i` (so `to_bytes` never overflows)... */
  lemma {:induction false} ByteLengthFits(i: nat)
    ensures i < Pow(256, ByteLength(i))
  {
    ByteLengthStep(i);
    if i > 0 {
      ByteLengthFits(i / 256);
      MulMonotone(256, i / 256 + 1, Pow(256, ByteLength(i / 256)));
    }
  }

  /** ...and one byte fewer would not be. */
  lemma {:induction false} ByteLengthMinimal(i: nat)
    requires i > 0
    ensures Pow(256, ByteLength(i) - 1) <= i
  {
    ByteLengthStep(i);
    if i >= 256 {
      ByteLengthMinimal(i / 256);
      ByteLengthStep(i / 256);
      MulMonotone(256, Pow(256, ByteLength(i / 256) - 1), i / 256);
    }
  }

  // ---------------------------------------------------------------------
  // Python's `pow(a, k, n)` and RSA keys

  /** One half of an RSA keypair: the tuple `(exponent, modulus)` that both
      source files unpack. */
  datatype Key = Key(exponent: nat, modulus: nat)

  /** `pow(a, k, n)`: raises for a zero modulus, else lies in `[0, n)`. */
  function PowMod(a: nat, k: nat, n: nat): (r: Result<nat>)
    ensures r.Ok? <==> n > 0
    ensures r.Err? ==> r.error == ZeroModulus
    ensures r.Ok? ==> r.value < n && r.value == Pow(a, k) % n
  {
    if n == 0 then Err(ZeroModulus) else Ok(Pow(a, k) % n)
  }

  lemma PowSplit(b: int, e: nat)
    ensures Pow(b, e) == Pow(b * b, e / 2) * (if e % 2 == 1 then b else 1)
  {
    PowAdd(b, 2 * (e / 2), e % 2);
    PowMul(b, 2, e / 2);
    assert Pow(b, 2) == b * b;
  }

  lemma ModMulPow(x: int, y: int, j: nat, n: int)
    requires n > 0
    ensures (x * Pow(y % n, j)) % n == (x * Pow(y, j)) % n
  {
    ModMulBoth(x, Pow(y % n, j), n);
    PowModBase(y, j, n);
    ModMulBoth(x, Pow(y, j), n);
  }

  /** Square-and-multiply, the algorithm behind Python's built-in `pow`. */
  method FastPowMod(a: nat, k: nat, n: nat) returns (r: Result<nat>)
    ensures r == PowMod(a, k, n)
  {
    if n == 0 {
      return Err(ZeroModulus);
    }
    var acc: nat, base: nat, e: nat := 1 % n, a % n, k;
    ModMulLeft(1, Pow(a % n, k), n);
    PowModBase(a, k, n);
    while e > 0
      invariant acc < n && base < n
      invariant (acc * Pow(base, e)) % n == Pow(a, k) % n
      decreases e
    {
      PowSplit(base, e);
      var rest := Pow(base * base, e / 2);
      if e % 2 == 1 {
        assert acc * Pow(base, e) == (acc * base) * rest;
        ModMulLeft(acc * base, rest, n);
        acc := (acc * base) % n;
      } else {
        assert acc * Pow(base, e) == acc * rest;
      }
      ModMulPow(acc, base * base, e / 2, n);
      base := (base * base) % n;
      e := e / 2;
    }
    DivModUnique(acc, n, 0, acc);
    return Ok(acc);
  }
}
