/** The RSA kernel of `rsa.py`: the iterative extended Euclidean
    algorithm, the modular inverse, keypair assembly from supplied primes,
    the little-endian byte codec, and encryption and decryption. */
module Rsa {
  import opened Wrappers
  import opened Arith
  import opened NumberTheory

  /** `xgcd(b, n)`: the simultaneous-assignment loop, proved to compute the
      recursive extended Euclidean triple, hence Bezout coefficients of the gcd. */
  method Xgcd(b0: nat, n0: nat) returns (g: nat, x: int, y: int)
    ensures (g, x, y) == ExtGcd(b0, n0)
    ensures b0 * x + n0 * y == g && g == Gcd(b0, n0)
  {
    var b: nat, n: nat := b0, n0;
    var x0, x1, y0, y1 := 1, 0, 0, 1;
    while n != 0
      invariant b0 * x0 + n0 * y0 == b
      invariant b0 * x1 + n0 * y1 == n
      invariant Gcd(b, n) == Gcd(b0, n0)
      invariant ExtGcd(b0, n0) == Compose(ExtGcd(b, n), x0, x1, y0, y1)
      decreases n
    {
      var q := b / n;
      StepKeepsBezout(b0, n0, b, n, q, x0, x1, y0, y1);
      StepKeepsComposition(b, n, q, x0, x1, y0, y1);
      b, n := n, b % n;
      x0, x1 := x1, x0 - q * x1;
      y0, y1 := y1, y0 - q * y1;
    }
    return b, x0, y0;
  }

  /** Applies the loop's accumulated coefficient matrix to a triple. */
  function Compose(t: (nat, int, int), x0: int, x1: int, y0: int, y1: int): (nat, int, int)
  {
    (t.0, t.1 * x0 + t.2 * x1, t.1 * y0 + t.2 * y1)
  }

  lemma StepKeepsBezout(b0: int, n0: int, b: int, n: int, q: int,
                        x0: int, x1: int, y0: int, y1: int)
    requires n > 0 && q == b / n
    requires b0 * x0 + n0 * y0 == b && b0 * x1 + n0 * y1 == n
    ensures b0 * (x0 - q * x1) + n0 * (y0 - q * y1) == b % n
  {
    assert b % n == b - q * n;
    assert b0 * (x0 - q * x1) + n0 * (y0 - q * y1) == (b0 * x0 + n0 * y0) - q * (b0 * x1 + n0 * y1);
  }

  lemma StepKeepsComposition(b: nat, n: nat, q: int, x0: int, x1: int, y0: int, y1: int)
    requires n > 0 && q == b / n
    ensures Compose(ExtGcd(b, n), x0, x1, y0, y1)
         == Compose(ExtGcd(n, b % n), x1, x0 - q * x1, y1, y0 - q * y1)
  {
    var (g, x, y) := ExtGcd(n, b % n);
    assert ExtGcd(b, n) == (g, y, x - q * y);
    MatrixStep(x, y, q, x0, x1);
    MatrixStep(x, y, q, y0, y1);
  }

  lemma MatrixStep(x: int, y: int, q: int, u0: int, u1: int)
    ensures y * u0 + (x - q * y) * u1 == x * u1 + y * (u0 - q * u1)
  {
    assert (x - q * y) * u1 == x * u1 - q * y * u1;
    assert y * (u0 - q * u1) == y * u0 - q * y * u1;
  }

  /** `mulinv(b, n)`: the inverse of `b` modulo `n`, or the exception the
      source raises (the coprimality assertion, then `x % 0`). */
  function MulInv(b: nat, n: nat): (r: Result<nat>)
    ensures r == Err(NotCoprime) <==> Gcd(b, n) != 1
    ensures r == Err(ZeroModulus) <==> Gcd(b, n) == 1 && n == 0
    ensures r.Ok? <==> Gcd(b, n) == 1 && n > 0
    ensures r.Ok? ==> r.value < n && (b * r.value) % n == 1 % n
  {
    var (g, x, y) := ExtGcd(b, n);
    if g != 1 then Err(NotCoprime)
    else if n == 0 then Err(ZeroModulus)
    else
      InverseFromBezout(b, n, x, y);
      Ok(x % n)
  }

  lemma InverseFromBezout(b: int, n: int, x: int, y: int)
    requires n > 0 && b * x + n * y == 1
    ensures (b * (x % n)) % n == 1 % n
  {
    ModMulBoth(b, x, n);
    ModMulBoth(b, x % n, n);
    ModIdempotent(x, n);
    ModAddMultiple(b * x, n, y);
  }

  datatype Keypair = Keypair(private: Key, public: Key)

  /** `generate_keypair` from the primes `p`, `q` and the exponent `e` that
      the random suppliers would return. */
  function GenerateKeypair(p: nat, q: nat, e: nat): (r: Result<Keypair>)
    requires IsPrime(p) && IsPrime(q)
    ensures r.Ok? <==> Gcd(e, (p - 1) * (q - 1)) == 1
    ensures r.Err? ==> r.error == NotCoprime
    ensures r.Ok? ==>
      var phi := (p - 1) * (q - 1);
      && r.value.public == Key(e, p * q)
      && r.value.private.modulus == p * q
      && r.value.private.exponent < phi
      && (e * r.value.private.exponent) % phi == 1 % phi
  {
    var n := p * q;
    var phi: nat := (p - 1) * (q - 1);
    match MulInv(e, phi)
    case Ok(d) => Ok(Keypair(Key(d, n), Key(e, n)))
    case Err(err) => Err(err)
  }

  // ---------------------------------------------------------------------
  // The little-endian codec of rsa.py

  /** `int.from_bytes(bts, 'little')`: below `256^|bts|`. */
  function BytesToInt(bts: seq<Byte>): (r: nat)
    ensures r < Pow(256, |bts|)
  {
    if bts == [] then 0
    else
      var v := BytesToInt(bts[1..]);
      MulMonotone(256, v, Pow(256, |bts| - 1) - 1);
      bts[0] + 256 * v
  }

  /** `i.to_bytes(length, 'little')`; Python raises when `i` does not fit. */
  function ToBytes(i: nat, length: nat): (r: seq<Byte>)
    requires i < Pow(256, length)
    ensures |r| == length && BytesToInt(r) == i
  {
    if length == 0 then []
    else
      [i % 256] + ToBytes(i / 256, length - 1)
  }

  /** `int_to_bytes(i)`: the shortest little-endian encoding of `i`. */
  function IntToBytes(i: nat): (r: seq<Byte>)
    ensures |r| == ByteLength(i) && BytesToInt(r) == i
  {
    ByteLengthFits(i);
    ToBytes(i, ByteLength(i))
  }

  lemma IntToBytesStep(i: nat)
    ensures IntToBytes(i) == if i == 0 then [] else [i % 256] + IntToBytes(i / 256)
  {
    ByteLengthStep(i);
  }

  /** Zero encodes to no bytes, and no encoding ends in a zero byte. */
  lemma {:induction false} IntToBytesCanonical(i: nat)
    ensures IntToBytes(i) == [] <==> i == 0
    ensures IntToBytes(i) != [] ==> IntToBytes(i)[|IntToBytes(i)| - 1] != 0
  {
    IntToBytesStep(i);
    if i > 0 {
      IntToBytesCanonical(i / 256);
    }
  }

  /** Bytes survive a trip through an integer exactly when they do not end
      in a zero byte. */
  lemma {:induction false} BytesRoundTrip(b: seq<Byte>)
    ensures IntToBytes(BytesToInt(b)) == b <==> (b == [] || b[|b| - 1] != 0)
  {
    IntToBytesCanonical(BytesToInt(b));
    if b != [] && b[|b| - 1] != 0 {
      var v := BytesToInt(b);
      var rest := b[1..];
      BytesRoundTrip(rest);
      assert rest == [] || rest[|rest| - 1] != 0;
      if v == 0 {
        NonzeroLastByte(b);
      }
      DivModUnique(v, 256, BytesToInt(rest), b[0]);
      IntToBytesStep(v);
    }
  }

  lemma {:induction false} NonzeroLastByte(b: seq<Byte>)
    requires b != [] && b[|b| - 1] != 0
    ensures BytesToInt(b) > 0
  {
    if |b| > 1 {
      NonzeroLastByte(b[1..]);
    }
  }

  /** A trailing zero byte does not change the value, so it is lost. */
  lemma {:induction false} TrailingZeroLost(b: seq<Byte>)
    ensures BytesToInt(b + [0]) == BytesToInt(b)
  {
    if b != [] {
      assert (b + [0])[1..] == b[1..] + [0];
      TrailingZeroLost(b[1..]);
    }
  }

  // ---------------------------------------------------------------------
  // Encryption and decryption

  /** `encrypt(message, key)`: the little-endian value raised to the key's
      exponent modulo its modulus. */
  function Encrypt(message: seq<Byte>, key: Key): (r: Result<nat>)
    ensures r.Ok? <==> key.modulus > 0
    ensures r.Err? ==> r.error == ZeroModulus
    ensures r.Ok? ==> r.value < key.modulus
    ensures r.Ok? ==> r.value == Pow(BytesToInt(message), key.exponent) % key.modulus
  {
    PowMod(BytesToInt(message), key.exponent, key.modulus)
  }

  /** `decrypt(cipher, key)`: the little-endian bytes of `cipher^d mod n`. */
  function Decrypt(cipher: nat, key: Key): (r: Result<seq<Byte>>)
    ensures r.Ok? <==> key.modulus > 0
    ensures r.Err? ==> r.error == ZeroModulus
    ensures r.Ok? ==> BytesToInt(r.value) < key.modulus
    ensures r.Ok? ==> BytesToInt(r.value) == Pow(cipher, key.exponent) % key.modulus
    ensures r.Ok? ==> r.value == [] || r.value[|r.value| - 1] != 0
  {
    match PowMod(cipher, key.exponent, key.modulus)
    case Ok(m) =>
      IntToBytesCanonical(m);
      Ok(IntToBytes(m))
    case Err(err) => Err(err)
  }

  /** Raising to `e` then to `d` modulo `n = p*q` gives back every `m < n`. */
  lemma DecryptUndoesEncrypt(m: nat, e: nat, d: nat, p: nat, q: nat)
    requires IsPrime(p) && IsPrime(q) && p != q
    requires (e * d) % ((p - 1) * (q - 1)) == 1 % ((p - 1) * (q - 1))
    requires m < p * q
    ensures Pow(Pow(m, e) % (p * q), d) % (p * q) == m
  {
    var n := p * q;
    PowModBase(Pow(m, e), d, n);
    PowMul(m, e, d);
    RsaExponent(m, e, d, p, q);
  }

  /** `decrypt(encrypt(msg, public), private) == msg` for distinct primes,
      a message whose value is below the modulus and that does not end in a
      zero byte; and, RSA being symmetric, the same with the halves swapped. */
  lemma RoundTrip(p: nat, q: nat, e: nat, message: seq<Byte>)
    requires IsPrime(p) && IsPrime(q) && p != q
    requires Gcd(e, (p - 1) * (q - 1)) == 1
    requires BytesToInt(message) < p * q
    requires message == [] || message[|message| - 1] != 0
    ensures GenerateKeypair(p, q, e).Ok?
    ensures var kp := GenerateKeypair(p, q, e).value;
      && Encrypt(message, kp.public).Ok?
      && Decrypt(Encrypt(message, kp.public).value, kp.private) == Ok(message)
      && Encrypt(message, kp.private).Ok?
      && Decrypt(Encrypt(message, kp.private).value, kp.public) == Ok(message)
  {
    var kp := GenerateKeypair(p, q, e).value;
    var d := kp.private.exponent;
    var m := BytesToInt(message);
    assert p * q > 0 by { MulMonotone(p, 1, q); }
    DecryptUndoesEncrypt(m, e, d, p, q);
    assert d * e == e * d;
    DecryptUndoesEncrypt(m, d, e, p, q);
    BytesRoundTrip(message);
  }

  lemma ExamplePrimes()
    ensures IsPrime(61) && IsPrime(53)
  {
    assert forall d :: 2 <= d < 61 ==> 61 % d != 0;
    assert forall d :: 2 <= d < 53 ==> 53 % d != 0;
  }

  lemma ExampleKeypair()
    ensures IsPrime(61) && IsPrime(53)
    ensures GenerateKeypair(61, 53, 17) == Ok(Keypair(Key(2753, 3233), Key(17, 3233)))
  {
    ExamplePrimes();
    assert ExtGcd(17, 3120) == (1, -367, 2);
  }

  lemma ExampleEncrypt()
    ensures Encrypt([65], Key(17, 3233)) == Ok(2790)
  {
    assert BytesToInt([65]) == 65 by {
      assert [65][1..] == [];
    }
    // 65^17 by repeated squaring
    assert Pow(65, 1) == 65;
    PowAdd(65, 1, 1);
    PowAdd(65, 2, 2);
    PowAdd(65, 4, 4);
    PowAdd(65, 8, 8);
    PowAdd(65, 16, 1);
    assert Pow(65, 17) == 6599743590836592050933837890625;
  }

  /** The classic worked example: p = 61, q = 53, e = 17 give d = 2753,
      and 65 encrypts to 2790 and decrypts back. */
  lemma TextbookExample()
    ensures GenerateKeypair(61, 53, 17) == Ok(Keypair(Key(2753, 3233), Key(17, 3233)))
    ensures Encrypt([65], Key(17, 3233)) == Ok(2790)
    ensures Decrypt(2790, Key(2753, 3233)) == Ok([65])
  {
    ExampleKeypair();
    ExampleEncrypt();
    assert BytesToInt([65]) == 65 by {
      assert [65][1..] == [];
    }
    RoundTrip(61, 53, 17, [65]);
  }

  /** Without the no-trailing-zero requirement the round trip fails:
      `b'\x01\x00'` comes back as `b'\x01'` under the textbook keys. */
  lemma TrailingZeroNotRestored()
    ensures Encrypt([1, 0], Key(17, 3233)) == Ok(1)
    ensures Decrypt(1, Key(2753, 3233)) == Ok([1])
  {
    assert BytesToInt([1, 0]) == 1 by {
      assert [1, 0][1..] == [0];
      assert [0][1..] == [];
    }
    PowOne(17);
    PowOne(2753);
    IntToBytesStep(1);
    IntToBytesStep(0);
    assert IntToBytes(1) == [1];
    assert PowMod(1, 2753, 3233) == Ok(1);
    assert Decrypt(1, Key(2753, 3233)) == Ok(IntToBytes(1));
  }
}
