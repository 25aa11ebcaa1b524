/** Class `Message` of `rsa/message.py`: a mutable byte payload with
    integer, hexadecimal and binary views through the big-endian codec,
    in-place encryption and decryption, and signing and verification. */
module Messages {
  import opened Wrappers
  import opened Arith
  import opened Codec
  import opened NumberTheory

  class Message {
    var msg: seq<Byte>

    /** `Message(bytes)`. */
    constructor (bytes: seq<Byte>)
      ensures msg == bytes
    {
      msg := bytes;
    }

    /** `Message.from_int(i)`: its integer view gives `i` back. */
    constructor FromInt(i: nat)
      ensures msg == IntToBytes(i) && Int() == i
    {
      msg := IntToBytes(i);
    }

    /** `Message.from_hex(h)`, or `None` where `bytes.fromhex` raises. */
    static method FromHex(h: string) returns (m: Option<Message>)
      ensures HexToBytes(h).None? ==> m.None?
      ensures HexToBytes(h).Some? ==> m.Some? && fresh(m.value) && m.value.msg == HexToBytes(h).value
    {
      var bytes := HexToBytes(h);
      if bytes.Some? {
        var created := new Message(bytes.value);
        m := Some(created);
      } else {
        m := None;
      }
    }

    /** `Message.from_binary(b)`, or `None` where `int(b, 2)` raises. */
    static method FromBinary(b: string) returns (m: Option<Message>)
      ensures Parse(b, 2).None? ==> m.None?
      ensures Parse(b, 2).Some? ==>
        m.Some? && fresh(m.value) && m.value.msg == IntToBytes(Parse(b, 2).value)
        && m.value.Int() == Parse(b, 2).value
    {
      var i := Parse(b, 2);
      if i.Some? {
        var created := new Message.FromInt(i.value);
        m := Some(created);
      } else {
        m := None;
      }
    }

    /** `int()`: the big-endian value of the payload, with as many base-256
        digits as there are bytes after any leading zero bytes. */
    function Int(): (r: nat)
      reads this
      ensures r < Pow(256, |msg|)
      ensures msg != [] && msg[0] != 0 ==> Pow(256, |msg| - 1) <= r
    {
      LeadingByteBound(msg);
      BytesToInt(msg)
    }

    /** `hex()`: two lower-case digits per byte, read back by `from_hex`. */
    function Hex(): (r: string)
      reads this
      ensures |r| == 2 * |msg|
      ensures HexToBytes(r) == Some(msg)
    {
      HexRoundTrip(msg);
      BytesToHex(msg)
    }

    /** `bin()`: binary digits of `int()`, no leading zero, `"0"` for zero. */
    function Bin(): (r: string)
      reads this
      ensures r != [] && (r[0] == '0' <==> Int() == 0) && (Int() == 0 ==> r == "0")
      ensures Parse(r, 2) == Some(Int())
    {
      ParseFormat(Int(), 2);
      Format(Int(), 2)
    }

    /** `bytes()`: the payload itself, which `from_int(int())` rebuilds
        exactly when it does not start with a zero byte. */
    function Bytes(): (r: seq<Byte>)
      reads this
      ensures r == msg
      ensures IntToBytes(Int()) == r <==> (r == [] || r[0] != 0)
    {
      BytesRoundTrip(msg);
      msg
    }

    /** `__eq__`: only the bytes count, so equal messages are exactly those
        with equal hexadecimal views. */
    predicate Equals(other: Message)
      reads this, other
      ensures Equals(other) <==> Hex() == other.Hex()
    {
      msg == other.msg
    }

    /** The shared body of `encrypt` and `decrypt`: replace the payload by
        the bytes of `pow(int(), k, n)`; `pow` raises for `n == 0`. */
    method Exponentiate(key: Key) returns (ok: bool)
      modifies this
      ensures ok <==> key.modulus > 0
      ensures ok ==> msg == IntToBytes(Pow(old(Int()), key.exponent) % key.modulus)
      ensures ok ==> Int() < key.modulus
      ensures !ok ==> msg == old(msg)
    {
      match PowMod(Int(), key.exponent, key.modulus)
      case Ok(c) =>
        msg := IntToBytes(c);
        ok := true;
      case Err(_) =>
        ok := false;
    }

    /** `encrypt(key)`: in place. */
    method Encrypt(key: Key) returns (ok: bool)
      modifies this
      ensures ok <==> key.modulus > 0
      ensures ok ==> msg == IntToBytes(Pow(old(Int()), key.exponent) % key.modulus)
      ensures ok ==> Int() < key.modulus
      ensures !ok ==> msg == old(msg)
    {
      ok := Exponentiate(key);
    }

    /** `decrypt(key)`: in place, the same computation with the other half. */
    method Decrypt(key: Key) returns (ok: bool)
      modifies this
      ensures ok <==> key.modulus > 0
      ensures ok ==> msg == IntToBytes(Pow(old(Int()), key.exponent) % key.modulus)
      ensures ok ==> Int() < key.modulus
      ensures !ok ==> msg == old(msg)
    {
      ok := Exponentiate(key);
    }

    /** `sign(key)`: a new message holding `int()^d mod n`; this one is
        left as it was. */
    method Sign(key: Key) returns (s: Option<Message>)
      ensures s.Some? <==> key.modulus > 0
      ensures s.Some? ==> fresh(s.value) && s.value.Int() == Pow(Int(), key.exponent) % key.modulus
      ensures s.Some? ==> s.value.msg == IntToBytes(Pow(Int(), key.exponent) % key.modulus)
    {
      var v := PowMod(Int(), key.exponent, key.modulus);
      if v.Ok? {
        var signature := new Message.FromInt(v.value);
        s := Some(signature);
      } else {
        s := None;
      }
    }

    /** `verify(signature, key)`: whether the signature raised to `e`
        reproduces these bytes; `pow` raises for `n == 0`. */
    function Verify(signature: Message, key: Key): (r: Result<bool>)
      reads this, signature
      ensures r.Ok? <==> key.modulus > 0
      ensures r.Err? ==> r.error == ZeroModulus
      ensures r.Ok? && r.value ==> Int() == Pow(signature.Int(), key.exponent) % key.modulus
      ensures r.Ok? && (msg == [] || msg[0] != 0) ==>
        (r.value <==> Int() == Pow(signature.Int(), key.exponent) % key.modulus)
      ensures r.Ok? && msg != [] && msg[0] == 0 ==> !r.value
    {
      BytesRoundTrip(msg);
      match PowMod(signature.Int(), key.exponent, key.modulus)
      case Ok(v) =>
        IntToBytesCanonical(v);
        Ok(msg == IntToBytes(v))
      case Err(err) => Err(err)
    }
  }

  // ---------------------------------------------------------------------
  // Properties of the representations and of the RSA operations on a Message

  /** `Message.from_binary(m.bin()) == m` exactly when the payload does not
      start with a zero byte. */
  lemma BinaryRoundTrip(m: Message)
    ensures Parse(m.Bin(), 2).Some?
    ensures IntToBytes(Parse(m.Bin(), 2).value) == m.msg <==> (m.msg == [] || m.msg[0] != 0)
  {
    BytesRoundTrip(m.msg);
  }

  /** Exponentiation by `e` then by `d` modulo `p*q` restores a value below
      the modulus, and so restores a payload without a leading zero byte. */
  lemma PayloadRoundTrip(b: seq<Byte>, e: nat, d: nat, p: nat, q: nat)
    requires IsPrime(p) && IsPrime(q) && p != q
    requires (e * d) % ((p - 1) * (q - 1)) == 1 % ((p - 1) * (q - 1))
    requires BytesToInt(b) < p * q
    requires b == [] || b[0] != 0
    ensures IntToBytes(Pow(BytesToInt(IntToBytes(Pow(BytesToInt(b), e) % (p * q))), d) % (p * q)) == b
  {
    var n := p * q;
    var m := BytesToInt(b);
    assert n > 0 by { MulMonotone(p, 1, q); }
    PowModBase(Pow(m, e), d, n);
    PowMul(m, e, d);
    RsaExponent(m, e, d, p, q);
    BytesRoundTrip(b);
  }

  /** `m.encrypt(public)` followed by `m.decrypt(private)` leaves `m` as it was. */
  method EncryptThenDecrypt(m: Message, e: nat, d: nat, p: nat, q: nat)
    requires IsPrime(p) && IsPrime(q) && p != q
    requires (e * d) % ((p - 1) * (q - 1)) == 1 % ((p - 1) * (q - 1))
    requires m.Int() < p * q
    requires m.msg == [] || m.msg[0] != 0
    modifies m
    ensures m.msg == old(m.msg)
  {
    assert p * q > 0 by { MulMonotone(p, 1, q); }
    PayloadRoundTrip(m.msg, e, d, p, q);
    var ok := m.Encrypt(Key(e, p * q));
    ok := m.Decrypt(Key(d, p * q));
  }

  /** With `e*d == 1 (mod (p-1)*(q-1))`, a signature below the modulus is
      accepted exactly when it is the one `sign` makes: `int()^d mod n`. */
  lemma VerifyAcceptsExactlySignature(m: Message, signature: Message, e: nat, d: nat, p: nat, q: nat)
    requires IsPrime(p) && IsPrime(q) && p != q
    requires (e * d) % ((p - 1) * (q - 1)) == 1 % ((p - 1) * (q - 1))
    requires m.Int() < p * q && signature.Int() < p * q
    requires m.msg == [] || m.msg[0] != 0
    ensures m.Verify(signature, Key(e, p * q)).Ok?
    ensures m.Verify(signature, Key(e, p * q)).value
        <==> signature.Int() == Pow(m.Int(), d) % (p * q)
  {
    var n := p * q;
    assert n > 0 by { MulMonotone(p, 1, q); }
    var s, v := signature.Int(), m.Int();
    BytesRoundTrip(m.msg);
    IntToBytesCanonical(v);
    // recovering the signature from its check value
    PowModBase(Pow(s, e), d, n);
    PowMul(s, e, d);
    RsaExponent(s, e, d, p, q);
    // recovering the message from its signature
    PowModBase(Pow(v, d), e, n);
    PowMul(v, d, e);
    assert d * e == e * d;
    RsaExponent(v, e, d, p, q);
    if m.Verify(signature, Key(e, p * q)).value {
      assert v == Pow(s, e) % n;
    }
  }

  /** A payload that starts with a zero byte never verifies, not even
      against its own signature: `Message(b'\x00\x01')` signed with the
      textbook private key `(2753, 3233)` is rejected by the public key
      `(17, 3233)`. */
  method SignThenVerifyLeadingZero() returns (r: Result<bool>)
    ensures r == Ok(false)
  {
    var m := new Message([0, 1]);
    var s := m.Sign(Key(2753, 3233));
    r := m.Verify(s.value, Key(17, 3233));
  }
}
