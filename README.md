# Textbook RSA, modelled in Dafny

This project models the core of a small Python RSA package.

`rsa.py` holds the number-theoretic kernel:
- the iterative extended Euclidean algorithm `xgcd`;
- the modular inverse `mulinv`;
- `generate_keypair`, which assembles `(d, n)` and `(e, n)` from two primes and a public exponent;
- a little-endian byte/integer codec;
- `encrypt` and `decrypt`, which are a single modular exponentiation each.

`rsa/message.py` holds:
- a big-endian codec and the hexadecimal helpers;
- the length-prefix loop of `read_key`, which splits an OpenSSH public-key blob into its fields;
- class `Message`, a mutable byte payload. It has integer, hexadecimal and binary views, in-place `encrypt`/`decrypt`, and `sign`/`verify`.

The model is split into these modules:

| module | file | what it holds |
|---|---|---|
| `Wrappers` | `wrappers.dfy` | `Option`, `Result` and the exceptions the source raises, as error values |
| `Arith` | `arith.dfy` | powers, Euclid's gcd and its extended form, `bit_length`, and three-argument `pow` (`PowMod`) with a square-and-multiply method |
| `NumberTheory` | `numbertheory.dfy` | primes, Euclid's lemma, the binomial theorem, Fermat's little theorem and the RSA exponent identity |
| `Rsa` | `rsa.dfy` | `rsa.py` |
| `Codec` | `codec.dfy` | the big-endian codec and the hex and binary numerals of `rsa/message.py` |
| `KeyBlob` | `keyblob.dfy` | the field loop of `read_key` |
| `Messages` | `message.dfy` | class `Message` |

How the source's features become Dafny:
- **Exceptions become error values.** A call that raises in Python returns `Err(...)` or `None`. The exception is `Message.encrypt`/`decrypt`: their `pow(_, _, 0)` `ValueError` is the `false` result of `Messages.Message.Exponentiate`/`Encrypt`/`Decrypt`, with the payload unchanged. The error values cover:
  - the failed coprimality assertion in `mulinv`;
  - `pow(x, k, 0)` and `x % 0`;
  - a truncated length prefix (`struct.error`);
  - the wrong number of key fields (the `ValueError` of tuple unpacking);
  - the `ssh-rsa` assertion;
  - a malformed hex or binary string.
- **Loops become methods.** `xgcd` is the method `Rsa.Xgcd`, with loop invariants. The `read_key` loop is the method `KeyBlob.ReadKey`. Each is proved equal to a recursive reference definition (`Arith.ExtGcd`, `KeyBlob.Fields`).
- **`Message` becomes a class.** Its field `msg` is reassigned by `Encrypt`/`Decrypt`.
- **Everything else is pure functions.**

`int_to_bytes(0)` returns the empty byte string, because `(0).bit_length()` is 0. So `IntToBytes(0) == []` in both codecs.

## Model

| member | source | states |
|---|---|---|
| Rsa.Xgcd | rsa.py:4-11 | the loop returns exactly the extended-Euclid triple `ExtGcd(b, n)`: `b*x + n*y == g` and `g == gcd(b, n)`; invariants keep Bezout for both rows and the gcd across each simultaneous assignment |
| Arith.ExtGcd | rsa.py:4-11 | reference definition of the triple: first component is the gcd, and `a*x + b*y` equals it |
| Arith.GcdGreatest | rsa.py:4-11 | every common divisor of `a` and `b` divides the gcd, so `g` is the greatest common divisor |
| Arith.GcdDivides | rsa.py:4-11 | the gcd divides both inputs |
| Rsa.MulInv | rsa.py:14-18 | fails with the coprimality error exactly when `gcd(b, n) != 1`, fails on a zero modulus exactly when coprime and `n == 0`, and succeeds exactly when coprime and `n > 0`, with a result below `n` and `b*r == 1 (mod n)` |
| Rsa.GenerateKeypair | rsa.py:21-34 | for primes `p`, `q`: succeeds exactly when `gcd(e, phi) == 1`; public key is `(e, p*q)`, private key has modulus `p*q` and `d < phi` with `e*d == 1 (mod phi)` |
| Rsa.BytesToInt | rsa.py:37-38 | `int.from_bytes(bts, 'little')`: the value is below `256^len(bts)` |
| Rsa.ToBytes | rsa.py:41-42 | `to_bytes(i, length, 'little')` gives `length` bytes whose little-endian value is `i` |
| Rsa.IntToBytes | rsa.py:37-42 | length is `(bit_length + 7) // 8` and `bytes_to_int` of the result is `i` |
| Arith.BitLengthBounds | rsa.py:42 | `BitLength` is `int.bit_length()`: 0 exactly for 0, and `2^(k-1) <= i < 2^k` for `k = bit_length(i)` when `i > 0` |
| Arith.ByteLengthFits | rsa.py:42 | `i < 256^len`, so the chosen length always fits |
| Arith.ByteLengthMinimal | rsa.py:42 | for `i > 0`, `256^(len-1) <= i`, so no shorter length fits |
| Rsa.IntToBytesCanonical | rsa.py:41-42 | the encoding is empty exactly for zero and never ends in a zero byte |
| Rsa.BytesRoundTrip | rsa.py:37-42 | `int_to_bytes(bytes_to_int(b)) == b` if and only if `b` is empty or its last byte is nonzero |
| Rsa.TrailingZeroLost | rsa.py:37-38 | appending a zero byte does not change the little-endian value |
| Arith.PowMod | rsa.py:57 | three-argument `pow`: fails, with the zero-modulus error, exactly for modulus 0; otherwise the value is `a^k mod n` and below `n` |
| Arith.FastPowMod | rsa.py:57 | square-and-multiply loop equal to `PowMod` for every input |
| Rsa.Encrypt | rsa.py:53-57 | fails, with the zero-modulus error, exactly for modulus 0; otherwise the ciphertext is below `n` and is `m^e mod n` of the little-endian value |
| Rsa.Decrypt | rsa.py:60-63 | fails, with the zero-modulus error, exactly for modulus 0; otherwise the bytes' value is below `n` and is `c^d mod n`, and they have no trailing zero byte |
| NumberTheory.Fermat | rsa.py:53-63 | supporting lemma for `RsaExponent`, not a source function: Fermat's little theorem: `p` divides `x^p - x` for prime `p` |
| NumberTheory.EuclidLemma | rsa.py:53-63 | supporting lemma for `RsaExponent`, not a source function: a prime dividing a product divides a factor |
| NumberTheory.BinomialTheorem | rsa.py:53-63 | supporting lemma for `Fermat`, not a source function: `(x+1)^n` is the sum of `C(n,j) x^j` |
| NumberTheory.RsaExponent | rsa.py:53-63 | if `e*d == 1 (mod (p-1)(q-1))` for distinct primes, `m^(e*d) mod pq == m` for every `m < pq` |
| Rsa.DecryptUndoesEncrypt | rsa.py:53-63 | `(m^e mod n)^d mod n == m` for `m < n` |
| Rsa.RoundTrip | example.py:3-11 | for distinct primes and `e` coprime to `phi`, key generation succeeds and decrypting the encryption with the other key gives the message back, in both key orders, when its value is below `n` and it has no trailing zero byte |
| Rsa.TrailingZeroNotRestored | rsa.py:53-63 | `b'\x01\x00'` encrypts to 1 under `(17, 3233)` and decrypts to `b'\x01'`: the no-trailing-zero condition of the round trip is needed |
| Rsa.TextbookExample | rsa.py:21-63 | `p = 61, q = 53, e = 17` give `d = 2753`, `n = 3233`; `b'A'` encrypts to 2790 and decrypts back |
| Codec.BytesToInt | rsa/message.py:25-26 | `int.from_bytes(bts, 'big')`: the value is below `256^len(bts)` |
| Codec.ToBytes | rsa/message.py:29-30 | `to_bytes(i, length, 'big')` gives `length` bytes whose big-endian value is `i` |
| Codec.IntToBytes | rsa/message.py:25-30 | length is `(bit_length + 7) // 8` and `bytes_to_int` of the result is `i` |
| Codec.IntToBytesCanonical | rsa/message.py:29-30 | the encoding is empty exactly for zero and never starts with a zero byte |
| Codec.BytesRoundTrip | rsa/message.py:25-30 | `int_to_bytes(bytes_to_int(b)) == b` if and only if `b` is empty or its first byte is nonzero |
| Codec.LeadingZeroLost | rsa/message.py:25-26 | prefixing a zero byte does not change the big-endian value |
| Codec.Format | rsa/message.py:49-50 | `format(i, 'x')` / `format(i, 'b')`: nonempty, every character a lower-case digit of the base, starts with `'0'` exactly when `i == 0`, and is `"0"` for zero |
| Codec.ParseFormat | rsa/message.py:49-54 | `int(format(i, base), base) == i` |
| Codec.Parse | rsa/message.py:53-54 | `int(s, base)` for bases 2 and 16: fails exactly on the empty string or a character that is not a digit of the base, in either case; otherwise the value is below `base^len(s)` |
| Codec.IntToHex | rsa/message.py:49-54 | `int_to_hex` has no leading zero digit except for zero, and `hex_to_int` reads it back to `i` |
| Codec.HexToInt | rsa/message.py:53-54 | `hex_to_int` fails exactly on the empty string or a non-hex-digit; otherwise the value is below `16^len(h)` |
| Codec.BytesToHex | rsa/message.py:57-58 | two lower-case hex digits per byte |
| Codec.HexToBytes | rsa/message.py:61-62 | `hex_to_bytes` fails exactly on an odd number of characters or a non-hex-digit; otherwise it gives one byte per two digits |
| Codec.HexRoundTrip | rsa/message.py:57-62 | `hex_to_bytes(bytes_to_hex(b)) == b` for every byte string |
| Codec.OddHexRejected | rsa/message.py:61-62 | a hex string of odd length is rejected |
| KeyBlob.Fields | rsa/message.py:10-18 | reference definition of the field split: each field takes at least its 4-byte prefix, and the only failure is a short length prefix |
| KeyBlob.ReadKey | rsa/message.py:10-22 | the loop collects exactly `Fields(keydata)`; short prefix, field count other than 3 and a first field other than `ssh-rsa` are the three errors; otherwise the big-endian values of fields 2 and 3 |
| KeyBlob.FieldsRoundTrip | rsa/message.py:10-18 | splitting the RFC 4253 encoding of any list of fields, each shorter than 2^32 bytes, gives the list back |
| KeyBlob.ReadEncodedKey | rsa/message.py:10-22 | reading the blob that encodes `ssh-rsa`, `e` and `n` returns `(e, n)` |
| Messages.Message.constructor | rsa/message.py:75-76 | the payload is the given bytes |
| Messages.Message.FromInt | rsa/message.py:78-80 | the payload is `int_to_bytes(i)` and `int()` gives `i` back |
| Messages.Message.FromHex | rsa/message.py:82-84 | fails exactly when `bytes.fromhex` does; otherwise a new message holding the decoded bytes |
| Messages.Message.FromBinary | rsa/message.py:90-92 | fails exactly when `int(b, 2)` does; otherwise a new message whose `int()` is the parsed value |
| Messages.Message.Int | rsa/message.py:94-95 | `int()` is below `256^len(msg)`, and at least `256^(len(msg)-1)` when the first byte is nonzero |
| Messages.Message.Hex | rsa/message.py:100-101 | twice as many digits as bytes, and `from_hex` of it reproduces the payload |
| Messages.Message.Bin | rsa/message.py:103-104 | nonempty, a leading `'0'` exactly for value zero, and `int(bin(), 2) == int()` |
| Messages.Message.Bytes | rsa/message.py:106-107 | `bytes()` is the payload, and `int_to_bytes(int())` rebuilds it exactly when it does not start with a zero byte |
| Messages.Message.Equals | rsa/message.py:112-113 | two messages are equal exactly when their hex views are equal |
| Messages.Message.Exponentiate | rsa/message.py:118-126 | succeeds exactly for a positive modulus, then the payload becomes `int_to_bytes(old int()^k mod n)` and its value is below `n`; on failure the payload is unchanged |
| Messages.Message.Encrypt | rsa/message.py:118-121 | `encrypt` in place, with the contract of `Exponentiate` |
| Messages.Message.Decrypt | rsa/message.py:123-126 | `decrypt` in place, with the contract of `Exponentiate` |
| Messages.Message.Sign | rsa/message.py:128-131 | succeeds exactly for a positive modulus and returns a new message whose payload is `int_to_bytes(int()^d mod n)`, as `from_int` builds it; this message is not modified |
| Messages.Message.Verify | rsa/message.py:133-136 | fails, with the zero-modulus error, exactly for modulus 0; acceptance means `int() == sig^e mod n`, for a payload without a leading zero byte acceptance is equivalent to it, and a payload that starts with a zero byte is always rejected |
| Messages.BinaryRoundTrip | rsa/message.py:91-104 | `from_binary(m.bin())` parses, and restores the payload exactly when it does not start with a zero byte |
| Messages.PayloadRoundTrip | rsa/message.py:118-126 | encrypting then decrypting a payload below `n` with no leading zero byte gives it back |
| Messages.EncryptThenDecrypt | rsa/message.py:118-126 | `m.encrypt(public); m.decrypt(private)` leaves `m.msg` as it was |
| Messages.SignThenVerifyLeadingZero | rsa/message.py:128-136 | `Message(b'\x00\x01')`, signed with `(2753, 3233)`, is rejected by `verify` with `(17, 3233)`: the no-leading-zero condition of the sign/verify lemma is needed |
| Messages.VerifyAcceptsExactlySignature | rsa/message.py:128-136 | with matching keys, `verify` accepts a signature below `n` exactly when it is the one `sign` makes, `int()^d mod n` |

## Left out

- The random suppliers `random_prime` and `random_coprime` (module `primes`) are not part of this model. Their results `p`, `q` and `e` are parameters of `Rsa.GenerateKeypair`, and the `bits` argument is not modelled.
- Rsa.GenerateKeypair: requires `p` and `q` to be prime, which the random supplier guarantees. It does not require them to be distinct; the round-trip lemmas do.
- The UTF-8 helpers `str_to_bytes`, `bytes_to_str`, `str_to_int`, `int_to_str`, `str_to_hex`, `hex_to_str`, `Message.from_str` and `Message.str` are left out: they are text encoding with no RSA content.
- `Message.hash` (SHA-256) and `Message.__repr__` are left out: a foreign hash function and a debug string.
- `read_key` opening the file, splitting the line and base64-decoding the key are left out as I/O. `KeyBlob.ReadKey` starts from the decoded bytes.
- KeyBlob.ReadKey: a length prefix larger than the remaining data is cut short, as Python slicing does. The sign byte of an OpenSSH `mpint` is not treated specially, matching the source.
- Codec.HexToInt and Codec.Parse: Python's `int(s, base)` also accepts surrounding whitespace, underscores, a sign and a `0x`/`0b` prefix. The model accepts plain digit strings only.
- Codec.HexToBytes: `bytes.fromhex` also skips whitespace between digit pairs. The model accepts plain digit strings only.
- Rsa.Xgcd, Rsa.MulInv, Rsa.IntToBytes, Codec.IntToBytes and Messages.Message.FromInt take natural numbers. Negative arguments are not modelled. These include the ones that make `int_to_bytes` and `Message.from_int` raise `OverflowError`.
- Codec.Format and Codec.IntToHex take natural numbers. Python's `format(i, 'x')` returns a minus sign followed by the digits for a negative `i` instead of raising, and the model does not cover that case.
- Arith.PowMod: Python's `pow` with a negative modulus or exponent is not modelled; keys and messages here are natural numbers.
- `example.py`'s `print` and the 256-bit key size are left out: output, and randomness.
- Timing and padding attacks are out of scope: textbook RSA without padding is what the source implements.
