/** The length-prefixed field loop of `read_key` in `rsa/message.py`,
    run on the already base64-decoded key blob of an OpenSSH public key
    (RFC 4253 section 6.6: `string "ssh-rsa"`, `mpint e`, `mpint n`,
    each preceded by a 4-byte big-endian length). */
module KeyBlob {
  import opened Wrappers
  import opened Arith
  import Codec

  /** The ASCII bytes of `b'ssh-rsa'`. */
  const SshRsa: seq<Byte> := [0x73, 0x73, 0x68, 0x2d, 0x72, 0x73, 0x61]

  function Min(a: nat, b: nat): nat
  {
    if a <= b then a else b
  }

  /** The fields the loop collects. A length prefix that overstates what is
      left is cut short, as Python slicing does. */
  function Fields(keydata: seq<Byte>): (r: Result<seq<seq<Byte>>>)
    ensures r.Ok? ==> 4 * |r.value| <= |keydata|
    ensures r.Err? ==> r.error == ShortLengthPrefix
    decreases |keydata|
  {
    if keydata == [] then Ok([])
    else if |keydata| < 4 then Err(ShortLengthPrefix)
    else
      var end := Min(4 + Codec.BytesToInt(keydata[..4]), |keydata|);
      match Fields(keydata[end..])
      case Ok(rest) => Ok([keydata[4..end]] + rest)
      case Err(err) => Err(err)
  }

  /** `parts` followed by the outcome of parsing what is left. */
  function Prepend(parts: seq<seq<Byte>>, r: Result<seq<seq<Byte>>>): Result<seq<seq<Byte>>>
  {
    match r
    case Ok(rest) => Ok(parts + rest)
    case Err(err) => Err(err)
  }

  lemma PrependNothing(r: Result<seq<seq<Byte>>>)
    ensures Prepend([], r) == r
  {
    if r.Ok? {
      assert [] + r.value == r.value;
    }
  }

  lemma PrependAssoc(parts: seq<seq<Byte>>, more: seq<seq<Byte>>, r: Result<seq<seq<Byte>>>)
    ensures Prepend(parts, Prepend(more, r)) == Prepend(parts + more, r)
  {
    if r.Ok? {
      assert parts + (more + r.value) == (parts + more) + r.value;
    }
  }

  /** `read_key` from the decoded blob on: split the fields, check that there
      are three and that the first is `ssh-rsa`, and return the big-endian
      values of the exponent and modulus fields. */
  method ReadKey(keydata: seq<Byte>) returns (r: Result<(nat, nat)>)
    ensures Fields(keydata).Err? ==> r == Err(ShortLengthPrefix)
    ensures Fields(keydata).Ok? ==>
      var parts := Fields(keydata).value;
      r == if |parts| != 3 then Err(WrongFieldCount)
           else if parts[0] != SshRsa then Err(UnsupportedKeyFormat)
           else Ok((Codec.BytesToInt(parts[1]), Codec.BytesToInt(parts[2])))
  {
    var parts: seq<seq<Byte>> := [];
    var rest := keydata;
    PrependNothing(Fields(keydata));
    while rest != []
      invariant Fields(keydata) == Prepend(parts, Fields(rest))
      decreases |rest|
    {
      if |rest| < 4 {
        return Err(ShortLengthPrefix);
      }
      var dlen := Codec.BytesToInt(rest[..4]);
      var end := Min(dlen + 4, |rest|);
      PrependAssoc(parts, [rest[4..end]], Fields(rest[end..]));
      parts := parts + [rest[4..end]];
      rest := rest[end..];
    }
    assert parts + [] == parts;
    if |parts| != 3 {
      return Err(WrongFieldCount);
    }
    if parts[0] != SshRsa {
      return Err(UnsupportedKeyFormat);
    }
    return Ok((Codec.BytesToInt(parts[1]), Codec.BytesToInt(parts[2])));
  }

  // ---------------------------------------------------------------------
  // The writer side of the format, to state what the reader inverts

  /** A field as RFC 4253 writes it: a 4-byte big-endian length, then the data. */
  function EncodeField(data: seq<Byte>): (r: seq<Byte>)
    requires |data| < Pow(256, 4)
    ensures |r| == 4 + |data|
  {
    Codec.ToBytes(|data|, 4) + data
  }

  function EncodeFields(parts: seq<seq<Byte>>): seq<Byte>
    requires forall k :: 0 <= k < |parts| ==> |parts[k]| < Pow(256, 4)
  {
    if parts == [] then [] else EncodeField(parts[0]) + EncodeFields(parts[1..])
  }

  /** The loop reads back exactly the fields that were written. */
  lemma {:induction false} FieldsRoundTrip(parts: seq<seq<Byte>>)
    requires forall k :: 0 <= k < |parts| ==> |parts[k]| < Pow(256, 4)
    ensures Fields(EncodeFields(parts)) == Ok(parts)
  {
    if parts != [] {
      var blob := EncodeFields(parts);
      var head := parts[0];
      var prefix := Codec.ToBytes(|head|, 4);
      assert blob == prefix + head + EncodeFields(parts[1..]);
      assert blob[..4] == prefix;
      var end := 4 + |head|;
      assert blob[4..end] == head;
      assert blob[end..] == EncodeFields(parts[1..]);
      FieldsRoundTrip(parts[1..]);
      assert [head] + parts[1..] == parts;
    }
  }

  /** The blob of public key `(e, n)`, with both numbers in their shortest
      big-endian form. */
  function EncodeKey(e: nat, n: nat): seq<Byte>
    requires ByteLength(e) < Pow(256, 4) && ByteLength(n) < Pow(256, 4)
  {
    EncodeFields([SshRsa, Codec.IntToBytes(e), Codec.IntToBytes(n)])
  }

  /** Reading an encoded key gives back its three fields, so `ReadKey`
      returns `(e, n)`. */
  lemma ReadEncodedKey(e: nat, n: nat)
    requires ByteLength(e) < Pow(256, 4) && ByteLength(n) < Pow(256, 4)
    ensures Fields(EncodeKey(e, n)) == Ok([SshRsa, Codec.IntToBytes(e), Codec.IntToBytes(n)])
    ensures Codec.BytesToInt(Fields(EncodeKey(e, n)).value[1]) == e
    ensures Codec.BytesToInt(Fields(EncodeKey(e, n)).value[2]) == n
  {
    assert Pow(256, 4) == 4294967296 by {
      PowAdd(256, 2, 2);
      PowAdd(256, 1, 1);
    }
    FieldsRoundTrip([SshRsa, Codec.IntToBytes(e), Codec.IntToBytes(n)]);
  }
}
