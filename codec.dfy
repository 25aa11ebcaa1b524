/** The conversions of `rsa/message.py`: the big-endian byte codec and the
    hexadecimal and binary numerals built on it. */
module Codec {
  import opened Wrappers
  import opened Arith

  // ---------------------------------------------------------------------
  // Big-endian bytes and integers

  /** `int.from_bytes(bts, 'big')`: below `256^|bts|`. */
  function BytesToInt(bts: seq<Byte>): (r: nat)
    ensures r < Pow(256, |bts|)
  {
    if bts == [] then 0
    else
      var v := BytesToInt(bts[..|bts| - 1]);
      MulMonotone(256, v, Pow(256, |bts| - 1) - 1);
      v * 256 + bts[|bts| - 1]
  }

  /** `i.to_bytes(length, 'big')`; Python raises when `i` does not fit. */
  function ToBytes(i: nat, length: nat): (r: seq<Byte>)
    requires i < Pow(256, length)
    ensures |r| == length && BytesToInt(r) == i
  {
    if length == 0 then []
    else
      var r := ToBytes(i / 256, length - 1) + [i % 256];
      assert r[..|r| - 1] == ToBytes(i / 256, length - 1);
      r
  }

  /** `int_to_bytes(i)`: the shortest big-endian encoding of `i`. */
  function IntToBytes(i: nat): (r: seq<Byte>)
    ensures |r| == ByteLength(i) && BytesToInt(r) == i
  {
    ByteLengthFits(i);
    ToBytes(i, ByteLength(i))
  }

  lemma IntToBytesStep(i: nat)
    ensures IntToBytes(i) == if i == 0 then [] else IntToBytes(i / 256) + [i % 256]
  {
    ByteLengthStep(i);
  }

  /** Zero encodes to no bytes, and no encoding starts with a zero byte. */
  lemma {:induction false} IntToBytesCanonical(i: nat)
    ensures IntToBytes(i) == [] <==> i == 0
    ensures IntToBytes(i) != [] ==> IntToBytes(i)[0] != 0
  {
    IntToBytesStep(i);
    if i > 0 {
      IntToBytesCanonical(i / 256);
    }
  }

  /** Bytes survive a trip through an integer exactly when they do not
      start with a zero byte. */
  lemma {:induction false} BytesRoundTrip(b: seq<Byte>)
    ensures IntToBytes(BytesToInt(b)) == b <==> (b == [] || b[0] != 0)
  {
    IntToBytesCanonical(BytesToInt(b));
    if b != [] && b[0] != 0 {
      var v := BytesToInt(b);
      var init := b[..|b| - 1];
      BytesRoundTrip(init);
      assert init == [] || init[0] != 0;
      if v == 0 {
        NonzeroFirstByte(b);
      }
      DivModUnique(v, 256, BytesToInt(init), b[|b| - 1]);
      IntToBytesStep(v);
    }
  }

  /** Without a leading zero byte, `b` has exactly `|b|` base-256 digits. */
  lemma LeadingByteBound(b: seq<Byte>)
    ensures b != [] && b[0] != 0 ==> Pow(256, |b| - 1) <= BytesToInt(b)
  {
    if b != [] && b[0] != 0 {
      BytesRoundTrip(b);
      NonzeroFirstByte(b);
      ByteLengthMinimal(BytesToInt(b));
    }
  }

  lemma {:induction false} NonzeroFirstByte(b: seq<Byte>)
    requires b != [] && b[0] != 0
    ensures BytesToInt(b) > 0
  {
    if |b| > 1 {
      NonzeroFirstByte(b[..|b| - 1]);
    }
  }

  /** A leading zero byte does not change the value, so it is lost. */
  lemma {:induction false} LeadingZeroLost(b: seq<Byte>)
    ensures BytesToInt([0] + b) == BytesToInt(b)
  {
    if b != [] {
      assert ([0] + b)[..|b|] == [0] + b[..|b| - 1];
      LeadingZeroLost(b[..|b| - 1]);
    }
  }

  // ---------------------------------------------------------------------
  // Numerals: digits of `format(i, 'x')`, `format(i, 'b')`, `int(s, base)`

  /** The lower-case digit for `d`, as `format` writes it. */
  function DigitChar(d: nat): (c: char)
    requires d < 16
  {
    if d < 10 then ('0' as int + d) as char else ('a' as int + d - 10) as char
  }

  /** The value of a hexadecimal digit in either case, as `int` and
      `bytes.fromhex` read it. */
  function DigitValue(c: char): Option<nat>
  {
    if '0' <= c <= '9' then Some(c as int - '0' as int)
    else if 'a' <= c <= 'f' then Some(c as int - 'a' as int + 10)
    else if 'A' <= c <= 'F' then Some(c as int - 'A' as int + 10)
    else None
  }

  lemma DigitRoundTrip(d: nat)
    requires d < 16
    ensures DigitValue(DigitChar(d)) == Some(d)
  {
  }

  /** `c` is one of the digits `format` writes for `base`. */
  predicate IsLowerDigit(c: char, base: nat)
  {
    ('0' <= c <= '9' && c as int - '0' as int < base)
    || ('a' <= c <= 'f' && c as int - 'a' as int + 10 < base)
  }

  /** Every character of `s` is a digit `format` writes for `base`. */
  predicate AllDigits(s: string, base: nat)
  {
    forall k :: 0 <= k < |s| ==> IsLowerDigit(s[k], base)
  }

  lemma DigitCharIsDigit(d: nat, base: nat)
    requires d < base <= 16
    ensures IsLowerDigit(DigitChar(d), base)
    ensures DigitChar(d) == '0' <==> d == 0
  {
  }

  /** `format(i, 'x')` for base 16 and `format(i, 'b')` for base 2. */
  function Format(i: nat, base: nat): (r: string)
    requires 2 <= base <= 16
    ensures r != []
    ensures AllDigits(r, base)
    ensures r[0] == '0' <==> i == 0
    ensures i == 0 ==> r == "0"
  {
    if i < base then
      DigitCharIsDigit(i, base);
      [DigitChar(i)]
    else
      QuotientBounds(i, base);
      var init := Format(i / base, base);
      var last := DigitChar(i % base);
      DigitCharIsDigit(i % base, base);
      AppendDigit(init, last, base);
      init + [last]
  }

  /** Dividing by a base `n >= 2` leaves a smaller, positive quotient. */
  lemma QuotientBounds(i: nat, n: nat)
    requires 2 <= n <= i
    ensures 0 < i / n < i && i % n < n
  {
    DivModSplit(i, n);
  }

  lemma AppendDigit(s: string, c: char, base: nat)
    requires s != [] && IsLowerDigit(c, base)
    requires AllDigits(s, base)
    ensures AllDigits(s + [c], base)
    ensures (s + [c])[0] == s[0]
  {
  }

  /** `c` is a digit that `int(_, base)` and `bytes.fromhex` accept. */
  predicate IsDigitOf(c: char, base: nat)
  {
    DigitValue(c).Some? && DigitValue(c).value < base
  }

  /** Every character of `s` is a digit of `base`, in either case. */
  predicate ValidDigits(s: string, base: nat)
  {
    forall k :: 0 <= k < |s| ==> IsDigitOf(s[k], base)
  }

  lemma ValidDigitsLast(s: string, base: nat)
    requires s != []
    ensures ValidDigits(s, base) <==> ValidDigits(s[..|s| - 1], base) && IsDigitOf(s[|s| - 1], base)
  {
    var init := s[..|s| - 1];
    assert forall k :: 0 <= k < |init| ==> init[k] == s[k];
  }

  lemma ValidDigitsFirstTwo(h: string, base: nat)
    requires |h| >= 2
    ensures ValidDigits(h, base) <==>
      IsDigitOf(h[0], base) && IsDigitOf(h[1], base) && ValidDigits(h[2..], base)
  {
    var rest := h[2..];
    assert forall k :: 2 <= k < |h| ==> h[k] == rest[k - 2];
  }

  /** The value of a digit string, or `None` if some character is not a
      digit of `base`. */
  function ParseDigits(s: string, base: nat): Option<nat>
  {
    if s == [] then Some(0)
    else
      match (ParseDigits(s[..|s| - 1], base), DigitValue(s[|s| - 1]))
      case (Some(v), Some(d)) => if d < base then Some(v * base + d) else None
      case _ => None
  }

  /** A digit string parses exactly when every character is a digit of
      `base`, and its value has no more digits than the string. */
  lemma {:induction false} ParseDigitsValid(s: string, base: nat)
    requires base >= 2
    ensures ParseDigits(s, base).Some? <==> ValidDigits(s, base)
    ensures ParseDigits(s, base).Some? ==> ParseDigits(s, base).value < Pow(base, |s|)
  {
    if s != [] {
      var init, c := s[..|s| - 1], s[|s| - 1];
      ParseDigitsValid(init, base);
      ValidDigitsLast(s, base);
      var r := ParseDigits(init, base);
      if r.Some? && IsDigitOf(c, base) {
        var d := DigitValue(c).value;
        assert ParseDigits(s, base) == Some(r.value * base + d);
        AppendDigitBound(r.value, d, base, Pow(base, |init|));
      } else {
        assert ParseDigits(s, base).None?;
      }
    }
  }

  lemma AppendDigitBound(v: nat, d: nat, base: nat, p: nat)
    requires v < p && d < base
    ensures v * base + d < base * p
  {
    MulMonotone(base, v, p - 1);
  }

  /** `int(s, base)`: fails on the empty string and on non-digits. */
  function Parse(s: string, base: nat): (r: Option<nat>)
    requires 2 <= base
    ensures r.Some? <==> s != [] && ValidDigits(s, base)
    ensures r.Some? ==> r.value < Pow(base, |s|)
  {
    ParseDigitsValid(s, base);
    if s == [] then None else ParseDigits(s, base)
  }

  lemma ParseDigitsAppend(s: string, v: nat, d: nat, base: nat, n: nat)
    requires d < base <= 16 && ParseDigits(s, base) == Some(v) && n == v * base + d
    ensures ParseDigits(s + [DigitChar(d)], base) == Some(n)
  {
    var t := s + [DigitChar(d)];
    assert t[..|t| - 1] == s;
    DigitRoundTrip(d);
  }

  lemma {:induction false} ParseFormat(i: nat, base: nat)
    requires 2 <= base <= 16
    ensures Parse(Format(i, base), base) == Some(i)
  {
    if i < base {
      assert Format(i, base) == [] + [DigitChar(i)];
      ParseDigitsAppend([], 0, i, base, i);
    } else {
      ParseFormat(i / base, base);
      ParseFormatStep(i, base);
    }
  }

  lemma ParseFormatStep(i: nat, base: nat)
    requires 2 <= base <= 16 && i >= base
    requires Parse(Format(i / base, base), base) == Some(i / base)
    ensures Parse(Format(i, base), base) == Some(i)
  {
    var q, d := i / base, i % base;
    DivModSplit(i, base);
    var init := Format(q, base);
    assert Format(i, base) == init + [DigitChar(d)];
    ParseDigitsAppend(init, q, d, base, i);
  }

  /** `int_to_hex(i)`. */
  function IntToHex(i: nat): (r: string)
    ensures r != [] && (r[0] == '0' ==> r == "0")
    ensures HexToInt(r) == Some(i)
  {
    ParseFormat(i, 16);
    Format(i, 16)
  }

  /** `hex_to_int(h)`: fails exactly on the empty string and on a
      character that is not a hexadecimal digit. */
  function HexToInt(h: string): (r: Option<nat>)
    ensures r.Some? <==> h != [] && ValidDigits(h, 16)
    ensures r.Some? ==> r.value < Pow(16, |h|)
  {
    Parse(h, 16)
  }

  // ---------------------------------------------------------------------
  // Hexadecimal bytes: `bytes.hex` and `bytes.fromhex`

  /** `bytes_to_hex(b)`: two lower-case digits per byte. */
  function BytesToHex(b: seq<Byte>): (r: string)
    ensures |r| == 2 * |b|
    ensures forall k :: 0 <= k < |r| ==> IsLowerDigit(r[k], 16)
  {
    if b == [] then ""
    else [DigitChar(b[0] / 16), DigitChar(b[0] % 16)] + BytesToHex(b[1..])
  }

  /** `hex_to_bytes(h)`: fails exactly on an odd number of digits or a
      non-digit, and otherwise gives one byte per two digits. */
  function HexToBytes(h: string): (r: Option<seq<Byte>>)
    ensures r.Some? <==> |h| % 2 == 0 && ValidDigits(h, 16)
    ensures r.Some? ==> 2 * |r.value| == |h|
  {
    if h == [] then Some([])
    else if |h| == 1 then None
    else
      ValidDigitsFirstTwo(h, 16);
      match (DigitValue(h[0]), DigitValue(h[1]), HexToBytes(h[2..]))
      case (Some(hi), Some(lo), Some(rest)) =>
        if hi < 16 && lo < 16 then Some([hi * 16 + lo] + rest) else None
      case _ => None
  }

  lemma {:induction false} HexRoundTrip(b: seq<Byte>)
    ensures HexToBytes(BytesToHex(b)) == Some(b)
  {
    if b != [] {
      HexRoundTrip(b[1..]);
      DigitRoundTrip(b[0] / 16);
      DigitRoundTrip(b[0] % 16);
      var h := BytesToHex(b);
      assert h[0] == DigitChar(b[0] / 16) && h[1] == DigitChar(b[0] % 16);
      assert h[2..] == BytesToHex(b[1..]);
      assert (b[0] / 16) * 16 + b[0] % 16 == b[0];
      assert [b[0]] + b[1..] == b;
    }
  }

  lemma {:induction false} OddHexRejected(h: string)
    requires |h| % 2 == 1
    ensures HexToBytes(h) == None
  {
    if |h| > 1 {
      OddHexRejected(h[2..]);
    }
  }
}
