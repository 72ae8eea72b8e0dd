/** Percent-encoding of path segments and of the Host header value
    (`printEncodedString` and the `HEX` macro of M2XStreamClient.cpp).
    A byte in the unreserved set of section 2.3 of RFC 3986 is written as it
    is; every other byte becomes `%` and two upper-case hexadecimal digits,
    as section 2.1 of RFC 3986 describes. */
module PercentEncoding {
  import opened Octets
  import opened Wrappers

  /** `A-Z a-z 0-9 - _ . ~`: the unreserved characters of RFC 3986. */
  predicate IsUnreserved(c: char) {
    ('A' <= c <= 'Z') || ('a' <= c <= 'z') || ('0' <= c <= '9') ||
    c == '-' || c == '_' || c == '.' || c == '~'
  }

  predicate IsUpperHexDigit(c: char) {
    ('0' <= c <= '9') || ('A' <= c <= 'F')
  }

  /** The value of an upper-case hexadecimal digit. */
  function HexValue(c: char): (v: int)
    ensures IsUpperHexDigit(c) ==> 0 <= v < 16
  {
    if c <= '9' then c as int - '0' as int else c as int - 'A' as int + 10
  }

  /** The `HEX` macro for any integer argument. In C its value is an `int`:
      the character code `t - 10 + 'A'` above 9, `t + '0'` otherwise. */
  function HexCode(t: int): int {
    if t > 9 then t - 10 + 'A' as int else t + '0' as int
  }

  /** The character whose code `HEX(d)` computes, for a nibble `d`. */
  function Hex(d: int): (c: char)
    requires 0 <= d < 16
    ensures c as int == HexCode(d)
    ensures IsUpperHexDigit(c) && HexValue(c) == d
  {
    HexCode(d) as char
  }

  /** Every upper-case hexadecimal digit is the digit of its own value. */
  lemma HexOfHexValue(c: char)
    requires IsUpperHexDigit(c)
    ensures Hex(HexValue(c)) == c
  {
  }

  /** What the encoder emits for one byte. The hexadecimal characters are the
      ones `HEX` computes; M2XStreamClient.cpp passes them to `print(int)`,
      see EncodeByteAsWritten for what that writes instead. */
  function EncodeByte(b: Octet): (r: string)
    ensures IsUnreserved(b) ==> r == [b]
    ensures !IsUnreserved(b) ==>
      |r| == 3 && r[0] == '%' && IsUpperHexDigit(r[1]) && IsUpperHexDigit(r[2]) &&
      16 * HexValue(r[1]) + HexValue(r[2]) == b as int
  {
    if IsUnreserved(b) then [b] else ['%', Hex(b as int / 16), Hex(b as int % 16)]
  }

  /** The encoding of a string: the concatenation of the encodings of its bytes.
      Its characters are all unreserved or `%`, so it holds no `/`, space,
      CR, LF or NUL and cannot break a request line out of shape. */
  function Enc(s: seq<Octet>): (r: string)
    ensures forall i :: 0 <= i < |r| ==> IsUnreserved(r[i]) || r[i] == '%'
  {
    if s == [] then [] else EncodeByte(s[0]) + Enc(s[1..])
  }

  /** Number of bytes of `s` that are not unreserved. */
  function ReservedCount(s: seq<Octet>): (n: nat)
    ensures n <= |s|
  {
    if s == [] then 0 else (if IsUnreserved(s[0]) then 0 else 1) + ReservedCount(s[1..])
  }

  /** Encoding distributes over concatenation, so the encoder may run byte by byte. */
  lemma {:induction false} EncAppend(a: seq<Octet>, b: seq<Octet>)
    ensures Enc(a + b) == Enc(a) + Enc(b)
  {
    if a != [] {
      assert (a + b)[0] == a[0] && (a + b)[1..] == a[1..] + b;
      EncAppend(a[1..], b);
      assert Enc(a + b) == EncodeByte(a[0]) + Enc(a[1..] + b);
    } else {
      assert a + b == b;
    }
  }

  /** Each non-unreserved byte grows by two characters; nothing else changes length. */
  lemma {:induction false} EncLength(s: seq<Octet>)
    ensures |Enc(s)| == |s| + 2 * ReservedCount(s)
  {
    if s != [] {
      EncLength(s[1..]);
    }
  }

  /** A string made only of unreserved bytes is its own encoding. */
  lemma {:induction false} EncUnreservedIsIdentity(s: seq<Octet>)
    requires forall i :: 0 <= i < |s| ==> IsUnreserved(s[i])
    ensures Enc(s) == s
  {
    if s != [] {
      EncUnreservedIsIdentity(s[1..]);
    }
  }

  /** The decoder the encoder is checked against. It accepts exactly the
      canonical form the encoder writes: unreserved characters, and `%XY`
      with upper-case digits naming a byte that is not unreserved. */
  function Decode(t: string): Option<seq<Octet>>
    decreases |t|
  {
    if t == [] then Some([])
    else if t[0] == '%' then
      if |t| >= 3 && IsUpperHexDigit(t[1]) && IsUpperHexDigit(t[2]) &&
         !IsUnreserved((16 * HexValue(t[1]) + HexValue(t[2])) as char)
      then
        match Decode(t[3..])
        case None => None
        case Some(rest) => Some([(16 * HexValue(t[1]) + HexValue(t[2])) as char] + rest)
      else None
    else if IsUnreserved(t[0]) then
      match Decode(t[1..])
      case None => None
      case Some(rest) => Some([t[0]] + rest)
    else None
  }

  /** Decoding undoes the encoding of one byte. */
  lemma DecodeEncodeByte(b: Octet, rest: string)
    ensures Decode(EncodeByte(b) + rest) ==
      match Decode(rest) case None => None case Some(r) => Some([b] + r)
  {
    var t := EncodeByte(b) + rest;
    if IsUnreserved(b) {
      assert t[0] == b && t[1..] == rest;
    } else {
      assert t[0] == '%' && t[3..] == rest;
      assert (16 * HexValue(t[1]) + HexValue(t[2])) as char == b;
    }
  }

  /** Round trip: decoding an encoding gives back the original bytes. */
  lemma {:induction false} DecodeEnc(s: seq<Octet>)
    ensures Decode(Enc(s)) == Some(s)
  {
    if s != [] {
      DecodeEnc(s[1..]);
      DecodeEncodeByte(s[0], Enc(s[1..]));
      assert [s[0]] + s[1..] == s;
    }
  }

  /** The other direction: whatever the decoder accepts is the encoding of
      what it decodes to, so the encoder's image is exactly the decoder's domain. */
  lemma {:induction false} EncDecode(t: string)
    requires Decode(t).Some?
    ensures Enc(Decode(t).value) == t
    decreases |t|
  {
    if t != [] {
      if t[0] == '%' {
        var v := 16 * HexValue(t[1]) + HexValue(t[2]);
        var b: Octet := v as char;
        EncDecode(t[3..]);
        assert v / 16 == HexValue(t[1]) && v % 16 == HexValue(t[2]);
        HexOfHexValue(t[1]);
        HexOfHexValue(t[2]);
        assert EncodeByte(b) == t[..3];
        assert Decode(t).value == [b] + Decode(t[3..]).value;
        assert t == t[..3] + t[3..];
      } else {
        EncDecode(t[1..]);
        assert Decode(t).value == [t[0]] + Decode(t[1..]).value;
        assert t == [t[0]] + t[1..];
      }
    }
  }

  /** Distinct strings have distinct encodings. */
  lemma EncInjective(a: seq<Octet>, b: seq<Octet>)
    requires Enc(a) == Enc(b)
    ensures a == b
  {
    DecodeEnc(a);
    DecodeEnc(b);
  }

  /** `printEncodedString` as written: `HEX(...)` is an `int`, so
      `print(HEX(...))` selects Arduino's `Print::print(int)`, which writes
      the decimal value of the character code instead of the character. */
  function EncodeByteAsWritten(b: Octet): (r: string)
    ensures IsUnreserved(b) ==> r == [b]
    ensures !IsUnreserved(b) ==>
      |r| == 5 && r[0] == '%' && forall i :: 1 <= i < 5 ==> IsDigit(r[i])
    ensures !IsUnreserved(b) ==>
      DecimalValue(r[1..3]) == HexCode(b as int / 16) && DecimalValue(r[3..5]) == HexCode(b as int % 16)
  {
    if IsUnreserved(b) then [b]
    else
      var x, y := HexCode(b as int / 16), HexCode(b as int % 16);
      PercentDecimalPair(x, y);
      "%" + IntToDecimal(x) + IntToDecimal(y)
  }

  /** `%` followed by two two-digit numbers: five characters, from which
      each number reads back. */
  lemma PercentDecimalPair(x: int, y: int)
    requires 10 <= x < 100 && 10 <= y < 100
    ensures var r := "%" + IntToDecimal(x) + IntToDecimal(y);
      |r| == 5 && r[0] == '%' && (forall i :: 1 <= i < 5 ==> IsDigit(r[i])) &&
      DecimalValue(r[1..3]) == x && DecimalValue(r[3..5]) == y
  {
    TwoDigitDecimal(x);
    TwoDigitDecimal(y);
    DecimalRoundTrip(x);
    DecimalRoundTrip(y);
    var r := "%" + IntToDecimal(x) + IntToDecimal(y);
    assert r[1..3] == NatToDecimal(x) && r[3..5] == NatToDecimal(y);
  }

  /** A space comes out as `%5048` (the codes of '2' and '0' printed in
      decimal) instead of `%20`, and that text does not decode to a space. */
  lemma SpaceAsWritten()
    ensures EncodeByteAsWritten(' ') == "%5048"
    ensures EncodeByte(' ') == "%20"
    ensures Decode(EncodeByteAsWritten(' ')) != Some([' '])
  {
    assert HexCode(2) == 50 && HexCode(0) == 48;
    assert NatToDecimal(5) == "5";
    assert NatToDecimal(50) == NatToDecimal(5) + "0" == "50";
    assert NatToDecimal(4) == "4";
    assert NatToDecimal(48) == NatToDecimal(4) + "8" == "48";
    var t := "%5048";
    assert t[1] == '5' && t[2] == '0';
    assert (16 * HexValue(t[1]) + HexValue(t[2])) as char == 'P';
  }
}
