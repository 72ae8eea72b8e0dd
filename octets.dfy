/** Bytes, NUL-terminated C strings and decimal text, as the client sees them.
    A byte is a character whose code fits in 8 bits and is read as unsigned
    (0..255); the signedness of `char` on the target platform is not modelled. */
module Octets {

  /** One byte of a C string or of the network stream. */
  type Octet = c: char | c as int < 256

  /** A NUL-terminated character buffer: what a `const char*` points at.
      Only the bytes before the first NUL are its content. */
  type CStr = s: seq<Octet> | '\0' in s witness ['\0']

  /** Position of the first occurrence of `c` in `s`. */
  function IndexOf(s: seq<char>, c: char): (k: nat)
    requires c in s
    ensures k < |s| && s[k] == c
    ensures forall i :: 0 <= i < k ==> s[i] != c
  {
    if s[0] == c then 0 else 1 + IndexOf(s[1..], c)
  }

  /** A separator that follows a head free of it is found right after the head. */
  lemma IndexOfAfterHead(x: seq<char>, y: seq<char>, c: char)
    requires c !in x && y != [] && y[0] == c
    ensures IndexOf(x + y, c) == |x|
  {
    assert (x + y)[|x|] == c;
  }

  /** Position of the first NUL in `s`: where `strlen` stops. */
  function NulIndex(s: seq<char>): (k: nat)
    requires '\0' in s
    ensures k < |s| && s[k] == '\0'
    ensures forall i :: 0 <= i < k ==> s[i] != '\0'
  {
    IndexOf(s, '\0')
  }

  /** The string a `const char*` denotes: everything before the terminator. */
  function Content(s: CStr): (r: seq<Octet>)
    ensures '\0' !in r
    ensures r + ['\0'] <= s
  {
    s[..NulIndex(s)]
  }

  predicate IsDigit(c: char) {
    '0' <= c <= '9'
  }

  /** `c - '0'` in C: the digit's value for a digit, something else otherwise. */
  function DigitValue(c: char): int {
    c as int - '0' as int
  }

  function DigitChar(d: int): (c: char)
    requires 0 <= d < 10
    ensures IsDigit(c) && DigitValue(c) == d
  {
    (d + '0' as int) as char
  }

  /** Folds text into a number the way the status parser does:
      `value * 10 + (c - '0')` for each character in turn. */
  function DecimalValue(s: seq<char>): int {
    if s == [] then 0 else DecimalValue(s[..|s| - 1]) * 10 + DigitValue(s[|s| - 1])
  }

  /** Decimal rendering of a natural number, most significant digit first. */
  function NatToDecimal(n: nat): (s: string)
    ensures |s| >= 1
    ensures forall i :: 0 <= i < |s| ==> IsDigit(s[i])
    ensures s[0] == '0' ==> n == 0
    decreases n
  {
    (if n < 10 then "" else NatToDecimal(n / 10)) + [DigitChar(n % 10)]
  }

  /** Decimal rendering of an integer, as Arduino's `Print::print(int)` writes it. */
  function IntToDecimal(n: int): (s: string)
    ensures |s| >= 1
  {
    if n < 0 then "-" + NatToDecimal(-n) else NatToDecimal(n)
  }

  /** Numbers from 10 to 99 are written with two digits. */
  lemma TwoDigitDecimal(n: int)
    requires 10 <= n < 100
    ensures |IntToDecimal(n)| == 2
  {
    assert NatToDecimal(n) == NatToDecimal(n / 10) + [DigitChar(n % 10)];
  }

  /** Rendering a number and folding the digits back gives the number. */
  lemma {:induction false} DecimalRoundTrip(n: nat)
    ensures DecimalValue(NatToDecimal(n)) == n
    decreases n
  {
    var s := NatToDecimal(n);
    var prefix := if n < 10 then "" else NatToDecimal(n / 10);
    var d := DigitChar(n % 10);
    assert s == prefix + [d];
    assert s[..|s| - 1] == prefix && s[|s| - 1] == d;
    assert DecimalValue(s) == DecimalValue(prefix) * 10 + DigitValue(d);
    if n >= 10 {
      DecimalRoundTrip(n / 10);
    }
    assert DecimalValue(prefix) == n / 10;
  }

  /** The fold of `k` decimal digits lies in 0 .. 10^k - 1. */
  lemma {:induction false} DecimalValueOfDigits(s: seq<char>)
    requires forall i :: 0 <= i < |s| ==> IsDigit(s[i])
    ensures 0 <= DecimalValue(s) < Pow10(|s|)
  {
    if s != [] {
      DecimalValueOfDigits(s[..|s| - 1]);
    }
  }

  function Pow10(k: nat): (p: nat)
    ensures p >= 1
  {
    if k == 0 then 1 else 10 * Pow10(k - 1)
  }

  /** The fold of three arbitrary bytes stays within -5328 .. 22977, so it
      never overflows a 16-bit `int` when bytes are read as 0..255. */
  lemma ThreeByteFoldBounds(s: seq<Octet>)
    requires |s| == 3
    ensures -5328 <= DecimalValue(s) <= 22977
    ensures DecimalValue(s) == 100 * DigitValue(s[0]) + 10 * DigitValue(s[1]) + DigitValue(s[2])
  {
    assert s[..2][..1] == [s[0]];
    assert s[..2] == [s[0], s[1]];
    assert DecimalValue([s[0]]) == DigitValue(s[0]);
  }
}
