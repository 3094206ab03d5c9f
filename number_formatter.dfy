/** Poco's NumberFormatter for integers, as its test suite
    (Foundation/testsuite/src/NumberFormatterTest.cpp) pins it down:
    decimal with an optional width filled with spaces on the left, decimal
    with zeros between the sign and the digits, and uppercase hexadecimal
    with zeros on the left. Every integer type gives the same text for the
    same value, so all of them are modelled on `int` (unsigned types on
    `nat`). The formatter's own source is not part of this model. */
module NumberFormatter {

  /** The digit characters, uppercase; the first ten are the decimal ones. */
  const DIGITS: string := "0123456789ABCDEF"

  /** The value of a digit character, -1 for any other character. */
  function DigitValue(c: char): int
  {
    if '0' <= c <= '9' then c as int - '0' as int
    else if 'A' <= c <= 'F' then c as int - 'A' as int + 10
    else -1
  }

  lemma DigitValueOfDigit(d: nat)
    requires d < 16
    ensures DigitValue(DIGITS[d]) == d
  {
    if d < 10 {
      assert DIGITS[d] as int == '0' as int + d;
    } else {
      assert DIGITS[d] as int == 'A' as int + d - 10;
    }
  }

  /** The digits of n in base 10 or 16, most significant first, "0" for 0. */
  function DigitsIn(n: nat, base: nat): (s: string)
    requires base == 10 || base == 16
    ensures |s| >= 1
    ensures forall i :: 0 <= i < |s| ==> 0 <= DigitValue(s[i]) < base
    ensures n > 0 ==> s[0] != '0'
    ensures n == 0 <==> s == "0"
    decreases n
  {
    DigitValueOfDigit(n % base);
    if n < base then [DIGITS[n]]
    else DigitsIn(n / base, base) + [DIGITS[n % base]]
  }

  /** The value of a string of digits in the base. */
  function ValueIn(s: string, base: nat): int
    decreases |s|
  {
    if s == [] then 0
    else ValueIn(s[..|s| - 1], base) * base + DigitValue(s[|s| - 1])
  }

  /** A string of n copies of c. */
  function Fill(c: char, n: int): (s: string)
    ensures |s| == if n > 0 then n else 0
    ensures forall i :: 0 <= i < |s| ==> s[i] == c
  {
    if n <= 0 then [] else [c] + Fill(c, n - 1)
  }

  function Decimal(n: nat): (s: string)
    ensures |s| >= 1
  {
    DigitsIn(n, 10)
  }

  function Magnitude(v: int): nat
  {
    if v < 0 then -v else v
  }

  function Sign(v: int): string
  {
    if v < 0 then "-" else ""
  }

  /** format(value): the digits, with a leading '-' for a negative value. */
  function Format(v: int): (s: string)
    ensures |s| >= 1
    ensures (s[0] == '-') <==> v < 0
  {
    Sign(v) + Decimal(Magnitude(v))
  }

  /** format(value, width): right-aligned in at least `width` characters,
      filled with spaces; the sign counts toward the width. */
  function FormatWidth(v: int, width: int): (s: string)
    ensures |s| == if width > |Format(v)| then width else |Format(v)|
    ensures s[|s| - |Format(v)|..] == Format(v)
    ensures forall i :: 0 <= i < |s| - |Format(v)| ==> s[i] == ' '
  {
    var f := Format(v);
    var s := Fill(' ', width - |f|) + f;
    assert s[|s| - |f|..] == f;
    s
  }

  /** format0(value, width): at least `width` characters, with zeros between
      the sign and the digits. */
  function Format0(v: int, width: int): (s: string)
    ensures |s| == if width > |Format(v)| then width else |Format(v)|
    ensures s[..|Sign(v)|] == Sign(v)
    ensures s[|s| - |Decimal(Magnitude(v))|..] == Decimal(Magnitude(v))
    ensures forall i :: |Sign(v)| <= i < |s| - |Decimal(Magnitude(v))| ==> s[i] == '0'
  {
    var d := Decimal(Magnitude(v));
    var sign := Sign(v);
    var s := sign + Fill('0', width - |sign| - |d|) + d;
    assert s[..|sign|] == sign;
    assert s[|s| - |d|..] == d;
    s
  }

  /** formatHex(value): uppercase hexadecimal digits, no prefix. */
  function FormatHex(n: nat): (s: string)
    ensures |s| >= 1
    ensures forall i :: 0 <= i < |s| ==> s[i] in DIGITS
  {
    DigitsIn(n, 16)
  }

  /** formatHex(value, width): at least `width` digits, zeros on the left. */
  function FormatHexWidth(n: nat, width: int): (s: string)
    ensures |s| == if width > |FormatHex(n)| then width else |FormatHex(n)|
    ensures s[|s| - |FormatHex(n)|..] == FormatHex(n)
    ensures forall i :: 0 <= i < |s| - |FormatHex(n)| ==> s[i] == '0'
  {
    var h := FormatHex(n);
    var s := Fill('0', width - |h|) + h;
    assert s[|s| - |h|..] == h;
    s
  }

  /** Reading the digits back gives the number. */
  lemma {:induction false} DigitsRoundTrip(n: nat, base: nat)
    requires base == 10 || base == 16
    ensures ValueIn(DigitsIn(n, base), base) == n
    decreases n
  {
    DigitValueOfDigit(n % base);
    var s := DigitsIn(n, base);
    if n >= base {
      var front := DigitsIn(n / base, base);
      assert s == front + [DIGITS[n % base]];
      assert s[..|s| - 1] == front;
      DigitsRoundTrip(n / base, base);
      assert ValueIn(s, base) == (n / base) * base + n % base;
    } else {
      assert s[..0] == [];
    }
  }

  /** Decimal and hexadecimal text read back as the value it was made from. */
  lemma FormatRoundTrip(v: int, n: nat)
    ensures ValueIn(Decimal(Magnitude(v)), 10) == Magnitude(v)
    ensures ValueIn(FormatHex(n), 16) == n
  {
    DigitsRoundTrip(Magnitude(v), 10);
    DigitsRoundTrip(n, 16);
  }

  /** A width the decimal text already fills adds no padding. */
  lemma NarrowWidthAddsNothing(v: int, width: int)
    requires width <= |Format(v)|
    ensures FormatWidth(v, width) == Format(v)
    ensures Format0(v, width) == Format(v)
  {
  }

  /** A width the hexadecimal text already fills adds no padding. */
  lemma NarrowHexWidthAddsNothing(n: nat, width: int)
    requires width <= |FormatHex(n)|
    ensures FormatHexWidth(n, width) == FormatHex(n)
  {
  }

  lemma Decimal123()
    ensures Decimal(123) == "123"
  {
    assert DigitsIn(1, 10) == "1";
    assert DigitsIn(12, 10) == DigitsIn(1, 10) + [DIGITS[2]] == "12";
    assert DigitsIn(123, 10) == DigitsIn(12, 10) + [DIGITS[3]];
  }

  /** testFormat, without a width. */
  lemma FormatCases()
    ensures Format(123) == "123"
    ensures Format(-123) == "-123"
  {
    Decimal123();
    assert Format(123) == "" + "123";
    assert Format(-123) == "-" + "123";
  }

  /** testFormat, with a width. */
  lemma FormatWidthCases()
    ensures FormatWidth(-123, 5) == " -123"
    ensures FormatWidth(123, 5) == "  123"
  {
    FormatCases();
    assert Fill(' ', 1) == " ";
    assert Fill(' ', 2) == "  ";
    assert FormatWidth(-123, 5) == Fill(' ', 1) + "-123";
    assert FormatWidth(123, 5) == Fill(' ', 2) + "123";
  }

  /** testFormat0. */
  lemma Format0Cases()
    ensures Format0(123, 5) == "00123"
    ensures Format0(-123, 5) == "-0123"
  {
    Decimal123();
    assert Fill('0', 1) == "0";
    assert Fill('0', 2) == "00";
  }

  lemma Hex12AndAB()
    ensures FormatHex(0x12) == "12"
    ensures FormatHex(0xab) == "AB"
  {
    assert DigitsIn(1, 16) == "1";
    assert DigitsIn(0x12, 16) == DigitsIn(1, 16) + [DIGITS[2]];
    assert DigitsIn(0xa, 16) == "A";
    assert DigitsIn(0xab, 16) == DigitsIn(0xa, 16) + [DIGITS[0xb]];
  }

  /** testFormatHex. */
  lemma FormatHexCases()
    ensures FormatHex(0x12) == "12"
    ensures FormatHex(0xab) == "AB"
    ensures FormatHexWidth(0x12, 4) == "0012"
    ensures FormatHexWidth(0xab, 4) == "00AB"
  {
    Hex12AndAB();
    assert Fill('0', 2) == "00";
    assert FormatHexWidth(0x12, 4) == Fill('0', 2) + "12";
    assert FormatHexWidth(0xab, 4) == Fill('0', 2) + "AB";
  }
}
