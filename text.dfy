/**
 * Number formatting as done by C++ stream insertion: decimal for integers
 * (`_str << v`) and upper-case hexadecimal for the enum values that tags carry.
 */
module Text {

  const HexDigits: string := "0123456789ABCDEF"

  function DigitChar(d: nat): (c: char)
    requires d < 16
  {
    HexDigits[d]
  }

  /** The inverse of DigitChar on its image; -1 for any other character. */
  function DigitValue(c: char): (d: int)
    ensures -1 <= d < 16
    ensures 0 <= d ==> DigitChar(d) == c
  {
    if '0' <= c <= '9' then c as int - '0' as int
    else if 'A' <= c <= 'F' then c as int - 'A' as int + 10
    else -1
  }

  lemma DigitValueOfChar(d: nat)
    requires d < 16
    ensures DigitValue(DigitChar(d)) == d
  {
  }

  /** The digits of n in the given base, most significant first, without leading zeros. */
  function Digits(n: nat, base: nat): (s: string)
    requires base == 10 || base == 16
    ensures |s| >= 1 && s[0] != '-'
    decreases n
  {
    if n < base then [DigitChar(n)] else Digits(n / base, base) + [DigitChar(n % base)]
  }

  /** The number a string of digits denotes in the given base. */
  function DigitsValue(s: string, base: nat): int
    requires base == 10 || base == 16
  {
    if |s| == 0 then 0 else DigitsValue(s[..|s| - 1], base) * base + DigitValue(s[|s| - 1])
  }

  lemma {:induction false} DigitsRoundTrip(n: nat, base: nat)
    requires base == 10 || base == 16
    ensures DigitsValue(Digits(n, base), base) == n
    ensures n != 0 ==> Digits(n, base)[0] != '0'
    decreases n
  {
    var s := Digits(n, base);
    if n < base {
      DigitValueOfChar(n);
      assert s[..0] == [];
    } else {
      DigitsRoundTrip(n / base, base);
      DigitValueOfChar(n % base);
      assert s[..|s| - 1] == Digits(n / base, base);
    }
  }

  /** The text of i in the given base, '-' first when negative. */
  function Signed(i: int, base: nat): (s: string)
    requires base == 10 || base == 16
    ensures |s| >= 1
  {
    if i < 0 then "-" + Digits(-i, base) else Digits(i, base)
  }

  /** `os << n` for an integer n. */
  function Decimal(i: int): (s: string)
    ensures |s| >= 1
  {
    Signed(i, 10)
  }

  /** The digits of the counts the tests print. */
  lemma SmallDecimals()
    ensures Decimal(1) == "1" && Decimal(2) == "2" && Decimal(3) == "3"
    ensures Decimal(4) == "4" && Decimal(5) == "5" && Decimal(6) == "6"
  {
  }

  lemma DecimalOf9()
    ensures Decimal(9) == "9"
  {
  }

  lemma DecimalOf123()
    ensures Decimal(123) == "123"
  {
  }

  lemma DecimalOf1024()
    ensures Decimal(1024) == "1024"
  {
  }

  /** The upper-case hexadecimal text of i, as an enum tag lists it. */
  function Hex(i: int): (s: string)
    ensures |s| >= 1
  {
    Signed(i, 16)
  }

  /** The inverse of Signed on its image. */
  function SignedValue(s: string, base: nat): int
    requires base == 10 || base == 16
  {
    if |s| > 0 && s[0] == '-' then - DigitsValue(s[1..], base) else DigitsValue(s, base)
  }

  lemma {:induction false} SignedRoundTrip(i: int, base: nat)
    requires base == 10 || base == 16
    ensures SignedValue(Signed(i, base), base) == i
  {
    if i < 0 {
      DigitsRoundTrip(-i, base);
      SignedValueNegative(Digits(-i, base), base);
    } else {
      DigitsRoundTrip(i, base);
      SignedValueNonNegative(Digits(i, base), base);
    }
  }

  lemma SignedValueNonNegative(d: string, base: nat)
    requires base == 10 || base == 16
    requires |d| > 0 && d[0] != '-'
    ensures SignedValue(d, base) == DigitsValue(d, base)
  {
  }

  lemma SignedValueNegative(d: string, base: nat)
    requires base == 10 || base == 16
    ensures SignedValue("-" + d, base) == - DigitsValue(d, base)
  {
    assert ("-" + d)[1..] == d;
  }

  /** Distinct numbers have distinct hexadecimal texts. */
  lemma HexInjective(i: int, j: int)
    requires Hex(i) == Hex(j)
    ensures i == j
  {
    SignedRoundTrip(i, 16);
    SignedRoundTrip(j, 16);
  }

  /** The parts with sep between each two neighbours. */
  function Join(sep: string, parts: seq<string>): string {
    if |parts| == 0 then ""
    else if |parts| == 1 then parts[0]
    else parts[0] + sep + Join(sep, parts[1..])
  }
}
