/** Decimal text of integers, as Rust's `{}` formatting writes an `i32` or `i64`
    into a URL, and the reading back that shows the text loses nothing. */
module Text {

  function DigitChar(d: nat): (c: char)
    requires d < 10
    ensures '0' <= c <= '9'
  {
    "0123456789"[d]
  }

  function DigitValue(c: char): nat
  {
    if '0' <= c <= '9' then (c as int - '0' as int) as nat else 0
  }

  /** Decimal digits of `n`, most significant first, no leading zero. */
  function NatText(n: nat): string
    decreases n
  {
    if n < 10 then [DigitChar(n)] else NatText(n / 10) + [DigitChar(n % 10)]
  }

  /** Rust's `Display` for a signed integer: a minus sign, then the digits. */
  function IntText(n: int): string
  {
    if n < 0 then "-" + NatText(-n) else NatText(n)
  }

  function NatValue(s: string): nat
  {
    if s == [] then 0 else NatValue(s[..|s| - 1]) * 10 + DigitValue(s[|s| - 1])
  }

  function IntValue(s: string): int
  {
    if |s| > 0 && s[0] == '-' then -(NatValue(s[1..]) as int) else NatValue(s)
  }

  lemma {:induction false} NatTextRoundTrip(n: nat)
    ensures |NatText(n)| > 0
    ensures forall i :: 0 <= i < |NatText(n)| ==> '0' <= NatText(n)[i] <= '9'
    ensures NatValue(NatText(n)) == n
    decreases n
  {
    var s := NatText(n);
    if n < 10 {
      assert s == [DigitChar(n)];
      assert s[..0] == [];
    } else {
      NatTextRoundTrip(n / 10);
      assert s[..|s| - 1] == NatText(n / 10);
      assert s[|s| - 1] == DigitChar(n % 10);
    }
  }

  /** A minus sign before a text of digits negates its value. */
  lemma SignedRead(digits: string)
    ensures IntValue("-" + digits) == -(NatValue(digits) as int)
  {
    assert ("-" + digits)[1..] == digits;
  }

  /** A negative integer is written as a minus sign and its magnitude's digits. */
  lemma NegativeRoundTrip(n: int)
    requires n < 0
    ensures |IntText(n)| > 0 && IntValue(IntText(n)) == n
  {
    var magnitude: nat := -n;
    var digits := NatText(magnitude);
    NatTextRoundTrip(magnitude);
    SignedRead(digits);
    assert IntText(n) == "-" + digits;
  }

  /** A non-negative integer is written as its digits, the first of which is no sign. */
  lemma NonNegativeRoundTrip(n: int)
    requires 0 <= n
    ensures |IntText(n)| > 0 && IntValue(IntText(n)) == n
  {
    var digits := NatText(n);
    NatTextRoundTrip(n);
    assert IntText(n) == digits;
    assert digits[0] != '-';
  }

  /** Reading the decimal text back gives the integer: the text determines the value. */
  lemma IntTextRoundTrip(n: int)
    ensures |IntText(n)| > 0
    ensures IntValue(IntText(n)) == n
  {
    if n < 0 {
      NegativeRoundTrip(n);
    } else {
      NonNegativeRoundTrip(n);
    }
  }

  lemma IntTextInjective(a: int, b: int)
    requires IntText(a) == IntText(b)
    ensures a == b
  {
    IntTextRoundTrip(a);
    IntTextRoundTrip(b);
  }
}
