/** Decimal text of integers as C's `%d` prints it, and the value of a run
    of decimal digits (the part of `atoi`/`inet_addr` that reads digits). */
module Decimal {
  import opened Base

  predicate IsDigit(c: char) {
    '0' <= c <= '9'
  }

  predicate AllDigits(s: string) {
    forall i :: 0 <= i < |s| ==> IsDigit(s[i])
  }

  function DigitChar(d: nat): (c: char)
    requires d < 10
    ensures IsDigit(c)
  {
    ('0' as int + d) as char
  }

  function DigitValue(c: char): (d: nat)
    requires IsDigit(c)
    ensures d < 10
  {
    c as int - '0' as int
  }

  /** Shortest decimal spelling of `n` (no leading zeros). */
  function NatToDec(n: nat): (s: string)
    ensures |s| >= 1
    ensures AllDigits(s)
    ensures n > 0 ==> s[0] != '0'
    decreases n
  {
    if n < 10 then [DigitChar(n)] else NatToDec(n / 10) + [DigitChar(n % 10)]
  }

  /** Value of a digit string read most-significant first. */
  function DecValue(s: string): (v: nat)
    requires AllDigits(s)
  {
    if |s| == 0 then 0 else DecValue(s[..|s| - 1]) * 10 + DigitValue(s[|s| - 1])
  }

  /** `%d`: a minus sign for negative values, then the digits of the magnitude. */
  function IntToDec(i: int): (s: string)
    ensures |s| >= 1
  {
    if i < 0 then "-" + NatToDec(-i) else NatToDec(i)
  }

  function Pow10(k: nat): (p: nat)
    ensures p >= 1
  {
    if k == 0 then 1 else 10 * Pow10(k - 1)
  }

  lemma {:induction false} DigitRoundTrip(d: nat)
    requires d < 10
    ensures DigitValue(DigitChar(d)) == d
  {
  }

  /** Reading back what `NatToDec` prints gives the number again. */
  lemma {:induction false} DecRoundTrip(n: nat)
    ensures DecValue(NatToDec(n)) == n
    decreases n
  {
    var s := NatToDec(n);
    if n >= 10 {
      DecRoundTrip(n / 10);
      assert s[..|s| - 1] == NatToDec(n / 10);
      DigitRoundTrip(n % 10);
    }
  }

  /** `NatToDec` has no leading zeros, so two numbers print alike only when equal. */
  lemma NatToDecInjective(m: nat, n: nat)
    requires NatToDec(m) == NatToDec(n)
    ensures m == n
  {
    DecRoundTrip(m);
    DecRoundTrip(n);
  }

  /** The length of the decimal spelling: at most `k` digits exactly below `10^k`. */
  lemma {:induction false} DecLength(n: nat, k: nat)
    requires k >= 1
    ensures |NatToDec(n)| <= k <==> n < Pow10(k)
    decreases n
  {
    if n >= 10 {
      if k == 1 {
        assert Pow10(1) == 10;
      } else {
        DecLength(n / 10, k - 1);
        assert n < Pow10(k) <==> n / 10 < Pow10(k - 1);
      }
    } else {
      assert Pow10(k) >= 10 by { Pow10AtLeastTen(k); }
    }
  }

  lemma {:induction false} Pow10AtLeastTen(k: nat)
    requires k >= 1
    ensures Pow10(k) >= 10
  {
    if k > 1 {
      Pow10AtLeastTen(k - 1);
    }
  }

  // ---------------------------------------------------------------------
  // atoi

  /** The characters `isspace` accepts: space, tab, newline, vertical tab,
      form feed and carriage return. */
  predicate IsSpace(c: char) {
    c == ' ' || '\t' <= c <= '\r'
  }

  function SkipSpaces(s: string): (r: string)
    ensures |r| <= |s| && r == s[|s| - |r|..]
    ensures |r| > 0 ==> !IsSpace(r[0])
  {
    if |s| > 0 && IsSpace(s[0]) then SkipSpaces(s[1..]) else s
  }

  /** The longest run of digits at the start of `s`. */
  function LeadingDigits(s: string): (d: string)
    ensures d <= s && AllDigits(d)
    ensures |d| < |s| ==> !IsDigit(s[|d|])
  {
    if |s| == 0 || !IsDigit(s[0]) then [] else [s[0]] + LeadingDigits(s[1..])
  }

  /** A 32-bit `long` result: `strtol` gives `LONG_MAX` or `LONG_MIN` for a
      value out of range. */
  function Saturate32(v: int): (r: int32)
    ensures -0x8000_0000 <= v < 0x8000_0000 ==> r == v
    ensures v >= 0x8000_0000 ==> r == 0x7FFF_FFFF
    ensures v < -0x8000_0000 ==> r == -0x8000_0000
  {
    if v > 0x7FFF_FFFF then 0x7FFF_FFFF else if v < -0x8000_0000 then -0x8000_0000 else v
  }

  /** `atoi` as newlib implements it, `(int) strtol(s, NULL, 10)` with a
      32-bit `long`: leading white space, an optional sign, then the digits
      up to the first other character; 0 when there are none. */
  function Atoi(s: string): int32 {
    var t := SkipSpaces(s);
    var signed := |t| > 0 && (t[0] == '-' || t[0] == '+');
    var body := if signed then t[1..] else t;
    var magnitude := DecValue(LeadingDigits(body));
    Saturate32(if signed && t[0] == '-' then -(magnitude as int) else magnitude as int)
  }

  lemma {:induction false} LeadingDigitsOfDigits(s: string)
    requires AllDigits(s)
    ensures LeadingDigits(s) == s
  {
    if |s| > 0 {
      LeadingDigitsOfDigits(s[1..]);
    }
  }

  /** A plain run of digits reads as its value, when that fits. */
  lemma AtoiOfDigits(s: string)
    requires |s| > 0 && AllDigits(s) && DecValue(s) < 0x8000_0000
    ensures Atoi(s) == DecValue(s)
  {
    assert SkipSpaces(s) == s by { assert IsDigit(s[0]); }
    assert s[0] != '-' && s[0] != '+' by { assert IsDigit(s[0]); }
    LeadingDigitsOfDigits(s);
    assert Atoi(s) == Saturate32(DecValue(s));
  }

  /** `atoi` reads back what `%d` printed for every value below 2^31. */
  lemma AtoiOfDec(n: nat)
    requires n < 0x8000_0000
    ensures Atoi(NatToDec(n)) == n
  {
    DecRoundTrip(n);
    AtoiOfDigits(NatToDec(n));
  }

  /** `atoi` of a negative number written with `%d`. */
  lemma AtoiOfNegative(n: nat)
    requires 0 < n <= 0x8000_0000
    ensures Atoi("-" + NatToDec(n)) == -(n as int)
  {
    var s := "-" + NatToDec(n);
    assert SkipSpaces(s) == s;
    assert s[1..] == NatToDec(n);
    LeadingDigitsOfDigits(NatToDec(n));
    DecRoundTrip(n);
  }
}
