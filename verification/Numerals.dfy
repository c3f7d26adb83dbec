/** Digits and the numbers they write. */
module Numerals {
  import opened Translations

  /** The value of a digit. */
  function Digit(c: char, radix: nat): Option<nat> {
    if '0' <= c <= '9' then Some((c as int - '0' as int) as nat)
    else if radix == 16 && 'a' <= c <= 'f' then Some((c as int - 'a' as int + 10) as nat)
    else if radix == 16 && 'A' <= c <= 'F' then Some((c as int - 'A' as int + 10) as nat)
    else None
  }

  predicate AllDigits(s: string, radix: nat) {
    forall i :: 0 <= i < |s| ==> Digit(s[i], radix).Some?
  }

  function Value(s: string, radix: nat): nat
    requires AllDigits(s, radix)
  {
    if s == "" then 0 else Value(s[..|s|-1], radix) * radix + Digit(s[|s|-1], radix).value
  }

  const SMALL_DIGITS := "0123456789abcdef"
  const CAPITAL_DIGITS := "0123456789ABCDEF"

  /** The digits of a radix, small or capital, stand for the numbers in order, and nothing else is a digit. */
  lemma DigitIs(c: char, radix: nat, n: nat)
    requires radix == 10 || radix == 16
    ensures Digit(c, radix) == Some(n) <==> n < radix && (c == SMALL_DIGITS[n] || c == CAPITAL_DIGITS[n])
  {
    if n < radix && (c == SMALL_DIGITS[n] || c == CAPITAL_DIGITS[n]) {
      SmallDigits(n);
    }
    if Digit(c, radix) == Some(n) {
      SmallDigits(n);
      CharIs(c, n);
    }
  }

  lemma SmallDigits(n: nat)
    requires n < 16
    ensures SMALL_DIGITS[n] as int == if n < 10 then '0' as int + n else 'a' as int + n - 10
    ensures CAPITAL_DIGITS[n] as int == if n < 10 then '0' as int + n else 'A' as int + n - 10
  {
  }

  lemma CharIs(c: char, n: nat)
    requires Digit(c, 16) == Some(n)
    ensures n < 16
    ensures c as int == (if n < 10 then '0' as int + n else 'a' as int + n - 10)
      || c as int == (if n < 10 then '0' as int + n else 'A' as int + n - 10)
  {
  }

  /** A number as programs write it out. */
  function Decimal(n: nat): string {
    if n < 10 then [SMALL_DIGITS[n]] else Decimal(n / 10) + [SMALL_DIGITS[n % 10]]
  }

  /** Decimal digits without a leading nought, but for nought itself. */
  predicate IsNumeral(s: string) {
    s != "" && AllDigits(s, 10) && (s[0] == '0' ==> |s| == 1)
  }

  /** A number is written by the one numeral of its value. */
  lemma {:induction false} DecimalIs(n: nat)
    ensures IsNumeral(Decimal(n)) && Value(Decimal(n), 10) == n
    ensures Decimal(n)[0] == '0' ==> n == 0
  {
    DigitIs(SMALL_DIGITS[n % 10], 10, n % 10);
    if n < 10 {
      assert Decimal(n)[..0] == "";
      assert n % 10 == n;
    } else {
      DecimalIs(n / 10);
      assert Decimal(n)[..|Decimal(n)|-1] == Decimal(n / 10);
    }
  }

  lemma {:induction false} DecimalOfValue(s: string)
    requires IsNumeral(s)
    ensures Decimal(Value(s, 10)) == s
  {
    hide Value, Decimal, AllDigits;
    var n := |s| - 1;
    ValueStep(s);
    DigitIs(s[n], 10, Digit(s[n], 10).value);
    if n == 0 {
      DecimalStep(0, Digit(s[n], 10).value);
      assert s == [s[0]];
    } else {
      var before := Value(s[..n], 10);
      DecimalOfValue(s[..n]);
      assert s == s[..n] + [s[n]];
      DecimalStep(before, Digit(s[n], 10).value);
      DecimalStep(0, 0);
      assert s[..n][0] == s[0];
    }
  }

  lemma ValueStep(s: string)
    requires AllDigits(s, 10) && s != ""
    ensures var n := |s| - 1;
      AllDigits(s[..n], 10) && Digit(s[n], 10).Some? && Digit(s[n], 10).value < 10
      && Value(s, 10) == Value(s[..n], 10) * 10 + Digit(s[n], 10).value
      && (n == 0 ==> Value(s[..n], 10) == 0)
  {
  }

  lemma DecimalStep(before: nat, digit: nat)
    requires digit < 10
    ensures Decimal(before * 10 + digit) == (if before == 0 then "" else Decimal(before)) + [SMALL_DIGITS[digit]]
  {
    hide AllDigits;
    var n := before * 10 + digit;
    assert n / 10 == before && n % 10 == digit;
    assert Decimal(n) == if n < 10 then [SMALL_DIGITS[n]] else Decimal(n / 10) + [SMALL_DIGITS[n % 10]];
  }
}
