/** Decimal numbers as text: printing with `%d`, parsing with `strconv.ParseInt(text, 10, 64)`. */
module Decimal {
  import Text
  import opened Wrappers

  const MIN_INT64 := -0x8000_0000_0000_0000
  const MAX_INT64 := 0x7fff_ffff_ffff_ffff

  predicate IsDigit(c: char) {
    '0' <= c <= '9'
  }

  predicate AllDigits(s: string) {
    forall k :: 0 <= k < |s| ==> IsDigit(s[k])
  }

  function Value(digits: string): nat
    requires AllDigits(digits)
  {
    if digits == "" then 0 else Value(digits[..|digits| - 1]) * 10 + (digits[|digits| - 1] - '0') as nat
  }

  /** An optional sign and at least one digit, within 64 bits. */
  function ParseInt(s: string): Option<int> {
    var signed := s != "" && (s[0] == '-' || s[0] == '+');
    var digits := if signed then s[1..] else s;
    if digits == "" || !AllDigits(digits) then None
    else
      var n: int := if signed && s[0] == '-' then 0 - Value(digits) else Value(digits);
      if MIN_INT64 <= n <= MAX_INT64 then Some(n) else None
  }

  function FormatNat(n: nat): string {
    (if n < 10 then "" else FormatNat(n / 10)) + ['0' + (n % 10) as char]
  }

  function FormatInt(n: int): string {
    if n < 0 then "-" + FormatNat(-n) else FormatNat(n)
  }

  /** Printed numbers are digits of that value, without a leading zero. */
  lemma {:induction false} FormatNatDigits(n: nat)
    ensures FormatNat(n) != "" && AllDigits(FormatNat(n)) && Value(FormatNat(n)) == n
    ensures FormatNat(n)[0] == '0' <==> n == 0
    ensures n == 0 ==> FormatNat(n) == "0"
  {
    if n >= 10 {
      FormatNatDigits(n / 10);
    }
    var s := FormatNat(n);
    assert s[..|s| - 1] == if n < 10 then "" else FormatNat(n / 10);
  }

  lemma ParseUnsigned(digits: string, n: nat)
    requires digits != "" && AllDigits(digits) && Value(digits) == n <= MAX_INT64
    ensures ParseInt(digits) == Some(n)
  {
    assert IsDigit(digits[0]);
  }

  lemma ParseNegative(digits: string, n: nat)
    requires digits != "" && AllDigits(digits) && Value(digits) == n && MIN_INT64 <= 0 - n
    ensures ParseInt("-" + digits) == Some(0 - n)
  {
    assert ("-" + digits)[1..] == digits;
  }

  lemma ParseFormatNegative(n: nat)
    requires MIN_INT64 <= 0 - n
    ensures ParseInt("-" + FormatNat(n)) == Some(0 - n)
  {
    FormatNatDigits(n);
    ParseNegative(FormatNat(n), n);
  }

  lemma ParseFormatNat(n: nat)
    requires n <= MAX_INT64
    ensures ParseInt(FormatNat(n)) == Some(n)
  {
    FormatNatDigits(n);
    ParseUnsigned(FormatNat(n), n);
  }

  /** A printed 64-bit number is parsed back. */
  lemma ParseFormat(n: int)
    requires MIN_INT64 <= n <= MAX_INT64
    ensures ParseInt(FormatInt(n)) == Some(n)
  {
    if n < 0 {
      ParseFormatNegative(-n);
    } else {
      ParseFormatNat(n);
    }
  }

  lemma NothingToTrim(s: string)
    requires s != "" && !Text.IsSpace(s[0]) && !Text.IsSpace(s[|s| - 1])
    ensures Text.Trim(s) == s
  {}

  lemma DigitsHaveNoSpace(digits: string)
    requires digits != "" && AllDigits(digits)
    ensures !Text.IsSpace(digits[0]) && !Text.IsSpace(digits[|digits| - 1])
  {
    assert IsDigit(digits[0]) && IsDigit(digits[|digits| - 1]);
  }

  lemma SignHasNoSpace(digits: string)
    requires digits != "" && !Text.IsSpace(digits[|digits| - 1])
    ensures var s := "-" + digits; !Text.IsSpace(s[0]) && !Text.IsSpace(s[|s| - 1])
  {
    assert ("-" + digits)[|digits|] == digits[|digits| - 1];
  }

  lemma TrimNat(n: nat)
    ensures Text.Trim(FormatNat(n)) == FormatNat(n)
  {
    FormatNatDigits(n);
    DigitsHaveNoSpace(FormatNat(n));
    NothingToTrim(FormatNat(n));
  }

  lemma TrimNegative(n: nat)
    ensures Text.Trim("-" + FormatNat(n)) == "-" + FormatNat(n)
  {
    FormatNatDigits(n);
    DigitsHaveNoSpace(FormatNat(n));
    SignHasNoSpace(FormatNat(n));
    NothingToTrim("-" + FormatNat(n));
  }

  /** Nothing is trimmed off a printed number. */
  lemma TrimFormat(n: int)
    ensures Text.Trim(FormatInt(n)) == FormatInt(n)
  {
    if n < 0 {
      TrimNegative(-n);
    } else {
      TrimNat(n);
    }
  }

  // ---- Which texts are numbers ---------------------------------------------

  ghost predicate AllZero(s: string) {
    forall k :: 0 <= k < |s| ==> s[k] == '0'
  }

  /** Leading zeros and the printed number. */
  ghost predicate IsPadded(s: string, n: nat) {
    exists zeros :: s == zeros + FormatNat(n) && AllZero(zeros)
  }

  /** A way to write `n`: with a sign that fits, which may be left out of a number that is not negative. */
  ghost predicate IsNumeral(s: string, n: int) {
    || (n >= 0 && IsPadded(s, n))
    || (n >= 0 && s != "" && s[0] == '+' && IsPadded(s[1..], n))
    || (n <= 0 && s != "" && s[0] == '-' && IsPadded(s[1..], -n))
  }

  function Digit(d: nat): char
    requires d < 10
  {
    '0' + d as char
  }

  lemma FormatNatStep(n: nat, d: nat)
    requires n > 0 && d < 10
    ensures FormatNat(10 * n + d) == FormatNat(n) + [Digit(d)]
  {
    assert (10 * n + d) / 10 == n && (10 * n + d) % 10 == d;
  }

  lemma FormatDigit(d: nat)
    requires d < 10
    ensures FormatNat(d) == [Digit(d)]
  {
    assert "" + [Digit(d)] == [Digit(d)];
  }

  lemma PaddedStep(s: string, n: nat, d: nat)
    requires d < 10 && IsPadded(s, n)
    ensures IsPadded(s + [Digit(d)], 10 * n + d)
  {
    var zeros :| s == zeros + FormatNat(n) && AllZero(zeros);
    if n == 0 {
      FormatNatDigits(0);
      FormatDigit(d);
      assert AllZero(s);
      assert s + [Digit(d)] == s + FormatNat(10 * n + d);
    } else {
      FormatNatStep(n, d);
      assert s + [Digit(d)] == zeros + FormatNat(10 * n + d);
    }
  }

  lemma {:induction false} DigitsArePadded(digits: string)
    requires digits != "" && AllDigits(digits)
    ensures IsPadded(digits, Value(digits))
    decreases |digits|
  {
    var init, c := digits[..|digits| - 1], digits[|digits| - 1];
    assert digits == init + [c] && IsDigit(c) && AllDigits(init);
    var d := (c - '0') as nat;
    assert Digit(d) == c && Value(digits) == 10 * Value(init) + d;
    if init == "" {
      FormatDigit(d);
      assert digits == "" + FormatNat(d);
    } else {
      DigitsArePadded(init);
      PaddedStep(init, Value(init), d);
    }
  }

  lemma {:induction false} ZerosAddNothing(zeros: string, digits: string)
    requires AllZero(zeros) && AllDigits(digits)
    ensures AllDigits(zeros + digits) && Value(zeros + digits) == Value(digits)
    decreases |digits|, |zeros|
  {
    var all := zeros + digits;
    if digits != "" {
      var init := digits[..|digits| - 1];
      assert AllDigits(init);
      ZerosAddNothing(zeros, init);
      assert all[..|all| - 1] == zeros + init;
    } else if zeros != "" {
      var fewer := zeros[..|zeros| - 1];
      ZerosAddNothing(fewer, digits);
      assert all[..|all| - 1] == fewer + digits;
    }
  }

  /** Digits have a value exactly when they are its printed form behind leading zeros. */
  lemma PaddedIff(s: string, n: nat)
    ensures IsPadded(s, n) <==> s != "" && AllDigits(s) && Value(s) == n
  {
    if IsPadded(s, n) {
      var zeros :| s == zeros + FormatNat(n) && AllZero(zeros);
      FormatNatDigits(n);
      ZerosAddNothing(zeros, FormatNat(n));
    }
    if s != "" && AllDigits(s) && Value(s) == n {
      DigitsArePadded(s);
    }
  }

  /** A text is parsed as `n` exactly when it is a numeral for `n` and `n` has 64 bits. */
  lemma ParseIntIff(s: string, n: int)
    ensures ParseInt(s) == Some(n) <==> MIN_INT64 <= n <= MAX_INT64 && IsNumeral(s, n)
  {
    if s != "" && (s[0] == '-' || s[0] == '+') {
      SignedParse(s, n);
    } else {
      if n >= 0 {
        PaddedIff(s, n);
      }
    }
  }

  lemma SignedParse(s: string, n: int)
    requires s != "" && (s[0] == '-' || s[0] == '+')
    ensures ParseInt(s) == Some(n) <==> MIN_INT64 <= n <= MAX_INT64 && IsNumeral(s, n)
  {
    if n >= 0 {
      PaddedIff(s, n);
      PaddedIff(s[1..], n);
    }
    if n <= 0 {
      PaddedIff(s[1..], -n);
    }
  }
}
