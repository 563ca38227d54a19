/**
 * Two-digit display of clock numbers: `padZero(n)`, which is
 * `n.toString().padStart(2, '0')` on a whole number.
 */
module Format {

  predicate IsDigit(c: char)
  {
    '0' <= c <= '9'
  }

  /** The character of a decimal digit. */
  function DigitChar(d: int): (c: char)
    requires 0 <= d < 10
    ensures IsDigit(c) && DigitValue(c) == d
  {
    "0123456789"[d]
  }

  /** The value of a decimal digit character. */
  function DigitValue(c: char): (v: int)
    requires IsDigit(c)
  {
    c as int - '0' as int
  }

  predicate AllDigits(s: string)
  {
    forall i :: 0 <= i < |s| ==> IsDigit(s[i])
  }

  /**
   * `Number.prototype.toString()` of a natural number: its decimal digits,
   * most significant first, with no leading zero (except "0" itself).
   */
  function NatToString(n: nat): (s: string)
    ensures 1 <= |s| && AllDigits(s)
    ensures s[0] == '0' <==> n == 0
    ensures |s| == 1 <==> n < 10
  {
    if n < 10 then [DigitChar(n)] else NatToString(n / 10) + [DigitChar(n % 10)]
  }

  /** `Number.prototype.toString()` of a whole number: a minus sign before negatives. */
  function IntToString(n: int): (s: string)
    ensures n >= 0 ==> AllDigits(s) && DigitsValue(s) == n
    ensures n < 0 ==> |s| >= 2 && s[0] == '-' && AllDigits(s[1..]) && DigitsValue(s[1..]) == -n
    ensures n >= 0 ==> 1 <= |s| && (s[0] == '0' <==> n == 0)
    ensures n < 0 ==> s[1] != '0'
    ensures n >= 0 ==> (|s| == 1 <==> n < 10)
    ensures n < 0 ==> (|s| == 2 <==> n > -10)
  {
    if n < 0 then
      NatToStringRoundTrip(-n);
      assert ("-" + NatToString(-n))[1..] == NatToString(-n);
      "-" + NatToString(-n)
    else
      NatToStringRoundTrip(n);
      NatToString(n)
  }

  /** `"c" * k`: the character `c` repeated `k` times. */
  function Repeat(c: char, k: nat): (s: string)
    ensures |s| == k && forall i :: 0 <= i < k ==> s[i] == c
  {
    if k == 0 then [] else [c] + Repeat(c, k - 1)
  }

  /**
   * `s.padStart(targetLength, fill)` with a one-character fill: `s` itself
   * when it is already long enough, otherwise `s` preceded by as many fill
   * characters as it takes to reach `targetLength`.
   */
  function PadStart(s: string, targetLength: nat, fill: char): (r: string)
    ensures |r| == if |s| >= targetLength then |s| else targetLength
    ensures r[|r| - |s|..] == s
    ensures forall i :: 0 <= i < |r| - |s| ==> r[i] == fill
  {
    if |s| >= targetLength then s else Repeat(fill, targetLength - |s|) + s
  }

  /** `padZero(n)`: at least two characters, zero-filled on the left. */
  function PadZero(n: int): (r: string)
    ensures |r| >= 2
  {
    PadStart(IntToString(n), 2, '0')
  }

  /** The value of a string of decimal digits, read most significant first. */
  function DigitsValue(s: string): (v: nat)
    requires AllDigits(s)
  {
    if s == [] then 0 else DigitsValue(s[..|s| - 1]) * 10 + DigitValue(s[|s| - 1])
  }

  /** Reading back the decimal string of `n` gives `n`. */
  lemma {:induction false} NatToStringRoundTrip(n: nat)
    ensures DigitsValue(NatToString(n)) == n
  {
    if n >= 10 {
      var s := NatToString(n);
      assert s[..|s| - 1] == NatToString(n / 10);
      NatToStringRoundTrip(n / 10);
    }
  }

  /** A leading zero does not change the value a digit string stands for. */
  lemma {:induction false} LeadingZero(s: string)
    requires AllDigits(s)
    ensures AllDigits("0" + s) && DigitsValue("0" + s) == DigitsValue(s)
  {
    if s != [] {
      var t := "0" + s;
      assert t[..|t| - 1] == "0" + s[..|s| - 1];
      LeadingZero(s[..|s| - 1]);
    }
  }

  /** A single digit gets one leading zero: 7 becomes "07". */
  lemma PadZeroSingleDigit(n: int)
    requires 0 <= n <= 9
    ensures PadZero(n) == ['0', DigitChar(n)]
  {
  }

  /** From 10 on the plain decimal string is returned, never cut to two characters. */
  lemma PadZeroManyDigits(n: int)
    requires n >= 10
    ensures PadZero(n) == NatToString(n)
  {
  }

  /** A negative number keeps its sign and is not padded: -5 becomes "-5". */
  lemma PadZeroNegative(n: int)
    requires n < 0
    ensures PadZero(n) == "-" + NatToString(-n)
  {
  }

  /** Every clock number 0..99 is shown in exactly two digits. */
  lemma PadZeroTwoDigits(n: int)
    requires 0 <= n < 100
    ensures |PadZero(n)| == 2 && AllDigits(PadZero(n))
  {
    if n >= 10 {
      assert NatToString(n) == NatToString(n / 10) + [DigitChar(n % 10)];
    }
  }

  /** The padded string of a non-negative number reads back as that number. */
  lemma {:induction false} PadZeroRoundTrip(n: int)
    requires n >= 0
    ensures AllDigits(PadZero(n)) && DigitsValue(PadZero(n)) == n
  {
    NatToStringRoundTrip(n);
    if n < 10 {
      LeadingZero(NatToString(n));
      assert PadZero(n) == "0" + NatToString(n);
    }
  }
}
