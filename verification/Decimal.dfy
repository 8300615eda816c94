/** Decimal numbers as printf writes them and strtoul / scanf read them. */
module Decimal {
  import opened Text

  function DigitChar(d: nat): (c: char)
    requires d < 10
    ensures IsDigit(c)
  {
    (('0' as int) + d) as char
  }

  function DigitValue(c: char): (d: nat)
    requires IsDigit(c)
    ensures d < 10 && DigitChar(d) == c
  {
    (c as int) - ('0' as int)
  }

  predicate AllDigits(s: string) {
    forall i :: 0 <= i < |s| ==> IsDigit(s[i])
  }

  /** The text of %u / %lu: no sign, no leading zero. */
  function Digits(n: nat): (s: string)
    ensures s != [] && AllDigits(s)
  {
    if n < 10 then [DigitChar(n)] else Digits(n / 10) + [DigitChar(n % 10)]
  }

  function Value(s: string): nat
    requires AllDigits(s)
  {
    if s == [] then 0 else 10 * Value(s[..|s| - 1]) + DigitValue(s[|s| - 1])
  }

  /** The length of the longest run of digits at the front of `s`. */
  function DigitRun(s: string): (k: nat)
    ensures k <= |s| && AllDigits(s[..k])
    ensures k < |s| ==> !IsDigit(s[k])
  {
    if s == [] || !IsDigit(s[0]) then 0
    else
      var k := DigitRun(s[1..]) + 1;
      assert s[..k] == [s[0]] + s[1..][..k - 1];
      k
  }

  /** A number as an unsigned type up to `max` holds it: the largest value if it is too
      large, and counted down from max + 1 behind a minus sign. */
  function Limited(v: nat, negative: bool, max: nat): (n: nat)
    ensures v > max ==> n == max
    ensures v <= max && (!negative || v == 0) ==> n == v
    ensures v <= max && negative && v > 0 ==> n + v == max + 1
  {
    if v > max then max else if negative && v > 0 then max + 1 - v else v
  }

  function Pow10(k: nat): (p: nat)
    ensures 1 <= p
  {
    if k == 0 then 1 else 10 * Pow10(k - 1)
  }

  lemma {:induction false} ValueOfDigits(n: nat)
    ensures Value(Digits(n)) == n
  {
    if n >= 10 {
      ValueOfDigits(n / 10);
      var s := Digits(n);
      assert s[..|s| - 1] == Digits(n / 10);
    }
  }

  /** In base ten, '0' being character 48. */
  lemma {:induction false} ValueGrows(s: string, c: char)
    requires AllDigits(s) && 48 <= c as int <= 57
    ensures Value([]) == 0 && AllDigits(s + [c]) && Value(s + [c]) == 10 * Value(s) + (c as int - 48)
  {
    assert (s + [c])[..|s|] == s;
  }

  /** No leading zero: a number of at least ten does not begin with one. */
  lemma {:induction false} NoLeadingZero(n: nat)
    requires n > 0
    ensures Digits(n)[0] != '0'
  {
    if n >= 10 { NoLeadingZero(n / 10); }
  }

  lemma {:induction false} DigitsLength(n: nat, k: nat)
    requires 0 < k
    ensures |Digits(n)| <= k <==> n < Pow10(k)
  {
    if n >= 10 && k > 1 {
      DigitsLength(n / 10, k - 1);
    } else if k > 1 {
      assert Pow10(k) >= 10;
    }
  }

  /** A digit text that is followed by a non-digit is read back whole. */
  lemma {:induction false} RunOfDigits(s: string, rest: string)
    requires AllDigits(s)
    requires rest == [] || !IsDigit(rest[0])
    ensures DigitRun(s + rest) == |s|
  {
    if s == [] {
      assert s + rest == rest;
    } else {
      assert (s + rest)[1..] == s[1..] + rest;
      RunOfDigits(s[1..], rest);
    }
  }

  lemma {:induction false} ReadBack(n: nat, rest: string)
    requires rest == [] || !IsDigit(rest[0])
    ensures var s := Digits(n) + rest;
            DigitRun(s) == |Digits(n)| && Value(s[..DigitRun(s)]) == n
  {
    RunOfDigits(Digits(n), rest);
    ValueOfDigits(n);
    assert (Digits(n) + rest)[..|Digits(n)|] == Digits(n);
  }

  // Blanks, a sign and digits, as strtoul and scanf take them apart.

  lemma SignedParts(blanks: string, sign: string, digits: string, s: string)
    requires s == blanks + (sign + digits) && sign in {"", "+", "-"} && digits != [] && IsDigit(digits[0])
    ensures |blanks| + |sign| < |s| && s[|blanks| + |sign|..] == digits
    ensures s[|blanks|] == '-' <==> sign == "-"
    ensures |sign| == if s[|blanks|] == '+' || s[|blanks|] == '-' then 1 else 0
  {
    assert s[|blanks|] == if sign == "" then digits[0] else sign[0];
  }

  lemma {:induction false} BlanksInFront(blanks: string, sign: string, digits: string, s: string)
    requires forall i :: 0 <= i < |blanks| ==> blanks[i] as int == 32 || 9 <= blanks[i] as int <= 13
    requires sign in {"", "+", "-"} && digits != [] && IsDigit(digits[0]) && s == blanks + (sign + digits)
    ensures SpaceRun(s) == |blanks| && s[|blanks|..] == sign + digits
  {
    NotBlank(sign, digits);
    BlanksSkipped(blanks, sign + digits);
  }

  lemma {:induction false} DigitsInFront(d: string, rest: string, digits: string)
    requires AllDigits(d) && d != [] && (rest == [] || !IsDigit(rest[0])) && digits == d + rest
    ensures digits != [] && IsDigit(digits[0]) && DigitRun(digits) == |d| && digits[..|d|] == d
  {
    RunOfDigits(d, rest);
  }

  /** A number stands in `s` behind blanks and at most one sign. */
  predicate NumberAt(s: string, blanks: nat, sign: nat, negative: bool, d: string) {
    && SpaceRun(s) == blanks && blanks + sign < |s| && AllDigits(d) && d != []
    && (negative <==> s[blanks] == '-')
    && sign == (if s[blanks] == '+' || s[blanks] == '-' then 1 else 0)
    && DigitRun(s[blanks + sign..]) == |d| && s[blanks + sign..][..|d|] == d
  }

  lemma {:induction false} NumberParts(blanks: string, sign: string, d: string, rest: string, s: string)
    requires forall i :: 0 <= i < |blanks| ==> blanks[i] as int == 32 || 9 <= blanks[i] as int <= 13
    requires sign in {"", "+", "-"} && AllDigits(d) && d != [] && (rest == [] || !IsDigit(rest[0]))
    requires s == blanks + (sign + (d + rest))
    ensures NumberAt(s, |blanks|, |sign|, sign == "-", d)
  {
    var digits := d + rest;
    DigitsInFront(d, rest, digits);
    BlanksInFront(blanks, sign, digits, s);
    SignedParts(blanks, sign, digits, s);
    assert s[|blanks| + |sign|..] == digits;
  }

  lemma NotBlank(sign: string, digits: string)
    requires sign in {"", "+", "-"} && digits != [] && IsDigit(digits[0])
    ensures sign + digits != [] && !((sign + digits)[0] as int == 32 || 9 <= (sign + digits)[0] as int <= 13)
  {
  }
}
