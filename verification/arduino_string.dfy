/**
 * The parts of the Arduino `String` class that the firmware uses, on `seq<char>`.
 * Positions are `unsigned int` in that class: a caller that passes a negative
 * `int` gets it converted (see CppInt.U32) before these functions see it.
 */
module ArduinoString {

  /** `s.substring(left, right)`: the bounds are swapped when `left > right`,
      a start at or past the end gives "", an end past the end is clamped. */
  function Substring(s: string, left: nat, right: nat): (r: string)
    ensures left <= right && left < |s| ==> r == s[left..if right <= |s| then right else |s|]
    ensures left <= right && left >= |s| ==> r == ""
    ensures right < left ==> r == Substring(s, right, left)
  {
    if left > right then Substring(s, right, left)
    else if left >= |s| then ""
    else s[left..if right <= |s| then right else |s|]
  }

  /** `s.substring(left)`: everything from `left` on, "" when `left` is at or past the end. */
  function SubstringFrom(s: string, left: nat): (r: string)
    ensures left < |s| ==> r == s[left..]
    ensures left >= |s| ==> r == ""
  {
    Substring(s, left, |s|)
  }

  /** `s.remove(index)`: cuts the string at `index`; nothing happens when `index` is at or past the end. */
  function RemoveFrom(s: string, index: nat): (r: string)
    ensures index < |s| ==> r == s[..index]
    ensures index >= |s| ==> r == s
  {
    if index < |s| then s[..index] else s
  }

  /** `s.indexOf(c)`: the first position of `c`, or -1. */
  function IndexOf(s: string, c: char): (r: int)
    ensures -1 <= r < |s|
    ensures r >= 0 ==> s[r] == c
    ensures forall j :: 0 <= j < |s| && (r == -1 || j < r) ==> s[j] != c
  {
    if |s| == 0 then -1
    else if s[0] == c then 0
    else
      var k := IndexOf(s[1..], c);
      if k == -1 then -1 else k + 1
  }

  /** `s.lastIndexOf(c)`: the last position of `c`, or -1. */
  function LastIndexOf(s: string, c: char): (r: int)
    ensures -1 <= r < |s|
    ensures r >= 0 ==> s[r] == c
    ensures forall j :: r < j < |s| ==> s[j] != c
  {
    if |s| == 0 then -1
    else if s[|s| - 1] == c then |s| - 1
    else LastIndexOf(s[..|s| - 1], c)
  }

  predicate IsDigit(c: char) {
    '0' <= c <= '9'
  }

  function DigitValue(c: char): nat
    requires IsDigit(c)
  {
    (c - '0') as nat
  }

  /** The characters `atol` skips before a number (C's `isspace`). */
  predicate IsSpace(c: char) {
    c == ' ' || c == '\t' || c == '\n' || c == '\r' || c == '\U{B}' || c == '\U{C}'
  }

  predicate AllDigits(s: string) {
    forall i :: 0 <= i < |s| ==> IsDigit(s[i])
  }

  /** The longest prefix of `s` made of decimal digits. */
  function LeadingDigits(s: string): (r: string)
    ensures |r| <= |s| && r == s[..|r|] && AllDigits(r)
    ensures |r| < |s| ==> !IsDigit(s[|r|])
  {
    if |s| == 0 || !IsDigit(s[0]) then ""
    else [s[0]] + LeadingDigits(s[1..])
  }

  /** The value of a string of decimal digits, most significant first. */
  function DecimalValue(ds: string): (v: nat)
    requires AllDigits(ds)
  {
    if |ds| == 0 then 0 else DecimalValue(ds[..|ds| - 1]) * 10 + DigitValue(ds[|ds| - 1])
  }

  function SkipSpaces(s: string): (r: string)
    ensures |r| <= |s| && r == s[|s| - |r|..]
    ensures |r| > 0 ==> !IsSpace(r[0])
  {
    if |s| > 0 && IsSpace(s[0]) then SkipSpaces(s[1..]) else s
  }

  /** `s.toInt()`, which is C's `atol`: leading white space, an optional sign, then the
      leading decimal digits; 0 when there are none. */
  function ToInt(s: string): int
  {
    var t := SkipSpaces(s);
    if |t| > 0 && t[0] == '-' then -(DecimalValue(LeadingDigits(t[1..])) as int)
    else if |t| > 0 && t[0] == '+' then DecimalValue(LeadingDigits(t[1..]))
    else DecimalValue(LeadingDigits(t))
  }

  /** Whatever follows the digits does not change the value `toInt` reads. */
  lemma {:induction false} LeadingDigitsOfDigitsThen(ds: string, rest: string)
    requires AllDigits(ds)
    requires |rest| > 0 ==> !IsDigit(rest[0])
    ensures LeadingDigits(ds + rest) == ds
  {
    if |ds| == 0 {
      assert ds + rest == rest;
    } else {
      assert (ds + rest)[1..] == ds[1..] + rest;
      LeadingDigitsOfDigitsThen(ds[1..], rest);
    }
  }

  /** A string of digits, followed by anything that is not a digit, reads as its decimal value. */
  lemma ToIntOfDigits(ds: string, rest: string)
    requires |ds| > 0 && AllDigits(ds)
    requires |rest| > 0 ==> !IsDigit(rest[0])
    ensures ToInt(ds + rest) == DecimalValue(ds)
  {
    assert SkipSpaces(ds + rest) == ds + rest;
    LeadingDigitsOfDigitsThen(ds, rest);
  }

  /** `DecimalValue` of a string of `n` digits is below 10^n. */
  function Pow10(n: nat): (p: nat)
    ensures p >= 1
  {
    if n == 0 then 1 else 10 * Pow10(n - 1)
  }

  lemma {:induction false} DecimalValueBound(ds: string)
    requires AllDigits(ds)
    ensures DecimalValue(ds) < Pow10(|ds|)
  {
    if |ds| > 0 {
      DecimalValueBound(ds[..|ds| - 1]);
    }
  }

  /** `toInt` of a string of at most `n` characters lies strictly between -10^n and 10^n. */
  lemma ToIntBound(s: string)
    ensures -(Pow10(|s|) as int) < ToInt(s) < Pow10(|s|)
  {
    var t := SkipSpaces(s);
    if |t| > 0 && (t[0] == '-' || t[0] == '+') {
      DecimalValueBound(LeadingDigits(t[1..]));
      Pow10Monotone(|LeadingDigits(t[1..])|, |s|);
    } else {
      DecimalValueBound(LeadingDigits(t));
      Pow10Monotone(|LeadingDigits(t)|, |s|);
    }
  }

  lemma {:induction false} Pow10Monotone(a: nat, b: nat)
    requires a <= b
    ensures Pow10(a) <= Pow10(b)
  {
    if a < b {
      Pow10Monotone(a, b - 1);
    }
  }

  function DigitChar(d: nat): (c: char)
    requires d < 10
    ensures IsDigit(c) && DigitValue(c) == d
  {
    ('0' as int + d) as char
  }

  /** `String(n)` for a non-negative `n`: its decimal digits, with no leading zero. */
  function NatToString(n: nat): (s: string)
    ensures |s| > 0 && AllDigits(s)
    ensures |s| > 1 ==> s[0] != '0'
  {
    if n < 10 then [DigitChar(n)] else NatToString(n / 10) + [DigitChar(n % 10)]
  }

  /** Printing a number and reading it back with `toInt` gives the number. */
  lemma {:induction false} NatToStringRoundTrip(n: nat)
    ensures DecimalValue(NatToString(n)) == n
    ensures ToInt(NatToString(n)) == n
  {
    if n >= 10 {
      NatToStringRoundTrip(n / 10);
      var s := NatToString(n);
      assert s[..|s| - 1] == NatToString(n / 10);
    }
    ToIntOfDigits(NatToString(n), "");
    assert NatToString(n) + "" == NatToString(n);
  }

  /** The order `compareTo` (C's `strcmp`) puts strings in: `a` sorts before `b` when `a` is
      a proper prefix of `b` or has the smaller character at the first difference. */
  predicate StrLess(a: string, b: string)
  {
    if |a| == 0 then |b| > 0
    else if |b| == 0 then false
    else if a[0] != b[0] then a[0] < b[0]
    else StrLess(a[1..], b[1..])
  }

  /** `a.compareTo(b) > 0`: `a` sorts after `b`. */
  predicate CompareGreater(a: string, b: string) {
    StrLess(b, a)
  }

  lemma {:induction false} StrLessIrreflexive(a: string)
    ensures !StrLess(a, a)
  {
    if |a| > 0 {
      StrLessIrreflexive(a[1..]);
    }
  }

  lemma {:induction false} StrLessAsymmetric(a: string, b: string)
    requires StrLess(a, b)
    ensures !StrLess(b, a)
  {
    if |a| > 0 && |b| > 0 && a[0] == b[0] {
      StrLessAsymmetric(a[1..], b[1..]);
    }
  }

  lemma {:induction false} StrLessTransitive(a: string, b: string, c: string)
    requires StrLess(a, b) && StrLess(b, c)
    ensures StrLess(a, c)
  {
    if |a| > 0 && |b| > 0 && |c| > 0 && a[0] == b[0] && b[0] == c[0] {
      StrLessTransitive(a[1..], b[1..], c[1..]);
    }
  }

  /** Two different strings are always ordered one way or the other. */
  lemma {:induction false} StrLessTotal(a: string, b: string)
    requires a != b
    ensures StrLess(a, b) || StrLess(b, a)
  {
    if |a| > 0 && |b| > 0 && a[0] == b[0] {
      assert a == [a[0]] + a[1..] && b == [b[0]] + b[1..];
      StrLessTotal(a[1..], b[1..]);
    }
  }
}
