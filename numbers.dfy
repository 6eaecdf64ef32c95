/**
 * Fixed-width integers, decimal digit strings, and `int.TryParse` / `long.TryParse`
 * with their default number style (leading and trailing white space, one leading sign,
 * ASCII digits, and a value that fits the width; anything else fails).
 */
module Numbers {
  import opened Wrappers

  const INT32_MIN: int := -0x8000_0000
  const INT32_MAX: int := 0x7FFF_FFFF
  const INT64_MIN: int := -0x8000_0000_0000_0000
  const INT64_MAX: int := 0x7FFF_FFFF_FFFF_FFFF

  /** C#'s `int` and `long`. */
  type Int32 = x: int | INT32_MIN <= x <= INT32_MAX
  type Int64 = x: int | INT64_MIN <= x <= INT64_MAX

  /** The value of an `int` expression evaluated in C#'s default unchecked context: reduced modulo 2^32. */
  function Wrap32(x: int): (r: Int32)
    ensures (r - x) % 0x1_0000_0000 == 0
    ensures INT32_MIN <= x <= INT32_MAX ==> r == x
  {
    var m := x % 0x1_0000_0000;
    if m <= INT32_MAX then m else m - 0x1_0000_0000
  }

  predicate IsDigit(c: char) { '0' <= c <= '9' }

  predicate AllDigits(s: string) { forall i | 0 <= i < |s| :: IsDigit(s[i]) }

  function DigitValue(c: char): nat
    requires IsDigit(c)
  {
    c as int - '0' as int
  }

  function DigitChar(n: nat): (c: char)
    requires n < 10
    ensures IsDigit(c) && DigitValue(c) == n
  {
    ('0' as int + n) as char
  }

  function Pow10(w: nat): (p: nat)
    ensures p >= 1
  {
    if w == 0 then 1 else 10 * Pow10(w - 1)
  }

  /** The number a string of decimal digits denotes, most significant digit first. */
  function DigitsValue(s: string): nat
    requires AllDigits(s)
  {
    if s == [] then 0 else DigitsValue(s[..|s| - 1]) * 10 + DigitValue(s[|s| - 1])
  }

  /** `n` written with exactly `w` decimal digits, padded with leading zeros (the custom format specifiers `yyyy`, `MM`, `dd`). */
  function Digits(n: nat, w: nat): (s: string)
    requires n < Pow10(w)
    ensures |s| == w && AllDigits(s)
  {
    if w == 0 then [] else Digits(n / 10, w - 1) + [DigitChar(n % 10)]
  }

  /** `Digits` is read back by `DigitsValue`. */
  lemma {:induction false} DigitsValueOfDigits(n: nat, w: nat)
    requires n < Pow10(w)
    ensures DigitsValue(Digits(n, w)) == n
  {
    if w > 0 {
      var s := Digits(n, w);
      assert s[..|s| - 1] == Digits(n / 10, w - 1);
      DigitsValueOfDigits(n / 10, w - 1);
    }
  }

  /** A `w`-digit string is the padded form of its own value. */
  lemma {:induction false} DigitsOfDigitsValue(s: string)
    requires AllDigits(s)
    ensures DigitsValue(s) < Pow10(|s|)
    ensures Digits(DigitsValue(s), |s|) == s
  {
    if s != [] {
      var init := s[..|s| - 1];
      DigitsOfDigitsValue(init);
      var v := DigitsValue(s);
      assert v / 10 == DigitsValue(init) && v % 10 == DigitValue(s[|s| - 1]);
      assert s == init + [s[|s| - 1]];
    }
  }

  /** The shortest decimal form of `n` (what `ToString()` gives a non-negative integer). */
  function Decimal(n: nat): (s: string)
    ensures |s| >= 1 && AllDigits(s)
  {
    if n < 10 then [DigitChar(n)] else Decimal(n / 10) + [DigitChar(n % 10)]
  }

  lemma {:induction false} DigitsValueOfDecimal(n: nat)
    ensures DigitsValue(Decimal(n)) == n
  {
    var s := Decimal(n);
    if n < 10 {
      assert s[..|s| - 1] == [];
    } else {
      assert s[..|s| - 1] == Decimal(n / 10);
      DigitsValueOfDecimal(n / 10);
    }
  }

  /** `ToString()` of an integer: a minus sign for negative values, then its decimal digits. */
  function ShowInteger(n: int): string {
    if n < 0 then "-" + Decimal(-n) else Decimal(n)
  }

  /** The white space `NumberStyles.AllowLeadingWhite` / `AllowTrailingWhite` skip: U+0009..U+000D and U+0020. */
  predicate IsParseWhite(c: char) { c == ' ' || '\t' <= c <= '\r' }

  function TrimStartWhite(s: string): (r: string)
    ensures |r| <= |s|
  {
    if s != [] && IsParseWhite(s[0]) then TrimStartWhite(s[1..]) else s
  }

  function TrimEndWhite(s: string): (r: string)
    ensures |r| <= |s|
  {
    if s != [] && IsParseWhite(s[|s| - 1]) then TrimEndWhite(s[..|s| - 1]) else s
  }

  /** An optional sign followed by at least one digit, without surrounding white space. */
  function ParseSigned(t: string): Option<int> {
    if t != [] && (t[0] == '-' || t[0] == '+') then
      var d := t[1..];
      if d != [] && AllDigits(d) then
        var v: int := DigitsValue(d);
        Some(if t[0] == '-' then -v else v)
      else None
    else if t != [] && AllDigits(t) then Some(DigitsValue(t))
    else None
  }

  /** `TryParse` with `NumberStyles.Integer` into a type whose range is `lo..hi`; `None` is a failed parse. */
  function ParseInteger(s: string, lo: int, hi: int): (r: Option<int>)
    ensures r.Some? ==> lo <= r.value <= hi
  {
    match ParseSigned(TrimEndWhite(TrimStartWhite(s)))
    case Some(v) => if lo <= v <= hi then Some(v) else None
    case None => None
  }

  /** `int.TryParse(s, out n)`. */
  function ParseInt32(s: string): (r: Option<Int32>)
    ensures r.Some? ==> ParseInteger(s, INT32_MIN, INT32_MAX) == Some(r.value as int)
    ensures r.None? ==> ParseInteger(s, INT32_MIN, INT32_MAX).None?
  {
    match ParseInteger(s, INT32_MIN, INT32_MAX)
    case Some(v) => Some(v as Int32)
    case None => None
  }

  /** `long.TryParse(s, out n)`. */
  function ParseInt64(s: string): (r: Option<Int64>)
    ensures r.Some? ==> ParseInteger(s, INT64_MIN, INT64_MAX) == Some(r.value as int)
    ensures r.None? ==> ParseInteger(s, INT64_MIN, INT64_MAX).None?
  {
    match ParseInteger(s, INT64_MIN, INT64_MAX)
    case Some(v) => Some(v as Int64)
    case None => None
  }

  lemma TrimNoWhite(s: string)
    requires forall i | 0 <= i < |s| :: !IsParseWhite(s[i])
    ensures TrimEndWhite(TrimStartWhite(s)) == s
  {
  }

  /** The decimal text of an integer is an optional minus sign and digits, with no white space. */
  lemma ShowIntegerSigned(n: int)
    ensures ParseSigned(ShowInteger(n)) == Some(n)
    ensures forall i | 0 <= i < |ShowInteger(n)| :: !IsParseWhite(ShowInteger(n)[i])
  {
    var s := ShowInteger(n);
    if n < 0 {
      assert s[0] == '-' && s[1..] == Decimal(-n);
      DigitsValueOfDecimal(-n);
    } else {
      DigitsValueOfDecimal(n);
    }
  }

  /** Parsing the decimal text of an integer gives that integer back exactly when it fits the range. */
  lemma ParseShowInteger(n: int, lo: int, hi: int)
    ensures ParseInteger(ShowInteger(n), lo, hi) == if lo <= n <= hi then Some(n) else None
  {
    ShowIntegerSigned(n);
    TrimNoWhite(ShowInteger(n));
  }
}
