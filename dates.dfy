/**
 * Calendar dates as `DateTime` holds them (years 1 to 9999 of the Gregorian calendar),
 * their `ToString("yyyyMMdd")` key, and `DateTime.TryParseExact(key, "yyyyMMdd", …)`.
 * The key is what the index stores for a release date and what a date range query
 * compares, so the central fact here is that comparing keys as strings compares the
 * dates as dates.
 */
module Dates {
  import opened Wrappers
  import opened Text
  import opened Numbers

  datatype CalendarDate = CalendarDate(year: int, month: int, day: int)

  predicate IsLeapYear(y: int) {
    y % 4 == 0 && (y % 100 != 0 || y % 400 == 0)
  }

  function DaysInMonth(y: int, m: int): int
    requires 1 <= m <= 12
  {
    if m == 2 then (if IsLeapYear(y) then 29 else 28)
    else if m == 4 || m == 6 || m == 9 || m == 11 then 30
    else 31
  }

  predicate ValidDate(d: CalendarDate) {
    && 1 <= d.year <= 9999
    && 1 <= d.month <= 12
    && 1 <= d.day <= DaysInMonth(d.year, d.month)
  }

  /** The date part of a `DateTime` value (its time of day never reaches the key). */
  type Date = d: CalendarDate | ValidDate(d) witness CalendarDate(1, 1, 1)

  /** Calendar order: by year, then month, then day. */
  predicate DateLe(a: Date, b: Date) {
    || a.year < b.year
    || (a.year == b.year && a.month < b.month)
    || (a.year == b.year && a.month == b.month && a.day <= b.day)
  }

  /** `d.ToString("yyyyMMdd")`: four-digit year, two-digit month, two-digit day. */
  function DateKey(d: Date): (k: string)
    ensures |k| == 8 && AllDigits(k)
  {
    Digits(d.year, 4) + Digits(d.month, 2) + Digits(d.day, 2)
  }

  /** `DateTime.TryParseExact(s, "yyyyMMdd", …)`: eight digits that name a real date. */
  function ParseKey(s: string): Option<Date> {
    if |s| == 8 && AllDigits(s) then
      var d := CalendarDate(DigitsValue(s[..4]), DigitsValue(s[4..6]), DigitsValue(s[6..]));
      if ValidDate(d) then Some(d) else None
    else None
  }

  /** Reading a stored key back gives the date that was stored. */
  lemma KeyRoundTrip(d: Date)
    ensures ParseKey(DateKey(d)) == Some(d)
  {
    var k := DateKey(d);
    assert k[..4] == Digits(d.year, 4);
    assert k[4..6] == Digits(d.month, 2);
    assert k[6..] == Digits(d.day, 2);
    DigitsValueOfDigits(d.year, 4);
    DigitsValueOfDigits(d.month, 2);
    DigitsValueOfDigits(d.day, 2);
  }

  /** Every string that parses as a key is the key of the date it parses to. */
  lemma ParsedKeyIsKey(s: string)
    requires ParseKey(s).Some?
    ensures DateKey(ParseKey(s).value) == s
  {
    var y, m, dd := s[..4], s[4..6], s[6..];
    assert AllDigits(y) && AllDigits(m) && AllDigits(dd);
    DigitsOfDigitsValue(y);
    DigitsOfDigitsValue(m);
    DigitsOfDigitsValue(dd);
    var d := ParseKey(s).value;
    assert d.year == DigitsValue(y) && d.month == DigitsValue(m) && d.day == DigitsValue(dd);
    assert DateKey(d) == Digits(d.year, |y|) + Digits(d.month, |m|) + Digits(d.day, |dd|);
    assert s == y + m + dd;
  }

  /** Zero-padded numerals of one width are ordered as strings like the numbers they denote. */
  lemma {:induction false} DigitsOrder(a: nat, b: nat, w: nat)
    requires a < Pow10(w) && b < Pow10(w)
    ensures LexLe(Digits(a, w), Digits(b, w)) <==> a <= b
  {
    if w > 0 {
      var p, p' := Digits(a / 10, w - 1), Digits(b / 10, w - 1);
      var q, q' := [DigitChar(a % 10)], [DigitChar(b % 10)];
      DigitsOrder(a / 10, b / 10, w - 1);
      LexAppend(p, q, p', q');
      DigitsValueOfDigits(a / 10, w - 1);
      DigitsValueOfDigits(b / 10, w - 1);
      assert p == p' <==> a / 10 == b / 10;
      assert LexLe(q, q') <==> a % 10 <= b % 10 by {
        assert q[1..] == [] && q'[1..] == [];
      }
    }
  }

  /** Distinct values in one width have distinct numerals. */
  lemma DigitsInjective(a: nat, b: nat, w: nat)
    requires a < Pow10(w) && b < Pow10(w)
    ensures Digits(a, w) == Digits(b, w) <==> a == b
  {
    DigitsValueOfDigits(a, w);
    DigitsValueOfDigits(b, w);
  }

  /**
   * For every pair of dates, the first is on or before the second exactly when its
   * `yyyyMMdd` key is ordinally at most the other key: the string range query on the
   * ReleaseDate field selects a range of dates.
   */
  lemma KeyOrder(a: Date, b: Date)
    ensures DateLe(a, b) <==> LexLe(DateKey(a), DateKey(b))
  {
    var ya, ma, da := Digits(a.year, 4), Digits(a.month, 2), Digits(a.day, 2);
    var yb, mb, db := Digits(b.year, 4), Digits(b.month, 2), Digits(b.day, 2);
    assert DateKey(a) == ya + (ma + da);
    assert DateKey(b) == yb + (mb + db);
    LexAppend(ya, ma + da, yb, mb + db);
    LexAppend(ma, da, mb, db);
    DigitsOrder(a.year, b.year, 4);
    DigitsOrder(a.month, b.month, 2);
    DigitsOrder(a.day, b.day, 2);
    DigitsInjective(a.year, b.year, 4);
    DigitsInjective(a.month, b.month, 2);
  }
}
