/** The `YYYY-MM-DD` strings records are filed under: the key of a date
    (`formatDate` in js/calculations.js), the month prefix that
    `getMonthRecords` in presencia60/js/storage.js selects keys by, and the
    reading of a date typed into the license form. */
module DateKeys {
  import opened Common
  import opened Calendar

  /** The year as `toISOString` writes it: four digits for the years 0 to
      9999, otherwise a sign and six digits. */
  function IsoYear(year: int): string
  {
    if 0 <= year <= 9999 then PadStart(NatToString(year), 4)
    else if year < 0 then "-" + PadStart(NatToString(-year), 6)
    else "+" + PadStart(NatToString(year), 6)
  }

  /** A month number (1..12) or a day of the month, on two digits. */
  function TwoDigits(n: nat): string
  {
    PadStart(NatToString(n), 2)
  }

  /** `formatDate(date)`: the key of a calendar day. */
  function DateKey(d: Date): (k: string)
    ensures 0 <= d.year <= 9999 ==> |k| == 10 && k[4] == '-' && k[7] == '-'
                                    && AllDigits(k[..4]) && AllDigits(k[5..7]) && AllDigits(k[8..])
  {
    if 0 <= d.year <= 9999 then
      YearDigits(d.year);
      TwoDigitsOf(d.month + 1);
      TwoDigitsOf(d.day);
      var k := IsoYear(d.year) + "-" + TwoDigits(d.month + 1) + "-" + TwoDigits(d.day);
      assert k[..4] == IsoYear(d.year) && k[5..7] == TwoDigits(d.month + 1) && k[8..] == TwoDigits(d.day);
      k
    else
      IsoYear(d.year) + "-" + TwoDigits(d.month + 1) + "-" + TwoDigits(d.day)
  }

  /** The prefix `getMonthRecords(year, month)` selects keys by:
      `${year}-` and the month number padded to two digits. */
  function MonthPrefix(year: int, month: int): (p: string)
    ensures 1000 <= year <= 9999 && 0 <= month < 12 ==> p == IsoYear(year) + "-" + TwoDigits(month + 1)
  {
    if 1000 <= year <= 9999 && 0 <= month < 12 then
      DigitCount(year, 3);
      DigitCount(year, 4);
      IntToString(year) + "-" + PadStart(IntToString(month + 1), 2)
    else
      IntToString(year) + "-" + PadStart(IntToString(month + 1), 2)
  }

  /** The date `new Date(value + 'T12:00:00')` stands for, when `value` is a
      `YYYY-MM-DD` string naming a day of the calendar. */
  function ParseDateKey(s: string): (r: Option<Date>)
    ensures r.Some? ==> 0 <= r.value.year <= 9999 && DateKey(r.value) == s
  {
    if |s| == 10 && s[4] == '-' && s[7] == '-'
       && AllDigits(s[..4]) && AllDigits(s[5..7]) && AllDigits(s[8..])
    then
      var year, month, day := DigitsValue(s[..4]), DigitsValue(s[5..7]), DigitsValue(s[8..]);
      if 1 <= month <= 12 && 1 <= day <= DaysInMonth(year, month - 1) then
        var d: Date := CivilDate(year, month - 1, day);
        ParsedKeyIsCanonical(s, d);
        Some(d)
      else None
    else None
  }

  /** A date read from a well-formed key writes back as that key. */
  lemma ParsedKeyIsCanonical(s: string, d: Date)
    requires |s| == 10 && s[4] == '-' && s[7] == '-'
    requires AllDigits(s[..4]) && AllDigits(s[5..7]) && AllDigits(s[8..])
    requires d.year == DigitsValue(s[..4]) && d.month + 1 == DigitsValue(s[5..7]) && d.day == DigitsValue(s[8..])
    ensures 0 <= d.year <= 9999 && DateKey(d) == s
  {
    PaddedDigits(s[..4]);
    DigitCount(d.year, 4);
    PaddedDigits(s[5..7]);
    PaddedDigits(s[8..]);
    assert s == s[..4] + "-" + s[5..7] + "-" + s[8..];
  }

  /** The four digits of a year from 0 to 9999, and what they denote. */
  lemma YearDigits(year: int)
    requires 0 <= year <= 9999
    ensures |IsoYear(year)| == 4 && AllDigits(IsoYear(year)) && DigitsValue(IsoYear(year)) == year
  {
    DigitCount(year, 4);
    PaddedNumber(year, 4);
  }

  lemma TwoDigitsOf(n: nat)
    requires n <= 99
    ensures |TwoDigits(n)| == 2 && AllDigits(TwoDigits(n)) && DigitsValue(TwoDigits(n)) == n
  {
    DigitCount(n, 2);
    PaddedNumber(n, 2);
  }

  /** Reading back the key of a date with a four-digit year gives the date. */
  lemma KeyRoundTrip(d: Date)
    requires 0 <= d.year <= 9999
    ensures ParseDateKey(DateKey(d)) == Some(d)
  {
    var k := DateKey(d);
    YearDigits(d.year);
    TwoDigitsOf(d.month + 1);
    TwoDigitsOf(d.day);
    assert k[..4] == IsoYear(d.year);
    assert k[5..7] == TwoDigits(d.month + 1);
    assert k[8..] == TwoDigits(d.day);
  }

  /** Two dates with four-digit years share a key only if they are the same day. */
  lemma DateKeyInjective(d: Date, e: Date)
    requires 0 <= d.year <= 9999 && 0 <= e.year <= 9999
    requires DateKey(d) == DateKey(e)
    ensures d == e
  {
    KeyRoundTrip(d);
    KeyRoundTrip(e);
  }

  lemma PrefixParts(year: int, month: int)
    requires 1000 <= year <= 9999 && 0 <= month < 12
    ensures MonthPrefix(year, month) == IsoYear(year) + "-" + TwoDigits(month + 1)
    ensures |MonthPrefix(year, month)| == 7
  {
    DigitCount(year, 3);
    DigitCount(year, 4);
    YearDigits(year);
    TwoDigitsOf(month + 1);
  }

  /** A string made of a 4-character and a 2-character field, separated by
      '-', starts another such string exactly when both fields agree. */
  lemma FieldsMatch(y1: string, m1: string, rest: string, y2: string, m2: string)
    requires |y1| == |y2| == 4 && |m1| == |m2| == 2
    ensures StartsWith(y1 + "-" + m1 + rest, y2 + "-" + m2) <==> y1 == y2 && m1 == m2
  {
    var k, p := y1 + "-" + m1 + rest, y2 + "-" + m2;
    assert k[..4] == y1 && k[5..7] == m1;
    assert p[..4] == y2 && p[5..7] == m2;
    if StartsWith(k, p) {
      assert k[..7] == p;
      assert k[..7][..4] == p[..4] && k[..7][5..7] == p[5..7];
    }
    if y1 == y2 && m1 == m2 {
      assert k[..7] == p;
    }
  }

  /** A key of a date in the years 0 to 9999 starts with the prefix of a
      month of a year from 1000 to 9999 exactly when the date lies in that
      month. */
  lemma KeyInMonth(d: Date, year: int, month: int)
    requires 0 <= d.year <= 9999 && 1000 <= year <= 9999 && 0 <= month < 12
    ensures StartsWith(DateKey(d), MonthPrefix(year, month)) <==> d.year == year && d.month == month
  {
    PrefixParts(year, month);
    YearDigits(d.year);
    YearDigits(year);
    TwoDigitsOf(d.month + 1);
    TwoDigitsOf(month + 1);
    assert DateKey(d) == IsoYear(d.year) + "-" + TwoDigits(d.month + 1) + ("-" + TwoDigits(d.day));
    FieldsMatch(IsoYear(d.year), TwoDigits(d.month + 1), "-" + TwoDigits(d.day), IsoYear(year), TwoDigits(month + 1));
  }
}
