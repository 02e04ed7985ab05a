/** Dates as text in the program's single layout, Go's "20060102": four-digit
    year, two-digit month, two-digit day, nothing else. */
module DateText {
  import opened Results
  import opened Decimal
  import opened Calendar

  /** t.Format("20060102"): the year zero-padded to four digits (a year past
      9999 prints all its digits, with no leading zero), then month and day
      on two digits each.
      The last two digits read as the day, the two before them as the month,
      and everything before those as the year. */
  function FormatDate(d: Date): (s: string)
    requires Valid(d)
    ensures AllDigits(s) && |s| >= 8
    ensures d.year <= 9999 ==> |s| == 8
    ensures d.year > 9999 ==> s[0] != '0'
    ensures Value(s[..|s| - 4]) == d.year
    ensures Value(s[|s| - 4..|s| - 2]) == d.month
    ensures Value(s[|s| - 2..]) == d.day
  {
    DigitsWidth(d.year, 4);
    DigitsWidth(d.month, 2);
    DigitsWidth(d.day, 2);
    var y, m, dd := Digits(d.year, 4), Digits(d.month, 2), Digits(d.day, 2);
    var s := y + m + dd;
    assert s[..|s| - 4] == y && s[|s| - 4..|s| - 2] == m && s[|s| - 2..] == dd;
    DigitsBeyondWidth(d.year, 4);
    assert |y| > 4 ==> s[0] == y[0];
    s
  }

  /** time.Parse("20060102", s): exactly eight ASCII digits naming a real
      calendar day. Whatever it accepts is the formatting of what it returns. */
  function ParseDate(s: string): (r: Option<Date>)
    ensures r.Some? ==> Valid(r.value) && r.value.year <= 9999 && FormatDate(r.value) == s
  {
    if |s| != 8 || !AllDigits(s) then
      None
    else
      var year, month, day := Value(s[..4]), Value(s[4..6]), Value(s[6..]);
      if 1 <= month <= 12 && 1 <= day <= DaysIn(month, year) then
        ValueBound(s[..4]);
        DigitsOfValue(s[..4]);
        DigitsOfValue(s[4..6]);
        DigitsOfValue(s[6..]);
        assert s == s[..4] + s[4..6] + s[6..];
        Some(Date(year, month, day))
      else
        None
  }

  /** Every date up to year 9999 survives formatting and parsing. Together
      with ParseDate's contract: ParseDate(s) == Some(d) exactly when s is
      FormatDate(d) for a valid d no later than year 9999. */
  lemma ParseFormat(d: Date)
    requires Valid(d) && d.year <= 9999
    ensures ParseDate(FormatDate(d)) == Some(d)
  {
    var y, m, dd := Digits(d.year, 4), Digits(d.month, 2), Digits(d.day, 2);
    DigitsWidth(d.year, 4);
    DigitsWidth(d.month, 2);
    DigitsWidth(d.day, 2);
    var s := FormatDate(d);
    assert s[..4] == y && s[4..6] == m && s[6..] == dd;
  }

  /** A date after year 9999 formats to more than eight characters, which the
      layout cannot read back. */
  lemma FormatBeyondLayout(d: Date)
    requires Valid(d) && d.year > 9999
    ensures ParseDate(FormatDate(d)) == None
  {
    var s := FormatDate(d);
    ValueBound(s[..|s| - 4]);
  }
}
