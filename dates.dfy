/** Calendar dates as (year, month, day) triples, their ISO text form (what
    Python's str() gives for a date, and what the sheet stores in column 2), and
    their chronological order. */
module Dates {
  import opened DecimalText

  datatype Date = Date(year: int, month: int, day: int)

  function IsLeapYear(y: int): bool
  {
    y % 4 == 0 && (y % 100 != 0 || y % 400 == 0)
  }

  function DaysInMonth(y: int, m: int): (n: int)
    requires 1 <= m <= 12
    ensures 28 <= n <= 31
  {
    if m == 2 then (if IsLeapYear(y) then 29 else 28)
    else if m == 4 || m == 6 || m == 9 || m == 11 then 30
    else 31
  }

  /** The dates Python's datetime.date can hold (years 1 through 9999). */
  predicate ValidDate(d: Date)
  {
    1 <= d.year <= 9999 && 1 <= d.month <= 12 && 1 <= d.day <= DaysInMonth(d.year, d.month)
  }

  /** "YYYY-MM-DD", zero-padded; its three number fields read back as the date's. */
  function DateText(d: Date): (s: string)
    requires ValidDate(d)
    ensures |s| == 10 && s[4] == '-' && s[7] == '-'
    ensures AllDigits(s[..4]) && AllDigits(s[5..7]) && AllDigits(s[8..])
    ensures NatValue(s[..4]) == d.year && NatValue(s[5..7]) == d.month && NatValue(s[8..]) == d.day
  {
    var y, m, dd := Padded(d.year, 4), Padded(d.month, 2), Padded(d.day, 2);
    var s := y + "-" + m + "-" + dd;
    assert s[..4] == y && s[5..7] == m && s[8..] == dd;
    PaddedValue(d.year, 4);
    PaddedValue(d.month, 2);
    PaddedValue(d.day, 2);
    s
  }

  /** Reads "YYYY-MM-DD" (exactly four, two and two digits) back into a valid date. */
  function ParseIsoDate(s: string): (r: Option<Date>)
    ensures r.Some? ==> ValidDate(r.value)
  {
    if |s| == 10 && s[4] == '-' && s[7] == '-'
       && AllDigits(s[..4]) && AllDigits(s[5..7]) && AllDigits(s[8..])
    then
      var d := Date(NatValue(s[..4]), NatValue(s[5..7]), NatValue(s[8..]));
      if ValidDate(d) then Some(d) else None
    else None
  }

  /** Writing a date and reading it back is the identity. */
  lemma DateTextRoundTrip(d: Date)
    requires ValidDate(d)
    ensures ParseIsoDate(DateText(d)) == Some(d)
  {
    var s := DateText(d);
    assert Date(NatValue(s[..4]), NatValue(s[5..7]), NatValue(s[8..])) == d;
  }

  /** Strictly earlier in the calendar. */
  predicate DateBefore(a: Date, b: Date)
  {
    a.year < b.year || (a.year == b.year && (a.month < b.month || (a.month == b.month && a.day < b.day)))
  }

  /** DateBefore is a strict total order. */
  lemma DateBeforeOrder(a: Date, b: Date, c: Date)
    ensures !DateBefore(a, a)
    ensures DateBefore(a, b) && DateBefore(b, c) ==> DateBefore(a, c)
    ensures a == b || DateBefore(a, b) || DateBefore(b, a)
    ensures !(DateBefore(a, b) && DateBefore(b, a))
  {
  }
}
