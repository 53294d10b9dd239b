/** Calendar dates in the ISO 8601 extended form YYYY-MM-DD (the
    `full-date` of section 5.6 of RFC 3339), as the deadline path reads
    them with LocalDate.parse and writes them back with LocalDate.toString.
    Only four-digit years are modelled. */
module Dates {
  import opened Results
  import opened JavaStrings

  datatype Date = Date(year: nat, month: nat, day: nat)

  /** Gregorian leap years (section 5.7 of RFC 3339). */
  predicate IsLeapYear(year: nat)
  {
    (year % 4 == 0 && year % 100 != 0) || year % 400 == 0
  }

  function DaysInMonth(year: nat, month: nat): (n: nat)
    requires 1 <= month <= 12
    ensures 28 <= n <= 31
    ensures n == 29 <==> month == 2 && IsLeapYear(year)
  {
    if month == 2 then (if IsLeapYear(year) then 29 else 28)
    else if month == 4 || month == 6 || month == 9 || month == 11 then 30
    else 31
  }

  /** A date LocalDate accepts, limited to the years 0000 to 9999. */
  predicate ValidDate(d: Date)
  {
    d.year <= 9999 && 1 <= d.month <= 12 && 1 <= d.day <= DaysInMonth(d.year, d.month)
  }

  /** LocalDate.toString for a four-digit year: zero-padded YYYY-MM-DD. */
  function FormatDate(d: Date): string
    requires ValidDate(d)
  {
    PadDigits(d.year, 4) + "-" + PadDigits(d.month, 2) + "-" + PadDigits(d.day, 2)
  }

  /** The written date is ten chars: four digits for the year, '-', two for
      the month, '-', two for the day, each run denoting its field. */
  lemma FormatDateLayout(d: Date)
    requires ValidDate(d)
    ensures var s := FormatDate(d);
      && |s| == 10 && s[4] == '-' && s[7] == '-'
      && AllDigits(s[..4]) && AllDigits(s[5..7]) && AllDigits(s[8..])
      && DigitsValue(s[..4]) == d.year && DigitsValue(s[5..7]) == d.month
      && DigitsValue(s[8..]) == d.day
  {
    var s := FormatDate(d);
    assert s[..4] == PadDigits(d.year, 4);
    assert s[5..7] == PadDigits(d.month, 2);
    assert s[8..] == PadDigits(d.day, 2);
  }

  /** LocalDate.parse in its strict ISO_LOCAL_DATE form: four year digits,
      '-', two month digits, '-', two day digits, naming a real day of the
      proleptic Gregorian calendar. */
  function ParseDate(s: string): (r: Option<Date>)
    ensures r.Some? ==> ValidDate(r.value)
  {
    if |s| == 10 && s[4] == '-' && s[7] == '-'
       && AllDigits(s[..4]) && AllDigits(s[5..7]) && AllDigits(s[8..])
    then
      var d := Date(DigitsValue(s[..4]), DigitsValue(s[5..7]), DigitsValue(s[8..]));
      if ValidDate(d) then Some(d) else None
    else None
  }

  /** A date that was read is written back as the very text it was read
      from. */
  lemma ParseFormatDate(s: string)
    requires ParseDate(s).Some?
    ensures FormatDate(ParseDate(s).value) == s
  {
    PadDigitsOfValue(s[..4]);
    PadDigitsOfValue(s[5..7]);
    PadDigitsOfValue(s[8..]);
    assert s == s[..4] + "-" + s[5..7] + "-" + s[8..];
  }

  /** Every date survives being written out and parsed back. */
  lemma FormatParseDate(d: Date)
    requires ValidDate(d)
    ensures ParseDate(FormatDate(d)) == Some(d)
  {
    FormatDateLayout(d);
  }

  /** Leap-day handling: February 29 exists exactly in leap years. */
  lemma LeapDay(year: nat)
    requires year <= 9999
    ensures ValidDate(Date(year, 2, 29)) <==> IsLeapYear(year)
  {
  }
}
