/** Calendar dates as Python's `datetime.date` accepts them, the strict
    `YYYY-MM-DD` reading of `strptime(s, "%Y-%m-%d")`, the `isoformat()` rendering
    of such a date at midnight (an ISO 8601 extended calendar date with a time of
    day, sections 4.1.2.2 and 4.3.2 of ISO 8601:2004), and month arithmetic. */
module Dates {
  import opened Common

  datatype Date = Date(year: int, month: int, day: int)

  /** Gregorian leap years. */
  predicate IsLeapYear(y: int) {
    y % 4 == 0 && (y % 100 != 0 || y % 400 == 0)
  }

  function DaysInMonth(y: int, m: int): int {
    if m == 2 then (if IsLeapYear(y) then 29 else 28)
    else if m == 4 || m == 6 || m == 9 || m == 11 then 30
    else 31
  }

  /** Years 1 to 9999, months 1 to 12, and a day that exists in that month. */
  predicate ValidDate(d: Date) {
    1 <= d.year <= 9999 && 1 <= d.month <= 12 && 1 <= d.day <= DaysInMonth(d.year, d.month)
  }

  predicate IsDigit(c: char) { '0' <= c <= '9' }

  function DigitValue(c: char): int
    requires IsDigit(c)
  {
    c as int - '0' as int
  }

  function DigitChar(n: int): char
    requires 0 <= n <= 9
  {
    ('0' as int + n) as char
  }

  predicate AllDigits(s: string) {
    forall i :: 0 <= i < |s| ==> IsDigit(s[i])
  }

  /** Zero-padded two- and four-digit decimal renderings. */
  function Pad2(n: int): string
    requires 0 <= n <= 99
  {
    [DigitChar(n / 10), DigitChar(n % 10)]
  }

  function Pad4(n: int): string
    requires 0 <= n <= 9999
  {
    Pad2(n / 100) + Pad2(n % 100)
  }

  function Num2(s: string): int
    requires |s| == 2 && AllDigits(s)
  {
    10 * DigitValue(s[0]) + DigitValue(s[1])
  }

  function Num4(s: string): int
    requires |s| == 4 && AllDigits(s)
  {
    100 * Num2(s[..2]) + Num2(s[2..])
  }

  /** `strftime("%Y-%m-%d")` of a date. */
  function FormatDate(d: Date): (s: string)
    requires ValidDate(d)
    ensures |s| == 10 && s[4] == '-' && s[7] == '-'
  {
    Pad4(d.year) + "-" + Pad2(d.month) + "-" + Pad2(d.day)
  }

  /** `isoformat()` of the datetime at midnight of `d`. */
  function IsoMidnight(d: Date): (s: string)
    requires ValidDate(d)
    ensures |s| == 19 && s[10..] == "T00:00:00"
  {
    FormatDate(d) + "T00:00:00"
  }

  /** `strptime(s, "%Y-%m-%d")`, read strictly: four, two and two digits separated
      by dashes, naming a date that exists. */
  function ParseDate(s: string): (r: Option<Date>)
    ensures r.Some? ==> ValidDate(r.value)
  {
    if |s| == 10 && s[4] == '-' && s[7] == '-'
       && AllDigits(s[..4]) && AllDigits(s[5..7]) && AllDigits(s[8..])
    then
      var d := Date(Num4(s[..4]), Num2(s[5..7]), Num2(s[8..]));
      if ValidDate(d) then Some(d) else None
    else None
  }

  lemma Pad2RoundTrip(n: int)
    requires 0 <= n <= 99
    ensures AllDigits(Pad2(n)) && Num2(Pad2(n)) == n
  {
  }

  lemma Pad4RoundTrip(n: int)
    requires 0 <= n <= 9999
    ensures AllDigits(Pad4(n)) && Num4(Pad4(n)) == n
  {
    Pad2RoundTrip(n / 100);
    Pad2RoundTrip(n % 100);
    assert Pad4(n)[..2] == Pad2(n / 100) && Pad4(n)[2..] == Pad2(n % 100);
  }

  lemma Num2RoundTrip(s: string)
    requires |s| == 2 && AllDigits(s)
    ensures 0 <= Num2(s) <= 99 && Pad2(Num2(s)) == s
  {
    assert IsDigit(s[0]) && IsDigit(s[1]);
  }

  lemma Num4RoundTrip(s: string)
    requires |s| == 4 && AllDigits(s)
    ensures 0 <= Num4(s) <= 9999 && Pad4(Num4(s)) == s
  {
    var hi, lo := Num2(s[..2]), Num2(s[2..]);
    Num2RoundTrip(s[..2]);
    Num2RoundTrip(s[2..]);
    HundredsSplit(hi, lo);
    assert Pad4(Num4(s)) == Pad2(hi) + Pad2(lo);
    assert s == s[..2] + s[2..];
  }

  lemma HundredsSplit(hi: int, lo: int)
    requires 0 <= hi <= 99 && 0 <= lo <= 99
    ensures (100 * hi + lo) / 100 == hi && (100 * hi + lo) % 100 == lo
  {
  }

  /** Every date is read back from its own rendering. */
  lemma ParseFormat(d: Date)
    requires ValidDate(d)
    ensures ParseDate(FormatDate(d)) == Some(d)
  {
    var s := FormatDate(d);
    Pad4RoundTrip(d.year);
    Pad2RoundTrip(d.month);
    Pad2RoundTrip(d.day);
    assert s[..4] == Pad4(d.year);
    assert s[5..7] == Pad2(d.month);
    assert s[8..] == Pad2(d.day);
  }

  /** A text that parses is the rendering of the date it names, so the record's
      `departureDate` is the input text followed by `T00:00:00`. */
  lemma FormatParse(s: string)
    requires ParseDate(s).Some?
    ensures FormatDate(ParseDate(s).value) == s
    ensures IsoMidnight(ParseDate(s).value) == s + "T00:00:00"
  {
    Num4RoundTrip(s[..4]);
    Num2RoundTrip(s[5..7]);
    Num2RoundTrip(s[8..]);
    assert s == s[..4] + "-" + s[5..7] + "-" + s[8..];
  }

  /** Months counted from year 0: consecutive months have consecutive indices. */
  function MonthIndex(d: Date): int {
    d.year * 12 + (d.month - 1)
  }

  /** The first day of the month `k` months after `d`'s month, with year rollover
      (what `(d + relativedelta(months=k)).strftime("%Y-%m-01")` names). */
  function FirstOfMonthAfter(d: Date, k: nat): (r: Date)
    requires 1 <= d.month <= 12
    ensures r.day == 1 && 1 <= r.month <= 12
    ensures MonthIndex(r) == MonthIndex(d) + k
  {
    var t := MonthIndex(d) + k;
    Date(t / 12, t % 12 + 1, 1)
  }
}
