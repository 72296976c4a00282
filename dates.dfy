/**
 * `createDatesObject`: the month window used by the sales reports. Dates are
 * already-parsed UTC calendar components; JavaScript's `Date` constructor,
 * which rolls out-of-range months and days into neighbouring ones, is
 * written out over an explicit Gregorian calendar.
 */
module Dates {

  import opened Wrappers
  import opened Text

  /** A calendar date, month 1..12, in the proleptic Gregorian calendar. */
  datatype Date = Date(year: int, month: int, day: int)

  /** The four strings the reports are given. */
  datatype DatesObject = DatesObject(startDate: string, endDate: string,
                                     pastMonthStartDate: string, pastMonthEndDate: string)

  predicate IsLeapYear(year: int) {
    year % 4 == 0 && (year % 100 != 0 || year % 400 == 0)
  }

  function DaysInMonth(year: int, month: int): (n: int)
    requires 1 <= month <= 12
    ensures 28 <= n <= 31
    ensures n == 29 <==> month == 2 && IsLeapYear(year)
    ensures n == 28 <==> month == 2 && !IsLeapYear(year)
    ensures n == 30 <==> month in {4, 6, 9, 11}
  {
    if month == 2 then (if IsLeapYear(year) then 29 else 28)
    else if month == 4 || month == 6 || month == 9 || month == 11 then 30
    else 31
  }

  predicate Valid(d: Date) {
    1 <= d.month <= 12 && 1 <= d.day <= DaysInMonth(d.year, d.month)
  }

  function NextDay(d: Date): (r: Date)
    requires Valid(d)
    ensures Valid(r)
  {
    if d.day < DaysInMonth(d.year, d.month) then Date(d.year, d.month, d.day + 1)
    else if d.month < 12 then Date(d.year, d.month + 1, 1)
    else Date(d.year + 1, 1, 1)
  }

  function PreviousDay(d: Date): (r: Date)
    requires Valid(d)
    ensures Valid(r)
  {
    if d.day > 1 then Date(d.year, d.month, d.day - 1)
    else if d.month > 1 then Date(d.year, d.month - 1, DaysInMonth(d.year, d.month - 1))
    else Date(d.year - 1, 12, 31)
  }

  /** Stepping a day forward and a day back are inverse. */
  lemma NextDayPreviousDay(d: Date)
    requires Valid(d)
    ensures PreviousDay(NextDay(d)) == d
    ensures NextDay(PreviousDay(d)) == d
  {
  }

  /** The date `n` days after `d` (before it when `n` is negative). */
  function AddDays(d: Date, n: int): (r: Date)
    requires Valid(d)
    ensures Valid(r)
    decreases if n < 0 then -n else n
  {
    if n == 0 then d
    else if n > 0 then AddDays(NextDay(d), n - 1)
    else AddDays(PreviousDay(d), n + 1)
  }

  /** The year the `Date` constructor uses: a year 0..99 stands for 1900..1999. */
  function FullYear(year: int): int {
    if 0 <= year <= 99 then 1900 + year else year
  }

  /**
   * `new Date(year, monthIndex, day)` read back with the UTC getters: the
   * month index counts from 0 and rolls over into the neighbouring years,
   * the day rolls over into the neighbouring months (day 0 is the last day of
   * the month before).
   */
  function MakeDate(year: int, monthIndex: int, day: int): (r: Date)
    ensures Valid(r)
  {
    var y := FullYear(year);
    AddDays(Date(y + monthIndex / 12, monthIndex % 12 + 1, 1), day - 1)
  }

  /** `String(n).padStart(2, '0')`. */
  function Pad2(n: nat): string {
    PadStart(NatToString(n), 2, '0')
  }

  /** The `YYYY-MM-DD` rendering: the year unpadded, month and day padded to two digits. */
  function FormatDate(d: Date): string
    requires Valid(d)
  {
    IntToString(d.year) + "-" + Pad2(d.month) + "-" + Pad2(d.day)
  }

  /** The `YYYY-MM-01` rendering of the first of a date's month. */
  function FormatFirstOfMonth(d: Date): string
    requires Valid(d)
  {
    IntToString(d.year) + "-" + Pad2(d.month) + "-01"
  }

  lemma FirstOfMonthFormat(d: Date)
    requires Valid(d)
    ensures FormatFirstOfMonth(d) == FormatDate(Date(d.year, d.month, 1))
  {
    assert Pad2(1) == "01";
  }

  function CreateDatesObject(start: Date, end: Date): DatesObject
    requires Valid(start) && Valid(end)
  {
    var monthIndex := start.month - 1;
    var pastMonthStart := MakeDate(start.year, monthIndex - 1, 1);
    var pastMonthEnd := MakeDate(start.year, monthIndex, 0);
    DatesObject(FormatFirstOfMonth(start), FormatDate(end),
                FormatFirstOfMonth(pastMonthStart), FormatDate(pastMonthEnd))
  }

  /** The year and month before the given one. */
  function PreviousMonth(year: int, month: int): (int, int) {
    if month == 1 then (year - 1, 12) else (year, month - 1)
  }

  /**
   * The two constructor calls give the first and the last day of the month
   * before the start month, and the last day is the day just before the
   * first of the start month.
   */
  lemma PastMonthWindow(start: Date)
    requires Valid(start)
    ensures var (y, m) := PreviousMonth(FullYear(start.year), start.month);
      && MakeDate(start.year, start.month - 2, 1) == Date(y, m, 1)
      && MakeDate(start.year, start.month - 1, 0) == Date(y, m, DaysInMonth(y, m))
      && NextDay(Date(y, m, DaysInMonth(y, m))) == Date(FullYear(start.year), start.month, 1)
  {
    var fy := FullYear(start.year);
    var first := Date(fy, start.month, 1);
    assert Date(fy + (start.month - 1) / 12, (start.month - 1) % 12 + 1, 1) == first;
    assert AddDays(first, -1) == AddDays(PreviousDay(first), 0);
    assert MakeDate(start.year, start.month - 1, 0) == AddDays(first, -1);
    if start.month == 1 {
      assert (start.month - 2) / 12 == -1 && (start.month - 2) % 12 == 11;
    } else {
      assert (start.month - 2) / 12 == 0 && (start.month - 2) % 12 == start.month - 2;
    }
    NextDayPreviousDay(first);
  }

  lemma AllDigitsHasNoDash(s: string)
    requires AllDigits(s)
    ensures '-' !in s
  {
  }

  /** A number below 100 pads to exactly two digits that read back as the number. */
  lemma Pad2Reads(n: nat)
    requires n < 100
    ensures |Pad2(n)| == 2
    ensures AllDigits(Pad2(n))
    ensures ParseNat(Pad2(n)) == n
  {
    var s := NatToString(n);
    ParseNatToString(n);
    if n < 10 {
      assert Pad2(n) == ['0'] + s;
      assert (['0'] + s)[..1] == ['0'];
    }
  }

  /** Reads `Y-MM-DD` back; `None` unless there are three non-empty digit runs. */
  function ParseDate(s: string): Option<Date> {
    var parts := Split(s, '-');
    if |parts| == 3 && forall i :: 0 <= i < 3 ==> parts[i] != [] && AllDigits(parts[i])
    then Some(Date(ParseNat(parts[0]), ParseNat(parts[1]), ParseNat(parts[2])))
    else None
  }

  /** The rendering of a date with a non-negative year splits at `-` into its three fields. */
  lemma FormatDateSplits(d: Date)
    requires Valid(d) && d.year >= 0
    ensures Split(FormatDate(d), '-') == [NatToString(d.year), Pad2(d.month), Pad2(d.day)]
  {
    var y, m, dd := NatToString(d.year), Pad2(d.month), Pad2(d.day);
    Pad2Reads(d.month);
    Pad2Reads(d.day);
    AllDigitsHasNoDash(y);
    AllDigitsHasNoDash(m);
    AllDigitsHasNoDash(dd);
    assert FormatDate(d) == y + ['-'] + m + ['-'] + dd;
    SplitThree(y, m, dd, '-');
  }

  /** For a non-negative year the rendering reads back as the date it came from. */
  lemma FormatDateRoundTrip(d: Date)
    requires Valid(d) && d.year >= 0
    ensures ParseDate(FormatDate(d)) == Some(d)
  {
    FormatDateSplits(d);
    Pad2Reads(d.month);
    Pad2Reads(d.day);
    ParseNatToString(d.year);
    var parts := Split(FormatDate(d), '-');
    assert forall i :: 0 <= i < 3 ==> parts[i] != [] && AllDigits(parts[i]);
  }

  /** `startDate` is the first of the start month. */
  lemma StartDateIsFirstOfMonth(start: Date, end: Date)
    requires Valid(start) && Valid(end)
    ensures CreateDatesObject(start, end).startDate == FormatDate(Date(start.year, start.month, 1))
  {
    FirstOfMonthFormat(start);
  }

  /** For a non-negative end year, `endDate` reads back as the end date itself. */
  lemma EndDateReadsBack(start: Date, end: Date)
    requires Valid(start) && Valid(end) && end.year >= 0
    ensures ParseDate(CreateDatesObject(start, end).endDate) == Some(end)
  {
    FormatDateRoundTrip(end);
  }

  /**
   * `pastMonthStartDate` and `pastMonthEndDate` are the first and the last day
   * of the month before the start month, in the constructor's reading of the year.
   */
  lemma PastMonthDates(start: Date, end: Date)
    requires Valid(start) && Valid(end)
    ensures var (y, m) := PreviousMonth(FullYear(start.year), start.month);
      var r := CreateDatesObject(start, end);
      && r.pastMonthStartDate == FormatDate(Date(y, m, 1))
      && r.pastMonthEndDate == FormatDate(Date(y, m, DaysInMonth(y, m)))
  {
    PastMonthWindow(start);
    var pastMonthStart := MakeDate(start.year, start.month - 1 - 1, 1);
    FirstOfMonthFormat(pastMonthStart);
  }

  /**
   * Outside the years 0..99 the previous month is the calendar one: a January
   * start rolls back to December of the year before.
   */
  lemma PastMonthOfLaterYears(start: Date, end: Date)
    requires Valid(start) && Valid(end) && !(0 <= start.year <= 99)
    ensures var (y, m) := if start.month == 1 then (start.year - 1, 12) else (start.year, start.month - 1);
      var r := CreateDatesObject(start, end);
      && r.pastMonthStartDate == FormatDate(Date(y, m, 1))
      && r.pastMonthEndDate == FormatDate(Date(y, m, DaysInMonth(y, m)))
  {
    assert FullYear(start.year) == start.year;
    assert PreviousMonth(start.year, start.month)
        == if start.month == 1 then (start.year - 1, 12) else (start.year, start.month - 1);
    PastMonthDates(start, end);
  }

  /** A start in March of the year 50 gets February 1950 as its previous month. */
  lemma TwoDigitYearQuirk()
    ensures var r := CreateDatesObject(Date(50, 3, 15), Date(50, 3, 31));
      r.startDate == "50-03-01" && r.pastMonthStartDate == "1950-02-01"
  {
    var r := CreateDatesObject(Date(50, 3, 15), Date(50, 3, 31));
    PastMonthDates(Date(50, 3, 15), Date(50, 3, 31));
    StartDateIsFirstOfMonth(Date(50, 3, 15), Date(50, 3, 31));
    assert NatToString(50) == "50";
    assert NatToString(1950) == "1950";
    assert Pad2(3) == "03" && Pad2(2) == "02" && Pad2(1) == "01";
  }
}
