/** Calendar arithmetic behind the date navigator and the monthly overview:
    the date key `getDocId`, `getDaysInMonth`, `getFirstDayOfMonth`, the
    day-by-day moves of `changeDate` and the `calendarGrid` builder.

    A date is a local calendar day in the proleptic Gregorian calendar, as a
    JavaScript `Date` reads it back through `getFullYear()`, `getMonth()`
    (0 for January) and `getDate()`. The time of day is not part of the model. */
module Calendar {
  import opened Wrappers
  import Decimal

  datatype Date = Date(year: int, month: int, day: int)

  predicate IsLeapYear(y: int) {
    y % 4 == 0 && (y % 100 != 0 || y % 400 == 0)
  }

  /** Number of days of month `m` (0-based) of year `y`. */
  function MonthLength(y: int, m: int): (n: int)
    requires 0 <= m < 12
    ensures 28 <= n <= 31
  {
    if m == 1 then (if IsLeapYear(y) then 29 else 28)
    else if m == 3 || m == 5 || m == 8 || m == 10 then 30
    else 31
  }

  predicate ValidDate(d: Date) {
    0 <= d.month < 12 && 1 <= d.day <= MonthLength(d.year, d.month)
  }

  function YearLength(y: int): int {
    if IsLeapYear(y) then 366 else 365
  }

  // ---------------------------------------------------------------------------
  // Day ordinals and weekdays

  /** Days from 0001-01-01 to the first of January of year `y` (negative before). */
  function DaysBeforeYear(y: int): int {
    365 * (y - 1) + (y - 1) / 4 - (y - 1) / 100 + (y - 1) / 400
  }

  /** Days from the first of January of year `y` to the first of month `m`. */
  function DaysBeforeMonth(y: int, m: int): int
    requires 0 <= m < 12
  {
    var leap := if m >= 2 && IsLeapYear(y) then 1 else 0;
    [0, 31, 59, 90, 120, 151, 181, 212, 243, 273, 304, 334][m] + leap
  }

  /** The ordinal of a date: 0 for 0001-01-01, counting one per calendar day. */
  function DayNumber(d: Date): int
    requires ValidDate(d)
  {
    DaysBeforeYear(d.year) + DaysBeforeMonth(d.year, d.month) + d.day - 1
  }

  /** `getDay()`: 0 for Sunday through 6 for Saturday (0001-01-01 was a Monday). */
  function Weekday(d: Date): (w: int)
    requires ValidDate(d)
    ensures 0 <= w < 7
  {
    (DayNumber(d) + 1) % 7
  }

  lemma DivStep(y: int)
    ensures y / 4 - (y - 1) / 4 == if y % 4 == 0 then 1 else 0
    ensures y / 100 - (y - 1) / 100 == if y % 100 == 0 then 1 else 0
    ensures y / 400 - (y - 1) / 400 == if y % 400 == 0 then 1 else 0
    ensures y % 400 == 0 ==> y % 100 == 0
    ensures y % 100 == 0 ==> y % 4 == 0
  {
  }

  /** A year holds `YearLength` days. */
  lemma YearStep(y: int)
    ensures DaysBeforeYear(y + 1) == DaysBeforeYear(y) + YearLength(y)
  {
    DivStep(y);
  }

  // ---------------------------------------------------------------------------
  // Chronological order

  /** `a` comes strictly before `b` in the calendar. */
  predicate Before(a: Date, b: Date) {
    a.year < b.year
    || (a.year == b.year && a.month < b.month)
    || (a.year == b.year && a.month == b.month && a.day < b.day)
  }

  lemma {:induction false} DaysBeforeYearMonotone(y: int, z: int)
    requires y < z
    ensures DaysBeforeYear(y) + YearLength(y) <= DaysBeforeYear(z)
    decreases z - y
  {
    YearStep(y);
    if y + 1 < z {
      DaysBeforeYearMonotone(y + 1, z);
    }
  }

  /** The days of year `d.year` occupy one block of ordinals. */
  lemma DayNumberInYear(d: Date)
    requires ValidDate(d)
    ensures DaysBeforeYear(d.year) <= DayNumber(d) < DaysBeforeYear(d.year) + YearLength(d.year)
  {
  }

  /** Day ordinals follow the calendar: an earlier date has a smaller ordinal. */
  lemma DayNumberOrder(a: Date, b: Date)
    requires ValidDate(a) && ValidDate(b)
    ensures Before(a, b) <==> DayNumber(a) < DayNumber(b)
  {
    DayNumberInYear(a);
    DayNumberInYear(b);
    if a.year < b.year {
      DaysBeforeYearMonotone(a.year, b.year);
    } else if b.year < a.year {
      DaysBeforeYearMonotone(b.year, a.year);
    }
  }

  /** So distinct dates have distinct ordinals. */
  lemma DayNumberInjective(a: Date, b: Date)
    requires ValidDate(a) && ValidDate(b)
    requires DayNumber(a) == DayNumber(b)
    ensures a == b
  {
    DayNumberOrder(a, b);
    DayNumberOrder(b, a);
  }

  /** 1970-01-01 was a Thursday. */
  lemma EpochIsThursday()
    ensures ValidDate(Date(1970, 0, 1)) && Weekday(Date(1970, 0, 1)) == 4
  {
    assert DayNumber(Date(1970, 0, 1)) == 719162;
  }

  // ---------------------------------------------------------------------------
  // Moving by days (`changeDate` and `setDate`)

  /** The calendar day after `d`. */
  function NextDay(d: Date): (r: Date)
    requires ValidDate(d)
    ensures ValidDate(r) && DayNumber(r) == DayNumber(d) + 1
  {
    if d.day < MonthLength(d.year, d.month) then Date(d.year, d.month, d.day + 1)
    else if d.month < 11 then Date(d.year, d.month + 1, 1)
    else
      YearStep(d.year);
      Date(d.year + 1, 0, 1)
  }

  /** The calendar day before `d`. */
  function PrevDay(d: Date): (r: Date)
    requires ValidDate(d)
    ensures ValidDate(r) && DayNumber(r) + 1 == DayNumber(d)
  {
    if d.day > 1 then Date(d.year, d.month, d.day - 1)
    else if d.month > 0 then Date(d.year, d.month - 1, MonthLength(d.year, d.month - 1))
    else
      YearStep(d.year - 1);
      Date(d.year - 1, 11, 31)
  }

  lemma NextPrevInverse(d: Date)
    requires ValidDate(d)
    ensures PrevDay(NextDay(d)) == d && NextDay(PrevDay(d)) == d
  {
    DayNumberInjective(PrevDay(NextDay(d)), d);
    DayNumberInjective(NextDay(PrevDay(d)), d);
  }

  lemma ModShift(a: int, b: int)
    ensures (a + b) % 7 == (a % 7 + b) % 7
  {
    var q := a / 7;
    assert a == 7 * q + a % 7;
    assert (a + b) == 7 * q + (a % 7 + b);
  }

  /** The weekday advances by one each day, wrapping from Saturday to Sunday. */
  lemma WeekdayNext(d: Date)
    requires ValidDate(d)
    ensures Weekday(NextDay(d)) == (Weekday(d) + 1) % 7
  {
    ModShift(DayNumber(d) + 1, 1);
  }

  /** `d` moved by `n` days, as `setDate(getDate() + n)` normalises the day of
      month into the neighbouring months and years. */
  function AddDays(d: Date, n: int): (r: Date)
    requires ValidDate(d)
    ensures ValidDate(r) && DayNumber(r) == DayNumber(d) + n
    decreases if n < 0 then -n else n
  {
    if n == 0 then d
    else if n > 0 then AddDays(NextDay(d), n - 1)
    else AddDays(PrevDay(d), n + 1)
  }

  /** The moved date is the only valid date with that ordinal. */
  lemma AddDaysUnique(d: Date, n: int, e: Date)
    requires ValidDate(d) && ValidDate(e)
    requires DayNumber(e) == DayNumber(d) + n
    ensures AddDays(d, n) == e
  {
    DayNumberInjective(AddDays(d, n), e);
  }

  // ---------------------------------------------------------------------------
  // The JavaScript `Date` constructor and the helpers built on it

  /** `new Date(year, month, day)` reads a year from 0 to 99 as 1900 + year. */
  function JsYear(year: int): int {
    if 0 <= year <= 99 then 1900 + year else year
  }

  /** The first of the month after month `m` of year `y`. */
  function FirstOfNextMonth(y: int, m: int): Date
    requires 0 <= m < 12
  {
    if m < 11 then Date(y, m + 1, 1) else Date(y + 1, 0, 1)
  }

  /** `getDaysInMonth(year, month)`: `new Date(year, month + 1, 0)` is the day
      before the first of the next month, and its `getDate()` is the month's
      last day. */
  function DaysInMonth(year: int, month: int): (n: int)
    requires 0 <= month < 12
    ensures 28 <= n <= 31
    ensures month == 1 ==> (n == 29 <==> IsLeapYear(JsYear(year)))
    ensures month != 1 ==> (n == 30 <==> month in {3, 5, 8, 10})
    ensures PrevDay(FirstOfNextMonth(JsYear(year), month)) == Date(JsYear(year), month, n)
  {
    MonthLength(JsYear(year), month)
  }

  /** `getFirstDayOfMonth(year, month)`: the weekday of `new Date(year, month, 1)`. */
  function FirstDayOfMonth(year: int, month: int): (w: int)
    requires 0 <= month < 12
    ensures 0 <= w < 7
  {
    Weekday(Date(JsYear(year), month, 1))
  }

  /** Within a month, day `i` falls `i - 1` weekdays after the first. */
  lemma WeekdayInMonth(y: int, m: int, i: int)
    requires 0 <= m < 12 && 1 <= i <= MonthLength(y, m)
    ensures Weekday(Date(y, m, i)) == (Weekday(Date(y, m, 1)) + i - 1) % 7
  {
    assert DayNumber(Date(y, m, i)) == DayNumber(Date(y, m, 1)) + i - 1;
    ModShift(DayNumber(Date(y, m, 1)) + 1, i - 1);
  }

  // ---------------------------------------------------------------------------
  // The date key

  /** `getDocId(date)`: `YYYY-MM-DD` with the month and day padded to two digits
      (the year is written as `String` writes it, without padding). */
  function DocId(d: Date): string
    requires ValidDate(d)
  {
    Decimal.IntToString(d.year) + "-" + Decimal.TwoDigits(d.month + 1) + "-" + Decimal.TwoDigits(d.day)
  }

  /** A year, a dash, two characters, a dash and two characters, read back apart. */
  lemma KeyParts(y: string, mm: string, dd: string)
    requires |mm| == 2 && |dd| == 2
    ensures var k := y + "-" + mm + "-" + dd;
      && |k| == |y| + 6
      && k[..|y|] == y
      && k[|y|] == '-' && k[|y| + 3] == '-'
      && k[|y| + 1..|y| + 3] == mm
      && k[|y| + 4..] == dd
  {
    var tail := "-" + mm + "-" + dd;
    assert y + "-" + mm + "-" + dd == y + tail;
    assert tail[1..3] == mm && tail[4..] == dd;
  }

  /** Reads a date key back: the year before the last six characters, then
      the month and the day between and after the two dashes. */
  function ParseDocId(k: string): Option<Date> {
    if |k| < 7 || k[|k| - 6] != '-' || k[|k| - 3] != '-' then None
    else
      var year := Decimal.ReadInt(k[..|k| - 6]);
      var mm, dd := k[|k| - 5..|k| - 3], k[|k| - 2..];
      if year.None? || !Decimal.AllDigits(mm) || !Decimal.AllDigits(dd) then None
      else Some(Date(year.value, Decimal.Value(mm) - 1, Decimal.Value(dd)))
  }

  lemma ParseKey(k: string, y: string, mm: string, dd: string, year: int, month: int, day: int)
    requires k == y + "-" + mm + "-" + dd
    requires |mm| == 2 && |dd| == 2 && Decimal.AllDigits(mm) && Decimal.AllDigits(dd)
    requires Decimal.ReadInt(y) == Some(year)
    requires Decimal.Value(mm) == month + 1 && Decimal.Value(dd) == day
    ensures ParseDocId(k) == Some(Date(year, month, day))
  {
    KeyParts(y, mm, dd);
    assert k[..|k| - 6] == y && k[|k| - 5..|k| - 3] == mm && k[|k| - 2..] == dd;
  }

  /** The key of a year, a 0-based month and a day reads back as that date. */
  lemma KeyRoundTrip(year: int, month: nat, day: nat)
    requires month < 12 && day < 100
    ensures ParseDocId(Decimal.IntToString(year) + "-" + Decimal.TwoDigits(month + 1) + "-"
                       + Decimal.TwoDigits(day)) == Some(Date(year, month, day))
  {
    var y, mm, dd := Decimal.IntToString(year), Decimal.TwoDigits(month + 1), Decimal.TwoDigits(day);
    Decimal.TwoDigitsValue(month + 1);
    Decimal.TwoDigitsValue(day);
    Decimal.ReadIntToString(year);
    ParseKey(y + "-" + mm + "-" + dd, y, mm, dd, year, month, day);
  }

  /** Every date key reads back as the date it was made from. */
  lemma DocIdRoundTrip(d: Date)
    requires ValidDate(d)
    ensures ParseDocId(DocId(d)) == Some(d)
  {
    var k := Decimal.IntToString(d.year) + "-" + Decimal.TwoDigits(d.month + 1) + "-"
             + Decimal.TwoDigits(d.day);
    assert DocId(d) == k;
    KeyRoundTrip(d.year, d.month, d.day);
    assert ParseDocId(k) == Some(Date(d.year, d.month, d.day));
  }

  /** Distinct calendar days never share a ledger key. */
  lemma DocIdInjective(a: Date, b: Date)
    requires ValidDate(a) && ValidDate(b)
    requires DocId(a) == DocId(b)
    ensures a == b
  {
    DocIdRoundTrip(a);
    DocIdRoundTrip(b);
  }

  lemma DocIdExample()
    ensures DocId(Date(2024, 2, 1)) == "2024-03-01"
  {
  }

  // ---------------------------------------------------------------------------
  // The monthly overview

  /** `calendarGrid`: `firstDay` blank cells, then one cell per day of the month,
      each holding `new Date(year, month, i)`. No trailing blanks are added. */
  method BuildCalendarGrid(year: int, month: int) returns (days: seq<Option<Date>>)
    requires 0 <= month < 12
    ensures |days| == FirstDayOfMonth(year, month) + DaysInMonth(year, month)
    ensures forall k :: 0 <= k < FirstDayOfMonth(year, month) ==> days[k] == None
    ensures forall i :: 1 <= i <= DaysInMonth(year, month) ==>
      days[FirstDayOfMonth(year, month) + i - 1] == Some(Date(JsYear(year), month, i))
    ensures forall k :: 0 <= k < |days| && days[k].Some? ==>
      && ValidDate(days[k].value) && Weekday(days[k].value) == k % 7
      && days[k].value.year == JsYear(year) && days[k].value.month == month
  {
    var daysInMonth := DaysInMonth(year, month);
    var firstDay := FirstDayOfMonth(year, month);
    days := [];
    var i := 0;
    while i < firstDay
      invariant 0 <= i <= firstDay
      invariant |days| == i
      invariant forall k :: 0 <= k < i ==> days[k] == None
    {
      days := days + [None];
      i := i + 1;
    }
    i := 1;
    while i <= daysInMonth
      invariant 1 <= i <= daysInMonth + 1
      invariant |days| == firstDay + i - 1
      invariant forall k :: 0 <= k < firstDay ==> days[k] == None
      invariant forall j :: 1 <= j < i ==> days[firstDay + j - 1] == Some(Date(JsYear(year), month, j))
    {
      days := days + [Some(Date(JsYear(year), month, i))];
      i := i + 1;
    }
    forall k | 0 <= k < |days| && days[k].Some?
      ensures && ValidDate(days[k].value) && Weekday(days[k].value) == k % 7
              && days[k].value.year == JsYear(year) && days[k].value.month == month
    {
      var j := k - firstDay + 1;
      assert days[firstDay + j - 1] == days[k];
      WeekdayInMonth(JsYear(year), month, j);
    }
  }
}
