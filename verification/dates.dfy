/** Calendar dates as Python's `datetime.date` holds them: the proleptic
    Gregorian calendar from 0001-01-01 to 9999-12-31, day counts through the
    ordinal CPython computes in `_ymd2ord`, and the `%d/%m/%Y` rendering. */
module Dates {
  import opened Digits

  datatype Date = Date(year: int, month: int, day: int)

  predicate IsLeap(year: int) {
    year % 4 == 0 && (year % 100 != 0 || year % 400 == 0)
  }

  function DaysInMonth(year: int, month: int): int
    requires 1 <= month <= 12
  {
    if month == 2 then (if IsLeap(year) then 29 else 28)
    else if month == 4 || month == 6 || month == 9 || month == 11 then 30
    else 31
  }

  /** A real calendar day from year 1 on; `datetime.date` further bounds the
      year by 9999 (see InDateRange). */
  predicate IsCalendarDate(d: Date) {
    d.year >= 1 && 1 <= d.month <= 12 && 1 <= d.day <= DaysInMonth(d.year, d.month)
  }

  predicate InDateRange(d: Date) {
    IsCalendarDate(d) && d.year <= 9999
  }

  /** Every value a `datetime.date` can hold. */
  type PyDate = d: Date | InDateRange(d) witness Date(1, 1, 1)

  /** Days in the years before `year` (CPython's `_days_before_year`). */
  function DaysBeforeYear(year: int): int
    requires year >= 1
  {
    var y := year - 1;
    y * 365 + y / 4 - y / 100 + y / 400
  }

  /** Days in the months of `year` before `month` (`_days_before_month`). */
  function DaysBeforeMonth(year: int, month: int): int
    requires 1 <= month <= 12
  {
    var table := [0, 31, 59, 90, 120, 151, 181, 212, 243, 273, 304, 334];
    table[month - 1] + (if month > 2 && IsLeap(year) then 1 else 0)
  }

  /** `date.toordinal()`: 0001-01-01 is day 1. */
  function Ordinal(d: Date): int
    requires IsCalendarDate(d)
  {
    DaysBeforeYear(d.year) + DaysBeforeMonth(d.year, d.month) + d.day
  }

  /** `(b - a).days`: zero for the same day, positive exactly when b comes
      later on the calendar. */
  function DaysBetween(a: Date, b: Date): (r: int)
    requires IsCalendarDate(a) && IsCalendarDate(b)
    ensures r == 0 <==> a == b
    ensures r > 0 <==> Before(a, b)
  {
    OrdinalOrder(a, b);
    OrdinalOrder(b, a);
    Ordinal(b) - Ordinal(a)
  }

  /** Calendar order: by year, then month, then day. */
  predicate Before(a: Date, b: Date) {
    || a.year < b.year
    || (a.year == b.year && a.month < b.month)
    || (a.year == b.year && a.month == b.month && a.day < b.day)
  }

  /** The calendar day after d, by walking the calendar: the independent
      definition the ordinal is checked against. */
  function NextDay(d: Date): (r: Date)
    requires IsCalendarDate(d)
    ensures IsCalendarDate(r)
  {
    if d.day < DaysInMonth(d.year, d.month) then Date(d.year, d.month, d.day + 1)
    else if d.month < 12 then Date(d.year, d.month + 1, 1)
    else Date(d.year + 1, 1, 1)
  }

  /** The date n days after d. */
  function AddDays(d: Date, n: nat): (r: Date)
    requires IsCalendarDate(d)
    ensures IsCalendarDate(r)
    decreases n
  {
    if n == 0 then d else AddDays(NextDay(d), n - 1)
  }

  /** `d.strftime('%d/%m/%Y')`: day and month padded to two digits, the
      year as glibc prints it (no padding). Reading the three fields back
      gives the date. */
  function FormatDateBr(d: Date): (r: string)
    requires IsCalendarDate(d)
    ensures |r| >= 7 && r[2] == '/' && r[5] == '/'
    ensures AllDigits(r[..2]) && ValueOf(r[..2]) == d.day
    ensures AllDigits(r[3..5]) && ValueOf(r[3..5]) == d.month
    ensures AllDigits(r[6..]) && ValueOf(r[6..]) == d.year
  {
    var dd := ZeroFill(NatToString(d.day), 2);
    var mm := ZeroFill(NatToString(d.month), 2);
    var yy := NatToString(d.year);
    assert Pow10(2) == 100;
    PaddedDigits(d.day, 2);
    PaddedDigits(d.month, 2);
    NatToStringDigits(d.year);
    DateLayout(dd, mm, yy);
    dd + "/" + mm + "/" + yy
  }

  lemma {:induction false} DateLayout(dd: string, mm: string, yy: string)
    requires |dd| == 2 && |mm| == 2
    ensures var r := dd + "/" + mm + "/" + yy;
            && |r| == |yy| + 6 && r[..2] == dd && r[2] == '/' && r[3..5] == mm
            && r[5] == '/' && r[6..] == yy
  {
  }

  // ---------------------------------------------------------------------
  // The ordinal counts days

  /** The months of a year add up to its length. */
  lemma {:induction false} MonthStep(year: int, month: int)
    requires 1 <= month < 12
    ensures DaysBeforeMonth(year, month + 1)
            == DaysBeforeMonth(year, month) + DaysInMonth(year, month)
  {
  }

  lemma {:induction false} YearStep(year: int)
    requires year >= 1
    ensures DaysBeforeYear(year + 1)
            == DaysBeforeYear(year) + DaysBeforeMonth(year, 12) + DaysInMonth(year, 12)
  {
    var y := year - 1;
    MultiplesStep(y);
    LeapCount(year);
  }

  /** Counting one more number adds one multiple of 4, 100 or 400 exactly
      when that number is one. */
  lemma {:induction false} MultiplesStep(y: int)
    ensures (y + 1) / 4 == y / 4 + (if (y + 1) % 4 == 0 then 1 else 0)
    ensures (y + 1) / 100 == y / 100 + (if (y + 1) % 100 == 0 then 1 else 0)
    ensures (y + 1) / 400 == y / 400 + (if (y + 1) % 400 == 0 then 1 else 0)
  {
  }

  /** The multiples of 4, less those of 100, plus those of 400, count the
      leap years. */
  lemma {:induction false} LeapCount(year: int)
    ensures (if year % 4 == 0 then 1 else 0) - (if year % 100 == 0 then 1 else 0)
            + (if year % 400 == 0 then 1 else 0) == (if IsLeap(year) then 1 else 0)
  {
    if year % 400 == 0 {
      MultipleOfFactor(year, 100, 4);
    }
    if year % 100 == 0 {
      MultipleOfFactor(year, 4, 25);
    }
  }

  /** A multiple of d·k is a multiple of d. */
  lemma {:induction false} MultipleOfFactor(year: int, d: int, k: int)
    requires d > 0 && k > 0 && year % (d * k) == 0
    ensures year % d == 0
  {
    var m := year / (d * k);
    assert year == (d * k) * m;
    assert year == d * (k * m);
  }

  // ---------------------------------------------------------------------
  // The ordinal follows the calendar order

  /** A later date has a larger ordinal. */
  lemma {:induction false} OrdinalOrder(a: Date, b: Date)
    requires IsCalendarDate(a) && IsCalendarDate(b)
    ensures Before(a, b) ==> Ordinal(a) < Ordinal(b)
  {
    if a.year < b.year {
      YearEnd(a);
      YearsBefore(a.year + 1, b.year);
      YearStep(a.year);
    } else if a.year == b.year && a.month < b.month {
      MonthOrder(a.year, a.month, b.month, a.day);
    }
  }

  /** A day of an earlier month comes no later than the first of a later one. */
  lemma {:induction false} MonthOrder(year: int, m: int, m': int, day: int)
    requires 1 <= m < m' <= 12 && 1 <= day <= DaysInMonth(year, m)
    ensures DaysBeforeMonth(year, m) + day <= DaysBeforeMonth(year, m')
    decreases m'
  {
    MonthStep(year, m' - 1);
    if m' - 1 > m {
      MonthOrder(year, m, m' - 1, day);
    }
  }

  /** Every day of a year falls within its length. */
  lemma {:induction false} YearEnd(d: Date)
    requires IsCalendarDate(d)
    ensures DaysBeforeMonth(d.year, d.month) + d.day
            <= DaysBeforeMonth(d.year, 12) + DaysInMonth(d.year, 12)
  {
    if d.month < 12 {
      MonthOrder(d.year, d.month, 12, d.day);
    }
  }

  /** Counting days before a year never decreases with the year. */
  lemma {:induction false} YearsBefore(y: int, y': int)
    requires 1 <= y <= y'
    ensures DaysBeforeYear(y) <= DaysBeforeYear(y')
    decreases y' - y
  {
    if y < y' {
      YearStep(y);
      YearsBefore(y + 1, y');
    }
  }

  /** The next day is exactly one ordinal later. */
  lemma {:induction false} NextDayOrdinal(d: Date)
    requires IsCalendarDate(d)
    ensures Ordinal(NextDay(d)) == Ordinal(d) + 1
  {
    if d.day < DaysInMonth(d.year, d.month) {
    } else if d.month < 12 {
      MonthStep(d.year, d.month);
    } else {
      YearStep(d.year);
    }
  }

  /** Walking n days forward adds n to the ordinal. */
  lemma {:induction false} AddDaysOrdinal(d: Date, n: nat)
    requires IsCalendarDate(d)
    ensures Ordinal(AddDays(d, n)) == Ordinal(d) + n
    decreases n
  {
    if n > 0 {
      NextDayOrdinal(d);
      AddDaysOrdinal(NextDay(d), n - 1);
    }
  }

  /** So the difference of two dates counts the days walked between them. */
  lemma {:induction false} DaysBetweenAddDays(d: Date, n: nat)
    requires IsCalendarDate(d)
    ensures DaysBetween(d, AddDays(d, n)) == n
  {
    AddDaysOrdinal(d, n);
  }
}
