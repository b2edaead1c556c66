/** Proleptic Gregorian dates and instants, as Python's `datetime` represents them. */
module Calendar {

  /** A calendar date; `ValidDate` says when it is one that `datetime` can hold. */
  datatype Date = Date(year: int, month: int, day: int)

  /** The smallest and largest years `datetime` accepts. */
  const MinYear: int := 1
  const MaxYear: int := 9999

  predicate IsLeapYear(y: int)
  {
    y % 4 == 0 && (y % 100 != 0 || y % 400 == 0)
  }

  function DaysInMonth(y: int, m: int): (n: int)
    requires 1 <= m <= 12
    ensures 28 <= n <= 31
    ensures n == 29 <==> m == 2 && IsLeapYear(y)
  {
    if m == 2 then (if IsLeapYear(y) then 29 else 28)
    else if m == 4 || m == 6 || m == 9 || m == 11 then 30
    else 31
  }

  function DaysInYear(y: int): int
  {
    if IsLeapYear(y) then 366 else 365
  }

  /** A date `datetime` can represent: year 1 to 9999, a month, and a day that month has. */
  predicate ValidDate(d: Date)
  {
    MinYear <= d.year <= MaxYear && 1 <= d.month <= 12 && 1 <= d.day <= DaysInMonth(d.year, d.month)
  }

  type CivilDate = d: Date | ValidDate(d) witness Date(1, 1, 1)

  /** Days in the years before `y`, counted from 1 January of year 1. */
  function DaysBeforeYear(y: int): int
    requires y >= 1
  {
    var p := y - 1;
    p * 365 + p / 4 - p / 100 + p / 400
  }

  /** Days in the months of year `y` before month `m`. */
  function DaysBeforeMonth(y: int, m: int): int
    requires 1 <= m <= 12
  {
    var common :=
      if m == 1 then 0 else if m == 2 then 31 else if m == 3 then 59
      else if m == 4 then 90 else if m == 5 then 120 else if m == 6 then 151
      else if m == 7 then 181 else if m == 8 then 212 else if m == 9 then 243
      else if m == 10 then 273 else if m == 11 then 304 else 334;
    common + (if m > 2 && IsLeapYear(y) then 1 else 0)
  }

  /** The proleptic Gregorian ordinal (`date.toordinal()`): 1 January of year 1 is day 1. */
  function Ordinal(d: CivilDate): int
  {
    DaysBeforeYear(d.year) + DaysBeforeMonth(d.year, d.month) + d.day
  }

  /** The last date `datetime` can represent. */
  const LastDate: CivilDate := Date(MaxYear, 12, 31)

  /** Microseconds in a day: the resolution of `datetime`. */
  const MicrosPerDay: int := 86_400_000_000

  /** A `datetime`: a date and the microseconds elapsed since its midnight. */
  datatype Moment = Moment(date: CivilDate, micros: int)

  predicate ValidMoment(t: Moment)
  {
    0 <= t.micros < MicrosPerDay
  }

  /** Midnight at the start of `d`, as `strptime` produces for a date-only pattern. */
  function Midnight(d: CivilDate): Moment
  {
    Moment(d, 0)
  }

  /** The moment as a count of microseconds; adding `k` days adds `k * MicrosPerDay`. */
  function Instant(t: Moment): int
  {
    Ordinal(t.date) * MicrosPerDay + t.micros
  }

  /** Python's `<` on dates: field by field, year first. */
  predicate DateBefore(a: Date, b: Date)
  {
    a.year < b.year
    || (a.year == b.year && a.month < b.month)
    || (a.year == b.year && a.month == b.month && a.day < b.day)
  }

  /** Python's `<` on datetimes: the date first, then the time of day. */
  predicate MomentBefore(a: Moment, b: Moment)
  {
    DateBefore(a.date, b.date) || (a.date == b.date && a.micros < b.micros)
  }

  /** Each of the leap-year divisions steps up by one exactly at multiples of its divisor. */
  lemma FloorSteps(p: int)
    requires p >= 0
    ensures (p + 1) / 4 == p / 4 + (if (p + 1) % 4 == 0 then 1 else 0)
    ensures (p + 1) / 100 == p / 100 + (if (p + 1) % 100 == 0 then 1 else 0)
    ensures (p + 1) / 400 == p / 400 + (if (p + 1) % 400 == 0 then 1 else 0)
  {
  }

  /** A year adds its own length to the day count (the leap rule of `DaysBeforeYear`). */
  lemma YearStep(y: int)
    requires y >= 1
    ensures DaysBeforeYear(y + 1) == DaysBeforeYear(y) + DaysInYear(y)
  {
    FloorSteps(y - 1);
  }

  /** Every day of a year lies after the years before it and within its own length. */
  lemma OrdinalInYear(d: CivilDate)
    ensures DaysBeforeYear(d.year) < Ordinal(d) <= DaysBeforeYear(d.year) + DaysInYear(d.year)
  {
  }

  lemma {:induction false} YearsIncrease(y1: int, y2: int)
    requires 1 <= y1 < y2
    ensures DaysBeforeYear(y1) + DaysInYear(y1) <= DaysBeforeYear(y2)
    decreases y2 - y1
  {
    YearStep(y1);
    if y1 + 1 < y2 {
      YearsIncrease(y1 + 1, y2);
      YearStep(y1 + 1);
    }
  }

  lemma DateBeforeOrdinal(a: CivilDate, b: CivilDate)
    requires DateBefore(a, b)
    ensures Ordinal(a) < Ordinal(b)
  {
    if a.year < b.year {
      OrdinalInYear(a);
      OrdinalInYear(b);
      YearsIncrease(a.year, b.year);
    }
  }

  /** Ordinals number the dates in calendar order, so comparing ordinals is comparing dates. */
  lemma OrdinalOrder(a: CivilDate, b: CivilDate)
    ensures Ordinal(a) < Ordinal(b) <==> DateBefore(a, b)
    ensures Ordinal(a) == Ordinal(b) <==> a == b
  {
    if DateBefore(a, b) {
      DateBeforeOrdinal(a, b);
    } else if DateBefore(b, a) {
      DateBeforeOrdinal(b, a);
    }
  }

  /** Comparing instants is Python's comparison of `datetime` values. */
  lemma InstantOrder(a: Moment, b: Moment)
    requires ValidMoment(a) && ValidMoment(b)
    ensures Instant(a) < Instant(b) <==> MomentBefore(a, b)
  {
    OrdinalOrder(a.date, b.date);
  }

  /** The same month and day one year later is at least 365 days later. */
  lemma NextYearSameDay(d: CivilDate, e: CivilDate)
    requires e.year == d.year + 1 && e.month == d.month && e.day == d.day
    ensures Ordinal(e) - Ordinal(d) >= 365
  {
    YearStep(d.year);
  }
}
