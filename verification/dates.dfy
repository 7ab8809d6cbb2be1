/** Calendar dates as Python's datetime.date represents them: the proleptic
    Gregorian calendar for the years 1 to 9999, with the day ordinal of
    date.toordinal (0001-01-01 is day 1). Subtracting two dates yields the
    difference of their ordinals in days. */
module Dates {

  import opened Wrappers

  /** A year, month and day; Valid says when it is a real date. */
  datatype Date = Date(year: int, month: int, day: int)

  /** datetime.MINYEAR and datetime.MAXYEAR. */
  const MinYear: int := 1
  const MaxYear: int := 9999

  predicate IsLeapYear(y: int) {
    y % 4 == 0 && (y % 100 != 0 || y % 400 == 0)
  }

  function DaysInMonth(y: int, m: int): (n: int)
    requires 1 <= m <= 12
    ensures 28 <= n <= 31
    ensures m != 2 ==> n >= 30
  {
    if m == 2 then (if IsLeapYear(y) then 29 else 28)
    else if m == 4 || m == 6 || m == 9 || m == 11 then 30
    else 31
  }

  function DaysInYear(y: int): int {
    if IsLeapYear(y) then 366 else 365
  }

  /** The dates datetime.date accepts: any other combination raises ValueError. */
  predicate Valid(d: Date) {
    && MinYear <= d.year <= MaxYear
    && 1 <= d.month <= 12
    && 1 <= d.day <= DaysInMonth(d.year, d.month)
  }

  type ValidDate = d: Date | Valid(d) witness Date(1, 1, 1)

  /** Number of days in the years 1 .. y-1. */
  function DaysBeforeYear(y: int): int
    requires y >= 1
  {
    var p := y - 1;
    p * 365 + p / 4 - p / 100 + p / 400
  }

  /** Number of days in the months 1 .. m-1 of year y. */
  function DaysBeforeMonth(y: int, m: int): int
    requires 1 <= m <= 13
  {
    if m == 1 then 0 else DaysBeforeMonth(y, m - 1) + DaysInMonth(y, m - 1)
  }

  /** date.toordinal. */
  function Ordinal(d: ValidDate): int {
    DaysBeforeYear(d.year) + DaysBeforeMonth(d.year, d.month) + d.day
  }

  /** Calendar order: a is an earlier date than b. */
  predicate Before(a: Date, b: Date) {
    || a.year < b.year
    || (a.year == b.year && a.month < b.month)
    || (a.year == b.year && a.month == b.month && a.day < b.day)
  }

  /** Consecutive years are adjacent on the ordinal line: the closed form of
      DaysBeforeYear adds exactly the length of year y. */
  lemma DaysBeforeYearStep(y: int)
    requires y >= 1
    ensures DaysBeforeYear(y + 1) == DaysBeforeYear(y) + DaysInYear(y)
  {
    var p := y - 1;
    DivStep(y, 4);
    DivStep(y, 100);
    DivStep(y, 400);
    if y % 100 == 0 {
      DivModUnique(y, 4, 25 * (y / 100), 0);
    }
    if y % 400 == 0 {
      DivModUnique(y, 100, 4 * (y / 400), 0);
    }
    assert DaysBeforeYear(y + 1) - DaysBeforeYear(y)
        == 365 + (y / 4 - p / 4) - (y / 100 - p / 100) + (y / 400 - p / 400);
  }

  /** Stepping from y - 1 to y raises y / c exactly when c divides y. */
  lemma DivStep(y: int, c: int)
    requires y >= 1 && c > 0
    ensures y / c == (y - 1) / c + (if y % c == 0 then 1 else 0)
  {
    var q, r := (y - 1) / c, (y - 1) % c;
    assert y - 1 == q * c + r && 0 <= r < c;
    if r + 1 < c {
      assert y == q * c + (r + 1);
      DivModUnique(y, c, q, r + 1);
    } else {
      assert y == (q + 1) * c;
      DivModUnique(y, c, q + 1, 0);
    }
  }

  lemma DivModUnique(n: int, c: int, q: int, r: int)
    requires c > 0 && n == q * c + r && 0 <= r < c
    ensures n / c == q && n % c == r
  {
    var q', r' := n / c, n % c;
    assert n == q' * c + r' && 0 <= r' < c;
    var d := q - q';
    assert d * c == r' - r by {
      assert d * c == q * c - q' * c;
    }
    if d >= 1 {
      MulAtLeast(d, c);
    } else if d <= -1 {
      assert (-d) * c == -(d * c);
      MulAtLeast(-d, c);
    }
  }

  lemma MulAtLeast(d: int, c: int)
    requires d >= 1 && c > 0
    ensures d * c >= c
  {
  }

  lemma {:induction false} DaysBeforeYearMonotone(y1: int, y2: int)
    requires 1 <= y1 < y2
    ensures DaysBeforeYear(y1) + DaysInYear(y1) <= DaysBeforeYear(y2)
    decreases y2 - y1
  {
    DaysBeforeYearStep(y1);
    if y1 + 1 < y2 {
      DaysBeforeYearMonotone(y1 + 1, y2);
    }
  }

  /** The twelve months of a year add up to the year's length. */
  lemma DaysBeforeMonthWholeYear(y: int)
    ensures DaysBeforeMonth(y, 13) == DaysInYear(y)
  {
    var feb := DaysInMonth(y, 2);
    assert DaysBeforeMonth(y, 2) == 31;
    assert DaysBeforeMonth(y, 3) == 31 + feb;
    assert DaysBeforeMonth(y, 4) == 62 + feb;
    assert DaysBeforeMonth(y, 5) == 92 + feb;
    assert DaysBeforeMonth(y, 6) == 123 + feb;
    assert DaysBeforeMonth(y, 7) == 153 + feb;
    assert DaysBeforeMonth(y, 8) == 184 + feb;
    assert DaysBeforeMonth(y, 9) == 215 + feb;
    assert DaysBeforeMonth(y, 10) == 245 + feb;
    assert DaysBeforeMonth(y, 11) == 276 + feb;
    assert DaysBeforeMonth(y, 12) == 306 + feb;
    assert DaysBeforeMonth(y, 13) == 337 + feb;
  }

  lemma {:induction false} DaysBeforeMonthMonotone(y: int, m1: int, m2: int)
    requires 1 <= m1 < m2 <= 13
    ensures DaysBeforeMonth(y, m1) + DaysInMonth(y, m1) <= DaysBeforeMonth(y, m2)
    decreases m2 - m1
  {
    if m1 + 1 < m2 {
      DaysBeforeMonthMonotone(y, m1 + 1, m2);
    }
  }

  /** Every day of a year lies strictly between the end of the previous year
      and the start of the next one. */
  lemma OrdinalWithinYear(d: ValidDate)
    ensures DaysBeforeYear(d.year) < Ordinal(d) <= DaysBeforeYear(d.year) + DaysInYear(d.year)
  {
    if d.month < 12 {
      DaysBeforeMonthMonotone(d.year, d.month, 13);
    }
    DaysBeforeMonthWholeYear(d.year);
    DaysBeforeMonthNonNegative(d.year, d.month);
  }

  lemma {:induction false} DaysBeforeMonthNonNegative(y: int, m: int)
    requires 1 <= m <= 13
    ensures DaysBeforeMonth(y, m) >= 0
  {
    if m > 1 {
      DaysBeforeMonthNonNegative(y, m - 1);
    }
  }

  /** The ordinal is strictly increasing in calendar order. */
  lemma OrdinalMonotone(a: ValidDate, b: ValidDate)
    requires Before(a, b)
    ensures Ordinal(a) < Ordinal(b)
  {
    if a.year < b.year {
      OrdinalWithinYear(a);
      OrdinalWithinYear(b);
      DaysBeforeYearMonotone(a.year, b.year);
    } else if a.month < b.month {
      DaysBeforeMonthMonotone(a.year, a.month, b.month);
    }
  }

  /** The ordinal is an order isomorphism onto its image: it compares two
      dates exactly as the calendar does, and it tells every two dates apart. */
  lemma OrdinalOrder(a: ValidDate, b: ValidDate)
    ensures Ordinal(a) < Ordinal(b) <==> Before(a, b)
    ensures Ordinal(a) == Ordinal(b) <==> a == b
  {
    if Before(a, b) {
      OrdinalMonotone(a, b);
    } else if Before(b, a) {
      OrdinalMonotone(b, a);
    }
  }

  /** The first valid date has ordinal 1, as date(1, 1, 1).toordinal(). */
  lemma OrdinalOfFirstDate()
    ensures Ordinal(Date(1, 1, 1)) == 1
  {
  }

  /** `(end - start).days`: the signed number of days from start to end.
      It is zero exactly for the same date and negative when end precedes
      start; nothing requires end not to precede start. */
  function DaysBetween(start: ValidDate, end: ValidDate): (n: int)
    ensures n == 0 <==> start == end
    ensures n > 0 <==> Before(start, end)
    ensures n < 0 <==> Before(end, start)
  {
    OrdinalOrder(start, end);
    OrdinalOrder(end, start);
    Ordinal(end) - Ordinal(start)
  }

  /** Within one month the day count is the difference of the days. */
  lemma DaysBetweenSameMonth(a: ValidDate, b: ValidDate)
    requires a.year == b.year && a.month == b.month
    ensures DaysBetween(a, b) == b.day - a.day
  {
  }

  /** The calendar day after d, by the rules of the calendar alone: the next
      day of the month, else the first of the next month, else January 1 of
      the next year. The last representable date has no successor (Python
      raises OverflowError for date.max + timedelta(days=1)). */
  function NextDay(d: ValidDate): (r: Option<ValidDate>)
    ensures r.None? <==> d == Date(MaxYear, 12, 31)
    ensures r.Some? ==> Before(d, r.value)
  {
    if d.day < DaysInMonth(d.year, d.month) then Some(Date(d.year, d.month, d.day + 1))
    else if d.month < 12 then Some(Date(d.year, d.month + 1, 1))
    else if d.year < MaxYear then Some(Date(d.year + 1, 1, 1))
    else None
  }

  /** The date k calendar days after d, found by stepping NextDay k times;
      None when the steps run past the last representable date. */
  function AddDays(d: ValidDate, k: nat): Option<ValidDate> {
    if k == 0 then Some(d)
    else match AddDays(d, k - 1)
      case None => None
      case Some(e) => NextDay(e)
  }

  /** Consecutive calendar days are consecutive ordinals, across month and
      year ends alike. */
  lemma NextDayOrdinal(d: ValidDate)
    ensures NextDay(d).Some? ==> Ordinal(NextDay(d).value) == Ordinal(d) + 1
  {
    if d.day == DaysInMonth(d.year, d.month) {
      if d.month < 12 {
        assert DaysBeforeMonth(d.year, d.month + 1) == DaysBeforeMonth(d.year, d.month) + d.day;
      } else if d.year < MaxYear {
        DaysBeforeMonthWholeYear(d.year);
        DaysBeforeYearStep(d.year);
      }
    }
  }

  /** The day count is a count of calendar days: stepping k days forward
      from d reaches a date exactly k days after d. With OrdinalOfFirstDate
      this pins the ordinal to the number of days since 0001-01-01. */
  lemma {:induction false} DaysBetweenCountsDays(d: ValidDate, k: nat)
    ensures AddDays(d, k).Some? ==> DaysBetween(d, AddDays(d, k).value) == k
  {
    if k > 0 && AddDays(d, k - 1).Some? {
      DaysBetweenCountsDays(d, k - 1);
      NextDayOrdinal(AddDays(d, k - 1).value);
    }
  }
}
