/** The window export_calendar renders: January 1 to December 31 of the
    year of `today`, derived from `today` by date.replace calls. */
module Export {
  import opened Wrappers
  import opened Dates

  /** The [start, end] dates passed to the renderer. */
  datatype Window = Window(start: ValidDate, end: ValidDate)

  /** date.replace(day = day): the same year and month with another day;
      None where Python raises ValueError because the date does not exist. */
  function ReplaceDay(d: ValidDate, day: int): (r: Option<ValidDate>)
    ensures r.Some? <==> 1 <= day <= DaysInMonth(d.year, d.month)
    ensures r.Some? ==> r.value.year == d.year && r.value.month == d.month && r.value.day == day
  {
    var c := Date(d.year, d.month, day);
    if Valid(c) then Some(c) else None
  }

  /** date.replace(month = month): the same year and day in another month;
      None where Python raises ValueError. */
  function ReplaceMonth(d: ValidDate, month: int): (r: Option<ValidDate>)
    ensures r.Some? <==> 1 <= month <= 12 && d.day <= DaysInMonth(d.year, month)
    ensures r.Some? ==> r.value.year == d.year && r.value.month == month && r.value.day == d.day
  {
    var c := Date(d.year, month, d.day);
    if Valid(c) then Some(c) else None
  }

  /** The window computation of export_calendar, replace by replace, in the
      source's order: day then month for the start, month then day for the
      end. No replace can raise (each `.value` below is proved present): day
      1 exists in every month, and whatever today's day is, December has it
      and has a 31st. The window is January 1 to December 31 of today's
      year, and holds today. */
  function YearWindow(today: ValidDate): (w: Window)
    ensures w.start == Date(today.year, 1, 1)
    ensures w.end == Date(today.year, 12, 31)
    ensures Ordinal(w.start) <= Ordinal(today) <= Ordinal(w.end)
  {
    var start := ReplaceMonth(ReplaceDay(today, 1).value, 1).value;
    var end := ReplaceDay(ReplaceMonth(today, 12).value, 31).value;
    OrdinalOrder(start, today);
    OrdinalOrder(today, end);
    Window(start, end)
  }

  /** A date lies in the window exactly when it falls in today's year: the
      window neither misses a day of the year nor reaches into another. */
  lemma YearWindowIsTheYear(today: ValidDate, d: ValidDate)
    ensures var w := YearWindow(today);
            Ordinal(w.start) <= Ordinal(d) <= Ordinal(w.end) <==> d.year == today.year
  {
    var w := YearWindow(today);
    OrdinalOrder(d, w.start);
    OrdinalOrder(w.end, d);
  }

  /** The window spans the whole year: its end is DaysInYear - 1 days after
      its start. */
  lemma YearWindowLength(today: ValidDate)
    ensures var w := YearWindow(today);
            DaysBetween(w.start, w.end) == DaysInYear(today.year) - 1
  {
  }
}
