/** The calendar arithmetic of the reactive todo service: the inclusive
    date-time window a month or a year query covers. */
module ReactiveTodoService {
  import opened Wrappers
  import opened Errors
  import opened Time

  /** The bounds passed to `findByDueDateBetween`, both inclusive. */
  datatype DateRange = DateRange(start: LocalDateTime, end: LocalDateTime)

  /** `getTodosByMonth`: from the first of the month at midnight to the
      month's last day at 23:59:59; an invalid month or year is refused. */
  function MonthRange(year: int, month: int): (r: Outcome<DateRange>)
    ensures r.Failure? <==> !(1 <= month <= 12 && MinYear <= year <= MaxYear)
    ensures r.Failure? ==> r.error == DateTimeException
    ensures r.Ok? ==> r.value.start == LocalDateTime(LocalDate(year, month, 1), LocalTime(0, 0, 0))
    ensures r.Ok? ==>
      r.value.end == LocalDateTime(LocalDate(year, month, LengthOfMonth(year, month)), LocalTime(23, 59, 59))
    ensures r.Ok? ==> ValidDateTime(r.value.start) && ValidDateTime(r.value.end)
    ensures r.Ok? ==> IsBefore(r.value.start, r.value.end)
  {
    var yearMonth :- YearMonthOf(year, month);
    Ok(DateRange(StartOfMonth(yearMonth), EndOfMonth(yearMonth)))
  }

  /** `getTodosByYear`: January 1 at midnight to December 31 at 23:59:59. */
  function YearRange(year: int): (r: Outcome<DateRange>)
    ensures r.Failure? <==> !(MinYear <= year <= MaxYear)
    ensures r.Failure? ==> r.error == DateTimeException
    ensures r.Ok? ==> r.value.start == LocalDateTime(LocalDate(year, 1, 1), LocalTime(0, 0, 0))
    ensures r.Ok? ==> r.value.end == LocalDateTime(LocalDate(year, 12, 31), LocalTime(23, 59, 59))
    ensures r.Ok? ==> IsBefore(r.value.start, r.value.end)
  {
    var startDate :- LocalDateTimeOf(year, 1, 1, 0, 0, 0);
    var endDate :- LocalDateTimeOf(year, 12, 31, 23, 59, 59);
    Ok(DateRange(startDate, endDate))
  }

  /** Earlier months end earlier in the year. */
  lemma {:induction false} DaysBeforeMonthMonotone(year: int, m: int, n: int)
    requires 1 <= m <= n <= 13
    ensures DaysBeforeMonth(year, m) <= DaysBeforeMonth(year, n)
    decreases n - m
  {
    if m < n {
      DaysBeforeMonthMonotone(year, m, n - 1);
    }
  }

  /** A range's start lies strictly before its end on the time line as well. */
  lemma MonthRangeNonEmpty(year: int, month: int)
    requires MonthRange(year, month).Ok?
    ensures EpochSecond(MonthRange(year, month).value.start) < EpochSecond(MonthRange(year, month).value.end)
  {
  }

  /** A valid month's window lies inside its year's window. */
  lemma MonthWithinYear(year: int, month: int)
    requires MonthRange(year, month).Ok?
    ensures YearRange(year).Ok?
    ensures EpochSecond(YearRange(year).value.start) <= EpochSecond(MonthRange(year, month).value.start)
    ensures EpochSecond(MonthRange(year, month).value.end) <= EpochSecond(YearRange(year).value.end)
  {
    var m := MonthRange(year, month).value;
    var y := YearRange(year).value;
    DaysBeforeMonthMonotone(year, month + 1, 13);
    assert DaysBeforeMonth(year, 13) == DaysBeforeMonth(year, 12) + 31;
    assert DaysBeforeMonth(year, month + 1) == DaysBeforeMonth(year, month) + LengthOfMonth(year, month);
    assert EpochDay(m.end.date) <= EpochDay(y.end.date);
    assert EpochDay(y.start.date) <= EpochDay(m.start.date);
  }

  /** Consecutive months tile the time line: the second after one month's end
      is the next month's start, so the windows neither overlap nor leave a gap. */
  lemma ConsecutiveMonthsMeet(year: int, month: int)
    requires MonthRange(year, month).Ok?
    requires MonthRange(NextMonth(YearMonth(year, month)).year, NextMonth(YearMonth(year, month)).month).Ok?
    ensures
      var next := NextMonth(YearMonth(year, month));
      EpochSecond(MonthRange(year, month).value.end) + 1 == EpochSecond(MonthRange(next.year, next.month).value.start)
  {
    EndOfMonthMeetsNext(YearMonth(year, month));
  }

  /** Consecutive years tile the time line in the same way. */
  lemma ConsecutiveYearsMeet(year: int)
    requires YearRange(year).Ok? && YearRange(year + 1).Ok?
    ensures EpochSecond(YearRange(year).value.end) + 1 == EpochSecond(YearRange(year + 1).value.start)
  {
    EndOfMonthMeetsNext(YearMonth(year, 12));
  }
}
