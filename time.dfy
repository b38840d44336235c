/** The parts of `java.time` the services rely on: ISO (proleptic Gregorian)
    dates, times of day at second resolution, and the checks `YearMonth.of` and
    `LocalDateTime.of` perform before building a value. */
module Time {
  import opened Wrappers
  import opened Errors

  /** The range of the ISO year field. */
  const MinYear := -999_999_999
  const MaxYear := 999_999_999

  datatype LocalDate = LocalDate(year: int, month: int, day: int)

  /** A time of day; the nanosecond field is always zero in this model. */
  datatype LocalTime = LocalTime(hour: int, minute: int, second: int)

  datatype LocalDateTime = LocalDateTime(date: LocalDate, time: LocalTime)

  /** The Gregorian rule, applied to every year including those before 1582. */
  predicate IsLeapYear(year: int) {
    year % 4 == 0 && (year % 100 != 0 || year % 400 == 0)
  }

  function YearLength(year: int): (n: int)
    ensures n == 365 || n == 366
    ensures n == 366 <==> IsLeapYear(year)
  {
    if IsLeapYear(year) then 366 else 365
  }

  function LengthOfMonth(year: int, month: int): (n: int)
    requires 1 <= month <= 12
    ensures 28 <= n <= 31
    ensures month == 2 ==> (n == 29 <==> IsLeapYear(year)) && n <= 29
    ensures month != 2 ==> (n == 30 <==> month == 4 || month == 6 || month == 9 || month == 11)
    ensures month != 2 ==> n >= 30
  {
    if month == 2 then (if IsLeapYear(year) then 29 else 28)
    else if month == 4 || month == 6 || month == 9 || month == 11 then 30
    else 31
  }

  predicate ValidDate(d: LocalDate) {
    MinYear <= d.year <= MaxYear && 1 <= d.month <= 12 && 1 <= d.day <= LengthOfMonth(d.year, d.month)
  }

  predicate ValidTime(t: LocalTime) {
    0 <= t.hour < 24 && 0 <= t.minute < 60 && 0 <= t.second < 60
  }

  predicate ValidDateTime(dt: LocalDateTime) {
    ValidDate(dt.date) && ValidTime(dt.time)
  }

  /** `isBefore`: chronological order, field by field. */
  predicate DateBefore(a: LocalDate, b: LocalDate) {
    a.year < b.year
    || (a.year == b.year && (a.month < b.month || (a.month == b.month && a.day < b.day)))
  }

  predicate TimeBefore(a: LocalTime, b: LocalTime) {
    a.hour < b.hour
    || (a.hour == b.hour && (a.minute < b.minute || (a.minute == b.minute && a.second < b.second)))
  }

  predicate IsBefore(a: LocalDateTime, b: LocalDateTime) {
    DateBefore(a.date, b.date) || (a.date == b.date && TimeBefore(a.time, b.time))
  }

  /** The exception every out-of-range field raises. */
  const DateTimeException := Thrown("DateTimeException", None)

  /** `LocalDateTime.of(year, month, day, hour, minute, second)`. */
  function LocalDateTimeOf(year: int, month: int, day: int, hour: int, minute: int, second: int)
    : (r: Outcome<LocalDateTime>)
    ensures r.Ok? <==> ValidDateTime(LocalDateTime(LocalDate(year, month, day), LocalTime(hour, minute, second)))
    ensures r.Ok? ==> r.value == LocalDateTime(LocalDate(year, month, day), LocalTime(hour, minute, second))
    ensures r.Failure? ==> r.error == DateTimeException
  {
    var dt := LocalDateTime(LocalDate(year, month, day), LocalTime(hour, minute, second));
    if ValidDateTime(dt) then Ok(dt) else Failure(DateTimeException)
  }

  datatype YearMonth = YearMonth(year: int, month: int)

  predicate ValidYearMonth(ym: YearMonth) {
    MinYear <= ym.year <= MaxYear && 1 <= ym.month <= 12
  }

  /** `YearMonth.of(year, month)`. */
  function YearMonthOf(year: int, month: int): (r: Outcome<YearMonth>)
    ensures r.Ok? <==> ValidYearMonth(YearMonth(year, month))
    ensures r.Ok? ==> r.value == YearMonth(year, month)
    ensures r.Failure? ==> r.error == DateTimeException
  {
    if ValidYearMonth(YearMonth(year, month)) then Ok(YearMonth(year, month)) else Failure(DateTimeException)
  }

  /** `atDay(1).atStartOfDay()`. */
  function StartOfMonth(ym: YearMonth): (dt: LocalDateTime)
    requires ValidYearMonth(ym)
    ensures ValidDateTime(dt)
    ensures dt.date.year == ym.year && dt.date.month == ym.month && dt.date.day == 1
    ensures dt.time == LocalTime(0, 0, 0)
  {
    LocalDateTime(LocalDate(ym.year, ym.month, 1), LocalTime(0, 0, 0))
  }

  /** `atEndOfMonth().atTime(23, 59, 59)`. */
  function EndOfMonth(ym: YearMonth): (dt: LocalDateTime)
    requires ValidYearMonth(ym)
    ensures ValidDateTime(dt)
    ensures dt.date.year == ym.year && dt.date.month == ym.month
    ensures dt.date.day == LengthOfMonth(ym.year, ym.month)
    ensures dt.time == LocalTime(23, 59, 59)
  {
    LocalDateTime(LocalDate(ym.year, ym.month, LengthOfMonth(ym.year, ym.month)), LocalTime(23, 59, 59))
  }

  /** The month after `ym`; December rolls over into January of the next year. */
  function NextMonth(ym: YearMonth): YearMonth {
    if ym.month == 12 then YearMonth(ym.year + 1, 1) else YearMonth(ym.year, ym.month + 1)
  }

  // ---- A linear time line, to compare instants across month and year ends ----

  /** Days from 0001-01-01 to January 1 of `year`; `/` is floor division here,
      so the count is right for years before 1 as well. */
  function DaysBeforeYear(year: int): int {
    365 * (year - 1) + (year - 1) / 4 - (year - 1) / 100 + (year - 1) / 400
  }

  /** Days from January 1 to the first of `month` (13 stands for the year's end). */
  function DaysBeforeMonth(year: int, month: int): (n: int)
    requires 1 <= month <= 13
    ensures 0 <= n
    decreases month
  {
    if month == 1 then 0 else DaysBeforeMonth(year, month - 1) + LengthOfMonth(year, month - 1)
  }

  function EpochDay(d: LocalDate): int
    requires 1 <= d.month <= 12
  {
    DaysBeforeYear(d.year) + DaysBeforeMonth(d.year, d.month) + d.day - 1
  }

  /** Seconds since 0001-01-01T00:00:00. */
  function EpochSecond(dt: LocalDateTime): int
    requires 1 <= dt.date.month <= 12
  {
    EpochDay(dt.date) * 86400 + dt.time.hour * 3600 + dt.time.minute * 60 + dt.time.second
  }

  /** Stepping `x` by one crosses a multiple of `d` exactly when `x` is one. */
  lemma FloorDivStep(x: int, d: int)
    requires d == 4 || d == 100 || d == 400
    ensures x / d - (x - 1) / d == if x % d == 0 then 1 else 0
  {
  }

  /** The twelve months add up to the year. */
  lemma MonthsFillYear(year: int)
    ensures DaysBeforeMonth(year, 13) == YearLength(year)
  {
  }

  /** The closed form of `DaysBeforeYear` advances by the length of each year. */
  lemma DaysBeforeNextYear(year: int)
    ensures DaysBeforeYear(year + 1) == DaysBeforeYear(year) + YearLength(year)
  {
    FloorDivStep(year, 4);
    FloorDivStep(year, 100);
    FloorDivStep(year, 400);
    DivisorChain(year);
    var fours := year / 4 - (year - 1) / 4;
    var hundreds := year / 100 - (year - 1) / 100;
    var fourHundreds := year / 400 - (year - 1) / 400;
    assert DaysBeforeYear(year + 1) == DaysBeforeYear(year) + 365 + fours - hundreds + fourHundreds;
  }

  /** A multiple of 400 is a multiple of 100, which is a multiple of 4. */
  lemma DivisorChain(year: int)
    ensures year % 400 == 0 ==> year % 100 == 0
    ensures year % 100 == 0 ==> year % 4 == 0
  {
    if year % 400 == 0 {
      var k := year / 400;
      assert year == 100 * (4 * k);
    }
    if year % 100 == 0 {
      var k := year / 100;
      assert year == 4 * (25 * k);
    }
  }

  /** The last second of a month is immediately followed by the first second of
      the next month. */
  lemma EndOfMonthMeetsNext(ym: YearMonth)
    requires ValidYearMonth(ym) && ValidYearMonth(NextMonth(ym))
    ensures EpochSecond(EndOfMonth(ym)) + 1 == EpochSecond(StartOfMonth(NextMonth(ym)))
  {
    if ym.month == 12 {
      MonthsFillYear(ym.year);
      DaysBeforeNextYear(ym.year);
    }
  }
}
