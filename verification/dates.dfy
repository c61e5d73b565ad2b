/**
 * Calendar dates as `DateTime` handles them (proleptic Gregorian, years 1 to
 * 9999), the `AddYears` arithmetic the age check relies on, and the clocks an
 * action reads, passed in as values.
 */
module Dates {

  datatype Date = Date(year: int, month: int, day: int)

  /** The clocks an action reads: `DateTime.Today`, and `DateTime.Now` and `DateTimeOffset.UtcNow` in seconds. */
  datatype Clock = Clock(today: Date, now: int, utcNow: int)

  predicate IsLeapYear(y: int) {
    y % 4 == 0 && (y % 100 != 0 || y % 400 == 0)
  }

  function DaysInMonth(year: int, month: int): int {
    if month == 2 then (if IsLeapYear(year) then 29 else 28)
    else if month == 4 || month == 6 || month == 9 || month == 11 then 30
    else 31
  }

  /** A date `DateTime` can hold. */
  predicate Valid(d: Date) {
    1 <= d.year <= 9999 && 1 <= d.month <= 12 && 1 <= d.day <= DaysInMonth(d.year, d.month)
  }

  /** `a < b` on dates. */
  predicate Before(a: Date, b: Date) {
    a.year < b.year || (a.year == b.year && (a.month < b.month || (a.month == b.month && a.day < b.day)))
  }

  /** February 29, the only day `AddYears` may move. */
  predicate IsLeapDay(d: Date) {
    d.month == 2 && d.day == 29
  }

  /**
   * `DateTime.AddYears(n)`: the same month and day `n` years on, the day clamped
   * to the length of the month, so that 29 February becomes 28 February in a
   * common year. The year-range exception is left to the callers, whose
   * shifted years always stay in range.
   */
  function AddYears(d: Date, n: int): (r: Date)
    ensures r.year == d.year + n && r.month == d.month
    ensures Valid(d) && 1 <= r.year <= 9999 ==> Valid(r)
    ensures Valid(d) ==> r.day == d.day || (IsLeapDay(d) && !IsLeapYear(r.year) && r.day == 28)
  {
    var y := d.year + n;
    var last := DaysInMonth(y, d.month);
    Date(y, d.month, if d.day > last then last else d.day)
  }

  /** `d.AddDays(1)`: the next date in calendar order, with no valid date in between. */
  function NextDay(d: Date): (r: Date)
    ensures Before(d, r)
    ensures Valid(d) && d.year < 9999 ==> Valid(r)
    ensures Valid(d) ==> forall x :: Valid(x) && Before(d, x) ==> !Before(x, r)
  {
    if d.day < DaysInMonth(d.year, d.month) then Date(d.year, d.month, d.day + 1)
    else if d.month < 12 then Date(d.year, d.month + 1, 1)
    else Date(d.year + 1, 1, 1)
  }

  /**
   * Age in completed years, the usual way: the difference of the years, less
   * one while this year's birthday (month and day) is still ahead.
   */
  function CompletedYears(birth: Date, today: Date): int {
    var years := today.year - birth.year;
    if birth.month > today.month || (birth.month == today.month && birth.day > today.day)
    then years - 1
    else years
  }
}
