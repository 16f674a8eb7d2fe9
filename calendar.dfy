/**
 * The part of JavaScript's `Date` that the charts use: calendar days in the
 * proleptic Gregorian calendar, `getMonth`/`setMonth` with their roll-over
 * rules, and the order of `getTime()`. Months are numbered 0..11 as
 * `getMonth()` numbers them. Time zones are not modelled (everything is UTC).
 */
module Calendar {

  datatype Date = Date(year: int, month: int, day: int) {
    /** A day that exists in the calendar; every `Date` object denotes one. */
    predicate Valid() {
      0 <= month < 12 && 1 <= day <= DaysInMonth(year, month)
    }
  }

  type CalendarDate = d: Date | d.Valid() witness Date(1970, 0, 1)

  /** Milliseconds in a day: the range of an instant's time of day. */
  const DayMs: int := 86_400_000

  /** A point in time: a calendar day and the milliseconds elapsed since its midnight. */
  datatype Instant = Instant(date: CalendarDate, ms: int) {
    predicate Valid() { 0 <= ms < DayMs }
  }

  predicate IsLeapYear(year: int) {
    year % 4 == 0 && (year % 100 != 0 || year % 400 == 0)
  }

  function DaysInMonth(year: int, month: int): (n: int)
    requires 0 <= month < 12
    ensures 28 <= n <= 31
    ensures n == 29 <==> month == 1 && IsLeapYear(year)
  {
    if month == 1 then (if IsLeapYear(year) then 29 else 28)
    else if month == 3 || month == 5 || month == 8 || month == 10 then 30
    else 31
  }

  /** Months elapsed since January of year 0. */
  function MonthIndex(d: Date): int {
    d.year * 12 + d.month
  }

  /**
   * A number that orders days as `getTime()` orders their midnights. It is not
   * a count of days (it leaves gaps after short months); only its order is used.
   */
  function Ordinal(d: Date): int {
    MonthIndex(d) * 32 + d.day
  }

  /** `getTime()` up to the same order-preserving renumbering of days. */
  function Time(t: Instant): int {
    Ordinal(t.date) * DayMs + t.ms
  }

  /** `a >= b` on two `Date` objects: a later day, or the same day at a later or equal time. */
  predicate AtOrAfter(a: Instant, b: Instant) {
    Ordinal(a.date) > Ordinal(b.date) || (Ordinal(a.date) == Ordinal(b.date) && a.ms >= b.ms)
  }

  /** `AtOrAfter` is the order of `getTime()`. */
  lemma AtOrAfterTime(a: Instant, b: Instant)
    requires a.Valid() && b.Valid()
    ensures AtOrAfter(a, b) <==> Time(a) >= Time(b)
  {
    var x, y := Ordinal(a.date), Ordinal(b.date);
    if x > y {
      assert x * DayMs >= y * DayMs + DayMs;
    } else if x < y {
      assert y * DayMs >= x * DayMs + DayMs;
    }
  }

  /** `new Date(d) >= t` for a date-only string `d`, which denotes midnight of day `d`. */
  predicate MidnightAtOrAfter(d: CalendarDate, t: Instant) {
    AtOrAfter(Instant(d, 0), t)
  }

  /**
   * `d.setMonth(m)`: the year absorbs whole multiples of twelve from `m` (a
   * negative `m` borrows from it), the day of the month is kept, and a day
   * past the end of the target month spills into the following month.
   */
  function SetMonth(d: CalendarDate, m: int): (r: CalendarDate)
    ensures var target := d.year * 12 + m;
      || (d.day <= DaysInMonth(target / 12, target % 12) && MonthIndex(r) == target && r.day == d.day)
      || (d.day > DaysInMonth(target / 12, target % 12) && MonthIndex(r) == target + 1 && r.day == d.day - DaysInMonth(target / 12, target % 12))
  {
    var year := d.year + m / 12;
    var month := m % 12;
    var length := DaysInMonth(year, month);
    // December has 31 days, so a spill never crosses into the next year.
    if d.day <= length then Date(year, month, d.day)
    else Date(year, month + 1, d.day - length)
  }

  /** `d.setMonth(d.getMonth() + k)`: move `k` months, with the roll-over of `SetMonth`. */
  function AddMonths(d: CalendarDate, k: int): (r: CalendarDate)
    ensures MonthIndex(d) + k <= MonthIndex(r) <= MonthIndex(d) + k + 1
    ensures MonthIndex(r) == MonthIndex(d) + k <==> r.day == d.day
  {
    SetMonth(d, d.month + k)
  }

  /** Moving by zero months leaves a valid date where it is. */
  lemma AddMonthsZero(d: CalendarDate)
    ensures AddMonths(d, 0) == d
  {
  }

  /**
   * Moving `k` months lands in month `k` from the start, or one month later
   * when the day does not exist there; a day up to 28 never spills.
   */
  lemma AddMonthsIndex(d: CalendarDate, k: int)
    ensures var r := AddMonths(d, k);
      MonthIndex(d) + k <= MonthIndex(r) <= MonthIndex(d) + k + 1
    ensures d.day <= 28 ==> MonthIndex(AddMonths(d, k)) == MonthIndex(d) + k && AddMonths(d, k).day == d.day
    ensures MonthIndex(AddMonths(d, k)) == MonthIndex(d) + k + 1 ==> AddMonths(d, k).day <= 3 && AddMonths(d, k).day < d.day
  {
  }

  /** Going back `k >= 0` months never moves forward in time, and `k >= 1` moves strictly back. */
  lemma {:induction false} AddMonthsBack(d: CalendarDate, k: int)
    requires k >= 0
    ensures Ordinal(AddMonths(d, -k)) <= Ordinal(d)
    ensures k >= 1 ==> Ordinal(AddMonths(d, -k)) < Ordinal(d)
  {
    AddMonthsIndex(d, -k);
  }
}
