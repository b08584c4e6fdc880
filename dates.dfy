/**
 * Calendar dates as Python's `datetime.date` has them: the proleptic
 * Gregorian calendar, compared lexicographically on (year, month, day),
 * with `d + timedelta(days=n)` modelled by `AddDays`.
 */
module Dates {

  datatype Date = Date(year: int, month: int, day: int)

  predicate IsLeapYear(y: int) {
    y % 4 == 0 && (y % 100 != 0 || y % 400 == 0)
  }

  function DaysInMonth(y: int, m: int): (n: int)
    requires 1 <= m <= 12
    ensures 28 <= n <= 31
    ensures n == 29 <==> m == 2 && IsLeapYear(y)
    ensures m != 2 ==> 30 <= n
  {
    if m == 2 then (if IsLeapYear(y) then 29 else 28)
    else if m == 4 || m == 6 || m == 9 || m == 11 then 30
    else 31
  }

  /** A date that exists in the calendar. */
  predicate ValidDate(d: Date) {
    1 <= d.year && 1 <= d.month <= 12 && 1 <= d.day <= DaysInMonth(d.year, d.month)
  }

  /** `a < b` on Python dates. */
  predicate Before(a: Date, b: Date) {
    a.year < b.year ||
    (a.year == b.year && (a.month < b.month || (a.month == b.month && a.day < b.day)))
  }

  /**
   * `Before` is a strict total order, so `not (a < b)` is exactly `a >= b`:
   * equal, or strictly later.
   */
  lemma BeforeIsStrictTotalOrder(a: Date, b: Date, c: Date)
    ensures !Before(a, a)
    ensures Before(a, b) && Before(b, c) ==> Before(a, c)
    ensures !Before(a, b) <==> a == b || Before(b, a)
  {
  }

  /** The first day of the month after the one `d` lies in. */
  function FirstOfNextMonth(d: Date): (e: Date)
    requires ValidDate(d)
    ensures ValidDate(e) && e.day == 1 && Before(d, e)
    ensures e.month == (if d.month == 12 then 1 else d.month + 1)
  {
    if d.month < 12 then Date(d.year, d.month + 1, 1) else Date(d.year + 1, 1, 1)
  }

  /** The calendar day after `d`. */
  function NextDay(d: Date): (e: Date)
    requires ValidDate(d)
    ensures ValidDate(e) && Before(d, e)
    ensures d.day < DaysInMonth(d.year, d.month) ==> e == d.(day := d.day + 1)
    ensures d.day == DaysInMonth(d.year, d.month) ==> e == FirstOfNextMonth(d)
  {
    if d.day < DaysInMonth(d.year, d.month) then d.(day := d.day + 1) else FirstOfNextMonth(d)
  }

  /** `d + timedelta(days=n)` for a non-negative `n`. */
  function AddDays(d: Date, n: nat): (e: Date)
    requires ValidDate(d)
    ensures ValidDate(e)
    ensures n > 0 ==> Before(d, e)
    decreases n
  {
    if n == 0 then d else AddDays(NextDay(d), n - 1)
  }

  /** Adding days in two steps is adding their sum. */
  lemma {:induction false} AddDaysSum(d: Date, a: nat, b: nat)
    requires ValidDate(d)
    ensures AddDays(AddDays(d, a), b) == AddDays(d, a + b)
    decreases a
  {
    if a > 0 {
      AddDaysSum(NextDay(d), a - 1, b);
    }
  }

  /** One more day is one more step of `NextDay` at the end. */
  lemma AddDaysSucc(d: Date, n: nat)
    requires ValidDate(d)
    ensures AddDays(d, n + 1) == NextDay(AddDays(d, n))
  {
    AddDaysSum(d, n, 1);
    assert AddDays(AddDays(d, n), 1) == AddDays(NextDay(AddDays(d, n)), 0);
  }

  /**
   * Within four weeks a date moves at most into the next month: either it
   * stays in its month with the day advanced by `k`, or it lands in the
   * following month at day `d.day + k - DaysInMonth`.
   */
  lemma {:induction false} AddDaysShort(d: Date, k: nat)
    requires ValidDate(d) && k <= 28
    ensures var e := AddDays(d, k);
      if d.day + k <= DaysInMonth(d.year, d.month) then
        e == d.(day := d.day + k)
      else
        e == FirstOfNextMonth(d).(day := d.day + k - DaysInMonth(d.year, d.month))
    decreases k
  {
    if k > 0 {
      AddDaysShort(d, k - 1);
      AddDaysSucc(d, k - 1);
    }
  }
}
