/**
 * Calendar dates as the Python `datetime.date` type admits them: a year in
 * 1..9999, a month in 1..12 and a day within that month of the proleptic
 * Gregorian calendar. Dates compare chronologically, which for (year, month,
 * day) triples is the lexicographic order.
 */
module Calendar {

  datatype CalendarDate = CalendarDate(year: int, month: int, day: int)

  predicate IsLeapYear(year: int) {
    year % 4 == 0 && (year % 100 != 0 || year % 400 == 0)
  }

  function DaysInMonth(year: int, month: int): (n: int)
    requires 1 <= month <= 12
    ensures 28 <= n <= 31
  {
    if month == 2 then (if IsLeapYear(year) then 29 else 28)
    else if month == 4 || month == 6 || month == 9 || month == 11 then 30
    else 31
  }

  predicate WellFormed(d: CalendarDate) {
    && 1 <= d.year <= 9999
    && 1 <= d.month <= 12
    && 1 <= d.day <= DaysInMonth(d.year, d.month)
  }

  /** The dates a Python `date` object can hold. */
  type Date = d: CalendarDate | WellFormed(d) witness CalendarDate(1, 1, 1)

  /** `a < b` on Python dates: `a` is strictly earlier than `b`. */
  predicate Before(a: Date, b: Date) {
    || a.year < b.year
    || (a.year == b.year && a.month < b.month)
    || (a.year == b.year && a.month == b.month && a.day < b.day)
  }

  /** `a <= b` on Python dates. */
  predicate OnOrBefore(a: Date, b: Date) {
    Before(a, b) || a == b
  }

  /**
   * An integer key that orders dates chronologically: months and days are
   * spread far enough apart that no day overflows into the next month.
   */
  function Rank(d: Date): int {
    (d.year * 13 + d.month) * 32 + d.day
  }

  /** Exactly one of `a < b`, `a == b`, `b < a` holds. */
  lemma Trichotomy(a: Date, b: Date)
    ensures Before(a, b) || a == b || Before(b, a)
    ensures !(Before(a, b) && Before(b, a))
    ensures Before(a, b) ==> a != b
  {
  }

  /** Rank is an order embedding: it compares dates exactly as `Before` does. */
  lemma RankOrder(a: Date, b: Date)
    ensures Before(a, b) <==> Rank(a) < Rank(b)
    ensures Rank(a) == Rank(b) <==> a == b
  {
    if a.year < b.year {
      assert a.year * 13 + a.month < b.year * 13 + b.month;
    } else if b.year < a.year {
      assert b.year * 13 + b.month < a.year * 13 + a.month;
    }
  }
}
