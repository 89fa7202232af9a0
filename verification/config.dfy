/**
 * Application constants of the expense tracker. The latest admissible date
 * is "today", read from the clock when the program starts; it is not a
 * constant here but a parameter of the operations that need it.
 */
module Config {
  import opened Calendar

  /** Year of the earliest admissible expense date. */
  const MinYear := 2023

  /** The earliest admissible expense date, January 1st of `MinYear`. */
  const MinDate: Date := CalendarDate(MinYear, 1, 1)

  /** The closed set of categories the entry form offers, in display order. */
  const Categories: seq<string> :=
    ["Food", "Transport", "Utilities", "Entertainment", "Health", "Other"]
}
