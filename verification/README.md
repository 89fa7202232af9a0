# Expense tracker store, modelled in Dafny

This project models the persistence-and-reporting core of a small personal
expense tracker. A user records expenses, each a (category, amount, date)
triple, and later views four summaries: the total spend, the spend per
category, the spend per day and the highest and lowest spending category.

The model has six modules:

- `Calendar` (calendar.dfy): dates as Python's `date` admits them, with
  chronological comparison (`Before`) and an integer sort key (`Rank`) that
  agrees with it.
- `Config` (config.dfy): the earliest admissible date (January 1st, 2023) and
  the six offered categories. "Today" is read from the clock once at start-up
  in the program, so it is a parameter here, not a constant.
- `Utils` (utils.dfy): `format_amount` as exact rounding to whole cents,
  `validate_date`, and `format_date_display` together with a parser for its
  output.
- `Grouping` (grouping.dfy): the relational operations the SQL queries use,
  over a sequence of (key, amount) pairs: `SUM`, `GROUP BY` and `ORDER BY`.
- `Expenses` (expenses.dfy): the `expenses` table as a sequence of rows with
  amounts in cents, `insert_expense` as a function that returns the new table
  and an outcome, and the four read-only aggregates.
- `Wrappers` (wrappers.dfy): an `Option` type for the date parser.

A storage failure is the store's `Unavailable(reason)` state. In that state
every read returns its default (0, an empty view, or the `N/A` summary), and
an insert reports `Error: <reason>` and leaves the table unchanged.

Amounts are whole cents (`int`). A raw amount before rounding is an exact
rational `Quantity(num, den)`, and every finite binary float is one of these.
`FormatAmount` rounds the exact value half to even. CPython's `round(x, 2)`
applied to a float rounds the float's exact binary value the same way. The
difference from the program lies only in which decimals a float can hold
exactly. In the program `round(20.005, 2)` gives 20.0, because the float
nearest 20.005 is 20.004999999999999005…; an exact 20.005 is a tie, and
half-to-even rounding also gives 20.00.

`MAX_DATE` is read once, when config.py is imported (config.py:26); here it
is the `maxDate` parameter of `ValidateDate`.

## Model

| member | source | states |
|---|---|---|
| Utils.FormatAmount | utils.py:8-18 | The result, in cents, is the amount rounded to two fractional digits: no other number of cents is nearer, and an exact tie goes to the even one. |
| Utils.RoundedCentsUnique | utils.py:18 | Only one number of cents meets that rounding condition, so `FormatAmount`'s contract pins its result down completely. |
| Utils.FormatAmountExact | utils.py:18 | An amount that is already a whole number of cents is returned unchanged. |
| Utils.FormatAmountIdempotent | utils.py:18 | Formatting the formatted amount again gives the same amount. |
| Utils.ValidateDate | utils.py:20-36 | A date is accepted exactly when it lies between the earliest date and today, inclusive. The message is empty exactly when the date is accepted. A too-early date gets the "cannot be before" message, which takes precedence over the "in the future" message. |
| Utils.EarliestDateMessage | utils.py:31 | The too-early message names the earliest date as 01/01/2023. |
| Utils.FormatDateDisplay | utils.py:38-48 | The text has 10 characters, with `/` at positions 2 and 5 and digits elsewhere. It reads back as the same date. |
| Utils.ParseDisplayInverse | utils.py:48 | Any text that reads back as a date is that date's display text, so display and parsing are mutually inverse. |
| Grouping.Group | database.py:123-127 | `GROUP BY` with `SUM`: keys are distinct and are exactly the input's keys. Per-key sums and the grand total equal the input's. |
| Grouping.SortBy | database.py:123-128 | `ORDER BY`: the result is a permutation of the input (same multiset of pairs), ordered by rank. |
| Grouping.SortByKeys | database.py:123-128 | Sorting keeps the set of keys, and keeps the keys distinct when they were. |
| Grouping.SortBySums | database.py:123-128 | Sorting keeps the grand total and every per-key sum. |
| Grouping.GroupOrderedBy | database.py:123-128 | A grouped, ordered view has one entry per distinct key. Each entry holds its key's total over the input. Entries are in rank order and add up to the input's total. |
| Expenses.Insert | database.py:43-95 | The amount is rounded first. If the (category, cents, date) triple is present, the outcome is a duplicate and the table is unchanged. Otherwise exactly that row is appended after the unchanged old rows. Under a storage failure the outcome is an error and the table is unchanged. A table without duplicate triples keeps that property. |
| Expenses.Reply | database.py:77-95 | Success is reported exactly for an inserted row, as `(True, "Values recorded successfully")`. A duplicate is reported exactly as `(False, "Already recorded")`. A failure is reported as `"Error: "` followed by the reason. |
| Expenses.Total | database.py:97-112 | The total is 0 on an empty table and on a storage failure. |
| Expenses.TotalAdditive | database.py:106-108 | With storage available, the total is a sum over the rows: a one-row table totals its amount, and the total of two tables put together is the sum of their totals. |
| Expenses.ByCategory | database.py:114-139 | One entry per category present, each holding that category's total. Totals are non-increasing and add up to `Total`. The view is empty on an empty table or a storage failure. |
| Expenses.Trend | database.py:141-167 | One entry per date present, each holding that date's total. Dates strictly increase and the totals add up to `Total`. The view is empty on an empty table or a storage failure. |
| Expenses.HighestLowest | database.py:169-210 | On a non-empty table, `highest` and `lowest` are the first and last entries of `ByCategory`. They hold the largest and smallest category totals, so `highest >= lowest`, and they are equal when only one category exists. On an empty table or a storage failure both are `N/A` with 0. |
| Expenses.ByCategoryExtremes | database.py:186-194 | When storage is available and the table has rows, the by-category view is non-empty. Its first entry bounds every category total from above and its last entry bounds them from below. |
| Expenses.SingleCategory | database.py:186-194 | With one category in the table, the by-category view has exactly one entry. |
| Expenses.InsertTotals | database.py:80-92 | Recording an expense raises the total, its category's total and its date's total by the rounded amount. A duplicate or failed insert changes none of them. |
| Expenses.InsertTwice | database.py:63-92 | Submitting the same entry twice gives a duplicate on the second call and leaves the table as the first call left it. If the triple was new, exactly one row holds it afterwards. |
| Expenses.RoundedAmountsCollide | database.py:57-78 | Two raw amounts that round to the same cents, for the same category and date, collide: once the first is stored, the second is a duplicate. |
| Expenses.InsertKeepsKnownCategories | config.py:21 | Inserting only offered categories keeps every stored category one of the offered ones. |

## Left out

- `connect`, `close` and the lazy reconnect at the start of each method (database.py:19-41) are network I/O through the pg8000 library. A failed connection or query is the `Unavailable` store state.
- The pandas DataFrame construction and `pd.to_datetime` (database.py:131-135, 158-163) are left out. The views are plain sequences of (key, total) pairs.
- Utils.FormatAmount: does not model binary floating point. The amount is an exact rational. The model agrees with `round` on every finite float's exact value, but a decimal literal such as 20.005 is not the value its float holds.
- Utils.FormatAmount: non-finite amounts (`inf`, `-inf`, `nan`) are not modelled. `float()` accepts them and `round(x, 2)` returns them unchanged (utils.py:18, database.py:57), but a `Quantity` is always a finite rational.
- Amounts in the views and the summary are whole cents (`int`) rather than Python floats. The conversion `float(...)` of the stored decimal is not modelled.
- Expenses.ByCategory: the order among categories with equal totals is the one the model's stable sort produces. SQL leaves it unspecified, so the contract only requires non-increasing totals.
- Expenses.HighestLowest: takes its ends from `ByCategory`, so both views order tied categories the same way. The program runs a separate `ORDER BY total DESC` query (database.py:178-184), and under tied totals that query may order categories differently from the by-category query; the coupling is a modelling choice. The contract about the largest and smallest totals holds either way.
- The duplicate check and the insert are two statements with no transaction, so two concurrent writers can both insert the same triple. The model is single-threaded and does not include this race.
- `config.py` loads its settings from the environment and reads the clock (config.py:9-18, 26). The database settings are not modelled, and "today" is a parameter of `ValidateDate`.
- Utils.FormatDateDisplay: always writes a four-digit, zero-padded year. For years below 1000, `strftime("%Y")` depends on the platform's C library.
- An amount that `float()` cannot convert raises inside `insert_expense` and becomes an `Error:` reply. The model's amounts are always numbers.
- The Streamlit and Plotly presentation (components/visualizations.py, components/data_entry.py, app.py) and the connection smoke test (test_db.py) are user interface and I/O. This includes how data_entry.py:75-82 maps reply messages to widgets.
