/**
 * The expense store: one table of (category, amount, date) records, the
 * check-then-insert entry operation, and the four read-only aggregate views
 * the dashboard shows. The table is a sequence of rows in insertion order;
 * a storage failure is the `Unavailable` state, under which reads degrade to
 * their defaults and inserts report an error without touching the table.
 *
 * `insert_expense` runs the duplicate check and the insert as two separate
 * statements, so two concurrent writers can both pass the check; this model
 * is single-threaded and does not represent that race.
 */
module Expenses {
  import opened Calendar
  import opened Grouping
  import Utils
  import Config

  /** One row of the `expenses` table; the amount is held in whole cents. */
  datatype Expense = Expense(category: string, cents: int, date: Date)

  /** Whether the database can be reached; `reason` is the error text. */
  datatype Storage = Available | Unavailable(reason: string)

  datatype Store = Store(rows: seq<Expense>, storage: Storage)

  /** What `insert_expense` did. */
  datatype InsertOutcome = Inserted | AlreadyRecorded | StorageError(reason: string)

  /** One side of the highest/lowest summary: a category and its total. */
  datatype Standing = Standing(category: string, cents: int)

  datatype Summary = Summary(highest: Standing, lowest: Standing)

  /** What the summary reports when there is nothing to summarise. */
  const NoData := Standing("N/A", 0)

  // ---- The table as the SQL queries see it ------------------------------

  /** `SELECT SUM(amount) FROM expenses`. */
  function RowsTotal(rows: seq<Expense>): int {
    if rows == [] then 0 else rows[0].cents + RowsTotal(rows[1..])
  }

  /** `SELECT SUM(amount) FROM expenses WHERE category = c`. */
  function CategoryTotal(rows: seq<Expense>, c: string): int {
    if rows == [] then 0
    else (if rows[0].category == c then rows[0].cents else 0) + CategoryTotal(rows[1..], c)
  }

  /** `SELECT SUM(amount) FROM expenses WHERE date = d`. */
  function DateTotal(rows: seq<Expense>, d: Date): int {
    if rows == [] then 0
    else (if rows[0].date == d then rows[0].cents else 0) + DateTotal(rows[1..], d)
  }

  /** `SELECT DISTINCT category FROM expenses`. */
  function CategoriesOf(rows: seq<Expense>): set<string> {
    set e | e in rows :: e.category
  }

  /** `SELECT DISTINCT date FROM expenses`. */
  function DatesOf(rows: seq<Expense>): set<Date> {
    set e | e in rows :: e.date
  }

  /** The table's uniqueness rule: no two rows share the same triple. */
  predicate NoDuplicates(rows: seq<Expense>) {
    forall i, j :: 0 <= i < j < |rows| ==> rows[i] != rows[j]
  }

  /** Every row's category is one the entry form offers. */
  predicate KnownCategories(rows: seq<Expense>) {
    forall e :: e in rows ==> e.category in Config.Categories
  }

  /** The (category, amount) column pairs of the table. */
  function CategoryPairs(rows: seq<Expense>): (ps: seq<(string, int)>)
    ensures KeySet(ps) == CategoriesOf(rows)
    ensures SumOf(ps) == RowsTotal(rows)
    ensures forall c :: KeySum(ps, c) == CategoryTotal(rows, c)
  {
    if rows == [] then []
    else
      assert CategoriesOf(rows) == {rows[0].category} + CategoriesOf(rows[1..]) by {
        assert rows == [rows[0]] + rows[1..];
      }
      [(rows[0].category, rows[0].cents)] + CategoryPairs(rows[1..])
  }

  /** The (date, amount) column pairs of the table. */
  function DatePairs(rows: seq<Expense>): (ps: seq<(Date, int)>)
    ensures KeySet(ps) == DatesOf(rows)
    ensures SumOf(ps) == RowsTotal(rows)
    ensures forall d :: KeySum(ps, d) == DateTotal(rows, d)
  {
    if rows == [] then []
    else
      assert DatesOf(rows) == {rows[0].date} + DatesOf(rows[1..]) by {
        assert rows == [rows[0]] + rows[1..];
      }
      [(rows[0].date, rows[0].cents)] + DatePairs(rows[1..])
  }

  // ---- insert_expense -----------------------------------------------------

  /**
   * `insert_expense`: rounds the amount to cents, then looks for a row with
   * the same (category, amount, date); if one exists nothing is written,
   * otherwise exactly one row is appended. When storage is unavailable the
   * table is left as it is and the error is reported.
   */
  function Insert(s: Store, category: string, amount: Utils.Quantity, date: Date): (r: (Store, InsertOutcome))
    ensures var e := Expense(category, Utils.FormatAmount(amount), date);
      && (s.storage.Unavailable? ==> r == (s, StorageError(s.storage.reason)))
      && (s.storage.Available? && e in s.rows ==> r == (s, AlreadyRecorded))
      && (s.storage.Available? && e !in s.rows ==> r == (Store(s.rows + [e], s.storage), Inserted))
    ensures r.1 != Inserted ==> r.0 == s
    ensures r.0.storage == s.storage
    ensures r.1 == Inserted ==> |r.0.rows| == |s.rows| + 1 && r.0.rows[..|s.rows|] == s.rows
    ensures NoDuplicates(s.rows) ==> NoDuplicates(r.0.rows)
  {
    var e := Expense(category, Utils.FormatAmount(amount), date);
    match s.storage
    case Unavailable(reason) => (s, StorageError(reason))
    case Available =>
      // SELECT COUNT(*) FROM expenses WHERE category = .. AND amount = .. AND date = ..
      if multiset(s.rows)[e] > 0 then (s, AlreadyRecorded)
      else (Store(s.rows + [e], s.storage), Inserted)
  }

  /** The `(success, message)` pair `insert_expense` returns for an outcome. */
  function Reply(o: InsertOutcome): (r: (bool, string))
    ensures r.0 <==> o == Inserted
    ensures o == Inserted ==> r == (true, "Values recorded successfully")
    ensures o == AlreadyRecorded <==> r == (false, "Already recorded")
    ensures o.StorageError? ==> !r.0 && r.1 == "Error: " + o.reason
  {
    match o
    case Inserted => (true, "Values recorded successfully")
    case AlreadyRecorded => (false, "Already recorded")
    case StorageError(reason) =>
      assert ("Error: " + reason)[0] != "Already recorded"[0];
      (false, "Error: " + reason)
  }

  // ---- Aggregate views ----------------------------------------------------

  /** `get_total_expense`: the sum of all amounts, 0 when storage fails. */
  function Total(s: Store): (t: int)
    ensures s.storage.Unavailable? || s.rows == [] ==> t == 0
  {
    match s.storage
    case Unavailable(_) => 0
    case Available => RowsTotal(s.rows)
  }

  /** Sort key that puts larger totals first. */
  function DescendingTotal(p: (string, int)): int {
    -p.1
  }

  /** Sort key that puts earlier dates first. */
  function AscendingDate(p: (Date, int)): int {
    Rank(p.0)
  }

  /**
   * `get_expenses_by_category`: one entry per category present, holding that
   * category's total, largest total first; empty when storage fails.
   */
  function ByCategory(s: Store): (r: seq<(string, int)>)
    ensures s.storage.Unavailable? || s.rows == [] ==> r == []
    ensures s.storage.Available? ==> KeySet(r) == CategoriesOf(s.rows)
    ensures forall i, j :: 0 <= i < j < |r| ==> r[i].0 != r[j].0
    ensures forall i :: 0 <= i < |r| ==> r[i].1 == CategoryTotal(s.rows, r[i].0)
    ensures forall i, j :: 0 <= i < j < |r| ==> r[i].1 >= r[j].1
    ensures SumOf(r) == Total(s)
  {
    match s.storage
    case Unavailable(_) => []
    case Available =>
      var r := GroupOrderedBy(CategoryPairs(s.rows), DescendingTotal);
      LargestFirst(r);
      r
  }

  /** Listed by non-decreasing `DescendingTotal`, the totals do not increase. */
  lemma LargestFirst(r: seq<(string, int)>)
    requires Ordered(r, DescendingTotal)
    ensures forall i, j :: 0 <= i < j < |r| ==> r[i].1 >= r[j].1
  {
    forall i, j | 0 <= i < j < |r| ensures r[i].1 >= r[j].1 {
      assert DescendingTotal(r[i]) <= DescendingTotal(r[j]);
    }
  }

  /**
   * `get_expense_trend`: one entry per date present, holding that date's
   * total, dates strictly increasing; empty when storage fails.
   */
  function Trend(s: Store): (r: seq<(Date, int)>)
    ensures s.storage.Unavailable? || s.rows == [] ==> r == []
    ensures s.storage.Available? ==> KeySet(r) == DatesOf(s.rows)
    ensures forall i :: 0 <= i < |r| ==> r[i].1 == DateTotal(s.rows, r[i].0)
    ensures forall i, j :: 0 <= i < j < |r| ==> Before(r[i].0, r[j].0)
    ensures SumOf(r) == Total(s)
  {
    match s.storage
    case Unavailable(_) => []
    case Available =>
      var r := GroupOrderedBy(DatePairs(s.rows), AscendingDate);
      ChronologicalByRank(r);
      r
  }

  /** Distinct dates listed by non-decreasing rank are strictly increasing. */
  lemma ChronologicalByRank(r: seq<(Date, int)>)
    requires Ordered(r, AscendingDate)
    requires forall i, j :: 0 <= i < j < |r| ==> r[i].0 != r[j].0
    ensures forall i, j :: 0 <= i < j < |r| ==> Before(r[i].0, r[j].0)
  {
    forall i, j | 0 <= i < j < |r| ensures Before(r[i].0, r[j].0) {
      assert AscendingDate(r[i]) <= AscendingDate(r[j]);
      RankOrder(r[i].0, r[j].0);
    }
  }

  /**
   * `get_highest_lowest_category`: the first and the last entry of the
   * by-category view, or `NoData` for both when that view is empty.
   */
  function HighestLowest(s: Store): (r: Summary)
    ensures s.storage.Unavailable? || s.rows == [] ==> r == Summary(NoData, NoData)
    ensures s.storage.Available? && s.rows != [] ==>
      && r.highest.category in CategoriesOf(s.rows)
      && r.lowest.category in CategoriesOf(s.rows)
      && r.highest.cents == CategoryTotal(s.rows, r.highest.category)
      && r.lowest.cents == CategoryTotal(s.rows, r.lowest.category)
      && (forall c :: c in CategoriesOf(s.rows) ==>
            r.lowest.cents <= CategoryTotal(s.rows, c) <= r.highest.cents)
      && r.highest.cents >= r.lowest.cents
      && (|CategoriesOf(s.rows)| == 1 ==> r.highest == r.lowest)
    ensures var g := ByCategory(s);
      |g| > 0 ==> r == Summary(Standing(g[0].0, g[0].1), Standing(g[|g| - 1].0, g[|g| - 1].1))
  {
    var g := ByCategory(s);
    if |g| > 0 then
      ByCategoryExtremes(s);
      Summary(Standing(g[0].0, g[0].1), Standing(g[|g| - 1].0, g[|g| - 1].1))
    else
      Summary(NoData, NoData)
  }

  /**
   * The first entry of a non-empty by-category view holds the largest
   * category total and the last entry the smallest.
   */
  lemma ByCategoryExtremes(s: Store)
    requires s.storage.Available? && s.rows != []
    ensures var g := ByCategory(s);
      && |g| > 0
      && g[0].0 in CategoriesOf(s.rows)
      && g[|g| - 1].0 in CategoriesOf(s.rows)
      && (forall c :: c in CategoriesOf(s.rows) ==>
            g[|g| - 1].1 <= CategoryTotal(s.rows, c) <= g[0].1)
      && (|CategoriesOf(s.rows)| == 1 ==> g[0] == g[|g| - 1])
  {
    var g := ByCategory(s);
    assert s.rows[0].category in CategoriesOf(s.rows);
    KeySetIndex(g, g[0].0);
    KeySetIndex(g, g[|g| - 1].0);
    TotalsBetweenEnds(g, s.rows);
    if |CategoriesOf(s.rows)| == 1 {
      SingleCategory(s);
    }
  }

  /** In a view ordered by descending total, every category's total lies between the two ends. */
  lemma TotalsBetweenEnds(g: seq<(string, int)>, rows: seq<Expense>)
    requires |g| > 0
    requires KeySet(g) == CategoriesOf(rows)
    requires forall i :: 0 <= i < |g| ==> g[i].1 == CategoryTotal(rows, g[i].0)
    requires forall i, j :: 0 <= i < j < |g| ==> g[i].1 >= g[j].1
    ensures forall c :: c in CategoriesOf(rows) ==> g[|g| - 1].1 <= CategoryTotal(rows, c) <= g[0].1
  {
    forall c | c in CategoriesOf(rows)
      ensures g[|g| - 1].1 <= CategoryTotal(rows, c) <= g[0].1
    {
      KeySetIndex(g, c);
      var i :| 0 <= i < |g| && g[i].0 == c;
      if 0 < i {
        assert g[0].1 >= g[i].1;
      }
      if i < |g| - 1 {
        assert g[i].1 >= g[|g| - 1].1;
      }
    }
  }

  lemma SingleCategory(s: Store)
    requires s.storage.Available?
    requires |CategoriesOf(s.rows)| == 1
    ensures |ByCategory(s)| == 1
  {
    var g := ByCategory(s);
    DistinctKeysIndex(g);
    DistinctKeysCount(g);
  }

  // ---- Properties across operations ---------------------------------------

  lemma {:induction false} TotalsAppend(rows: seq<Expense>, e: Expense)
    ensures RowsTotal(rows + [e]) == RowsTotal(rows) + e.cents
    ensures forall c :: CategoryTotal(rows + [e], c) ==
                          CategoryTotal(rows, c) + (if c == e.category then e.cents else 0)
    ensures forall d :: DateTotal(rows + [e], d) ==
                          DateTotal(rows, d) + (if d == e.date then e.cents else 0)
  {
    if rows != [] {
      assert (rows + [e])[1..] == rows[1..] + [e];
      TotalsAppend(rows[1..], e);
    }
  }

  /**
   * With storage available the total is a sum over the rows: one row's total
   * is its amount, and the total of two tables put together is the sum of
   * their totals.
   */
  lemma {:induction false} TotalAdditive(a: seq<Expense>, b: seq<Expense>)
    ensures Total(Store(a + b, Available)) == Total(Store(a, Available)) + Total(Store(b, Available))
    ensures forall e :: Total(Store([e], Available)) == e.cents
  {
    if a == [] {
      assert a + b == b;
    } else {
      assert (a + b)[1..] == a[1..] + b;
      TotalAdditive(a[1..], b);
      assert RowsTotal(a + b) == a[0].cents + RowsTotal(a[1..] + b);
    }
    forall e ensures Total(Store([e], Available)) == e.cents {
      assert [e][1..] == [];
      assert RowsTotal([e]) == e.cents + RowsTotal([]);
    }
  }

  /**
   * A recorded expense raises the total, its category's total and its
   * date's total by its rounded amount; any other outcome changes none.
   */
  lemma InsertTotals(s: Store, category: string, amount: Utils.Quantity, date: Date)
    ensures var (s', o) := Insert(s, category, amount, date);
      var added := if o == Inserted then Utils.FormatAmount(amount) else 0;
      && Total(s') == Total(s) + added
      && (forall c :: CategoryTotal(s'.rows, c) ==
                        CategoryTotal(s.rows, c) + (if c == category then added else 0))
      && (forall d :: DateTotal(s'.rows, d) ==
                        DateTotal(s.rows, d) + (if d == date then added else 0))
  {
    TotalsAppend(s.rows, Expense(category, Utils.FormatAmount(amount), date));
  }

  /**
   * Submitting the same entry twice records it once: the second call is a
   * duplicate, and afterwards exactly one row holds the triple if none did before.
   */
  lemma InsertTwice(s: Store, category: string, amount: Utils.Quantity, date: Date)
    requires s.storage.Available?
    ensures var e := Expense(category, Utils.FormatAmount(amount), date);
      var (s1, o1) := Insert(s, category, amount, date);
      var (s2, o2) := Insert(s1, category, amount, date);
      && o2 == AlreadyRecorded && s2 == s1
      && (e !in s.rows ==> o1 == Inserted && multiset(s2.rows)[e] == 1)
  {
    var e := Expense(category, Utils.FormatAmount(amount), date);
    var s1 := Insert(s, category, amount, date).0;
    assert e in s1.rows;
    if e !in s.rows {
      assert multiset(s.rows)[e] == 0;
      assert multiset(s1.rows) == multiset(s.rows) + multiset{e};
    }
  }

  /**
   * The amount is rounded before the duplicate check: after an entry is
   * recorded (or found), any amount rounding to the same cents for the same
   * category and date is a duplicate.
   */
  lemma RoundedAmountsCollide(s: Store, category: string, a: Utils.Quantity, b: Utils.Quantity, date: Date)
    requires s.storage.Available?
    ensures var s1 := Insert(s, category, a, date).0;
      Utils.FormatAmount(a) == Utils.FormatAmount(b) ==>
        Insert(s1, category, b, date) == (s1, AlreadyRecorded)
  {
    var s1 := Insert(s, category, a, date).0;
    assert Expense(category, Utils.FormatAmount(a), date) in s1.rows;
  }

  /** Entering only offered categories keeps every stored category an offered one. */
  lemma InsertKeepsKnownCategories(s: Store, category: string, amount: Utils.Quantity, date: Date)
    requires KnownCategories(s.rows)
    requires category in Config.Categories
    ensures KnownCategories(Insert(s, category, amount, date).0.rows)
  {
  }
}
