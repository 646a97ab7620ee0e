/**
 * The monthly summary: the criteria that select one user's expenses of one
 * month, the month's total, and the per-category totals and averages turned
 * into (value, percentage) pairs for display. Amounts are stored in cents and
 * shown in major units, so values are divided by 100.
 */
module Summary {
  import opened Text
  import opened Numeric
  import opened Dates
  import opened Entity
  import opened Criteria
  import opened Query
  import opened Store

  // ---------------------------------------------------------------- criteria

  /** `computeParameters`: the user, and the half-open window from the first
      instant of the month to the first instant of the next one. The month is
      normalised as `setDate` does, so month 13 is January of the next year. */
  function MonthCriteria(userId: int, year: int, month: int): Criteria
  {
    var start := MonthStart(year, month);
    var end := FirstDayOfNextMonth(start);
    [("user_id", VInt(userId)), ("date >=", VText(Format(start))), ("date <", VText(Format(end)))]
  }

  /** The three keys parse to their column and operator. */
  lemma MonthKeysParse()
    ensures ParseKey("user_id") == ("user_id", Eq)
    ensures ParseKey("date >=") == ("date", Ge) && ParseKey("date <") == ("date", Lt)
  {
    var uid := "user_id";
    assert forall i :: 0 <= i < |uid| ==> !IsSpace(uid[i]);
    ParseKeyWithoutSpace(uid);
    ParseKeyExamples();
  }

  /** The user and date columns exist. */
  lemma ColumnsKnown()
    ensures LowerString("user_id") == "user_id" && LowerString("date") == "date"
    ensures KnownColumn("user_id") && KnownColumn("date")
  {
    LowerStringUnchanged("user_id");
    LowerStringUnchanged("date");
  }

  /** What the three keys of a month's criteria mean, stated of the keys
      themselves so that callers see no key text being parsed. */
  lemma WindowKeys(k0: string, k1: string, k2: string)
    requires k0 == "user_id" && k1 == "date >=" && k2 == "date <"
    ensures ParseKey(k0) == ("user_id", Eq) && ParseKey(k1) == ("date", Ge) && ParseKey(k2) == ("date", Lt)
    ensures KnownColumn(ParseKey(k0).0) && KnownColumn(ParseKey(k1).0) && KnownColumn(ParseKey(k2).0)
    ensures LowerString(ParseKey(k0).0) == "user_id" && LowerString(ParseKey(k1).0) == "date"
    ensures LowerString(ParseKey(k2).0) == "date"
    ensures !EndsWithDigit(k0) && !EndsWithDigit(k1) && !EndsWithDigit(k2)
  {
    MonthKeysParse();
    ColumnsKnown();
  }

  /** Criteria keyed by the user and a lower and upper date bound name known
      columns, and none of their keys ends in a digit. */
  lemma WindowKeysKnown(c: Criteria)
    requires |c| == 3 && c[0].0 == "user_id" && c[1].0 == "date >=" && c[2].0 == "date <"
    ensures KnownColumns(c) && NoDigitEndings(c)
  {
    WindowKeys(c[0].0, c[1].0, c[2].0);
    forall i | 0 <= i < |c| ensures KnownColumn(ParseKey(c[i].0).0) && !EndsWithDigit(c[i].0) {
      if i == 0 {
      } else if i == 1 {
      } else {
        assert i == 2;
      }
    }
  }

  /** The month's keys name columns and none ends in a digit. */
  lemma MonthCriteriaKnown(userId: int, year: int, month: int)
    ensures KnownColumns(MonthCriteria(userId, year, month))
    ensures NoDigitEndings(MonthCriteria(userId, year, month))
  {
    WindowKeysKnown(MonthCriteria(userId, year, month));
  }

  /** A row is in the month of (`year`, `month`), as normalised. */
  predicate InMonth(r: Row, userId: int, year: int, month: int)
  {
    var start := MonthStart(year, month);
    r.userId == userId && r.date.year == start.year && r.date.month == start.month
  }

  /** The user entry of a criteria list holds for a row exactly when the row is that user's. */
  lemma UserEntry(r: Row, key: string, userId: int)
    requires LowerString(ParseKey(key).0) == "user_id" && ParseKey(key).1 == Eq
    ensures Holds(ColumnOf(r, ParseKey(key).0).value, ParseKey(key).1, Bound(VInt(userId))) <==> r.userId == userId
  {
    BoundIntIsNumeric(userId);
  }

  /** A date entry compares the row's date text with the bound in text order. */
  lemma DateEntry(r: Row, key: string, bound: string)
    requires LowerString(ParseKey(key).0) == "date" && ParseKey(key).1 != Like
    ensures Holds(ColumnOf(r, ParseKey(key).0).value, ParseKey(key).1, Bound(VText(bound)))
            <==> ByOrder(LexLess(Format(r.date), bound), Format(r.date) == bound, ParseKey(key).1)
  {
  }

  /** Entry by entry, a user-and-window criteria list holds for a row exactly
      when the row is the user's and its date text lies in [lo, hi). */
  lemma WindowEntries(r: Row, c: Criteria, userId: int, lo: string, hi: string)
    requires c == [("user_id", VInt(userId)), ("date >=", VText(lo)), ("date <", VText(hi))]
    ensures KnownColumns(c) && NoDigitEndings(c)
    ensures (forall i :: 0 <= i < |c| ==>
              Holds(ColumnOf(r, ParseKey(c[i].0).0).value, ParseKey(c[i].0).1, Bound(c[i].1)))
            <==> r.userId == userId && !LexLess(Format(r.date), lo) && LexLess(Format(r.date), hi)
  {
    WindowKeysKnown(c);
    WindowKeys(c[0].0, c[1].0, c[2].0);
    ParsedWindowEntries(r, c, userId, lo, hi, Lt);
  }

  /** A user-and-window criteria list whose keys are already known to parse as
      `user_id =`, `date >=` and `date` with `upper`: entry by entry it holds
      exactly when the row is the user's and its date text lies from `lo` up to
      `hi` as `upper` compares. */
  lemma ParsedWindowEntries(r: Row, c: Criteria, userId: int, lo: string, hi: string, upper: Op)
    requires |c| == 3 && KnownColumns(c) && upper != Like
    requires c[0].1 == VInt(userId) && c[1].1 == VText(lo) && c[2].1 == VText(hi)
    requires LowerString(ParseKey(c[0].0).0) == "user_id" && ParseKey(c[0].0).1 == Eq
    requires LowerString(ParseKey(c[1].0).0) == "date" && ParseKey(c[1].0).1 == Ge
    requires LowerString(ParseKey(c[2].0).0) == "date" && ParseKey(c[2].0).1 == upper
    ensures (forall i :: 0 <= i < |c| ==>
              Holds(ColumnOf(r, ParseKey(c[i].0).0).value, ParseKey(c[i].0).1, Bound(c[i].1)))
            <==> r.userId == userId && !LexLess(Format(r.date), lo) &&
                 ByOrder(LexLess(Format(r.date), hi), Format(r.date) == hi, upper)
  {
    UserEntry(r, c[0].0, userId);
    DateEntry(r, c[1].0, lo);
    DateEntry(r, c[2].0, hi);
    ThreeEntries(r, c, r.userId == userId, !LexLess(Format(r.date), lo),
                 ByOrder(LexLess(Format(r.date), hi), Format(r.date) == hi, upper));
  }

  /** A three-entry criteria list holds entry by entry exactly when its three entries hold. */
  lemma ThreeEntries(r: Row, c: Criteria, a0: bool, a1: bool, a2: bool)
    requires |c| == 3 && KnownColumns(c)
    requires Holds(ColumnOf(r, ParseKey(c[0].0).0).value, ParseKey(c[0].0).1, Bound(c[0].1)) == a0
    requires Holds(ColumnOf(r, ParseKey(c[1].0).0).value, ParseKey(c[1].0).1, Bound(c[1].1)) == a1
    requires Holds(ColumnOf(r, ParseKey(c[2].0).0).value, ParseKey(c[2].0).1, Bound(c[2].1)) == a2
    ensures (forall i :: 0 <= i < |c| ==>
              Holds(ColumnOf(r, ParseKey(c[i].0).0).value, ParseKey(c[i].0).1, Bound(c[i].1)))
            <==> a0 && a1 && a2
  {
    if a0 && a1 && a2 {
      forall i | 0 <= i < |c|
        ensures Holds(ColumnOf(r, ParseKey(c[i].0).0).value, ParseKey(c[i].0).1, Bound(c[i].1))
      {
        if i == 0 {
        } else if i == 1 {
        } else {
          assert i == 2;
        }
      }
    }
  }

  /** The month's criteria select exactly the user's rows dated in that month
      (for dates whose text has a four-digit year, where text order is time order). */
  lemma MonthCriteriaSelects(r: Row, userId: int, year: int, month: int)
    requires FourDigitYear(r.date)
    requires FourDigitWindow(year, month)
    ensures Satisfies(r, MonthCriteria(userId, year, month)) <==> InMonth(r, userId, year, month)
  {
    var start := MonthStart(year, month);
    var end := FirstDayOfNextMonth(start);
    var c := MonthCriteria(userId, year, month);
    WindowEntries(r, c, userId, Format(start), Format(end));
    SatisfiesMeaning(r, c);
    FormatOrder(r.date, start);
    FormatOrder(r.date, end);
    InMonthWindow(r.date, year, month);
  }

  /** Two filters that agree on every row keep the same rows. */
  lemma {:induction false} FilterCongruent(rows: seq<Row>, keep1: Row -> bool, keep2: Row -> bool)
    requires forall i :: 0 <= i < |rows| ==> keep1(rows[i]) == keep2(rows[i])
    ensures Filter(rows, keep1) == Filter(rows, keep2)
  {
    if rows != [] {
      FilterCongruent(rows[..|rows| - 1], keep1, keep2);
    }
  }

  /** Where every date has a four-digit year, the month's criteria keep exactly
      the user's rows of that month, in table order. */
  lemma MonthMatching(rows: seq<Row>, userId: int, year: int, month: int)
    requires forall i :: 0 <= i < |rows| ==> FourDigitYear(rows[i].date)
    requires FourDigitWindow(year, month)
    ensures Matching(rows, MonthCriteria(userId, year, month)) == Filter(rows, r => InMonth(r, userId, year, month))
  {
    forall i | 0 <= i < |rows|
      ensures Satisfies(rows[i], MonthCriteria(userId, year, month)) == InMonth(rows[i], userId, year, month)
    {
      MonthCriteriaSelects(rows[i], userId, year, month);
    }
    FilterCongruent(rows, r => Satisfies(r, MonthCriteria(userId, year, month)), r => InMonth(r, userId, year, month));
  }

  // ---------------------------------------------------------------- formatting

  /** One entry of the formatted summary: the amount in major units and its share of the total. */
  datatype Stat = Stat(value: real, percentage: real)

  /** PHP's `round($x, 2)`: to the nearest hundredth, halves away from zero. */
  function Round2(x: real): (r: real)
    ensures x - 0.005 <= r <= x + 0.005
    ensures 0.0 <= x <= 100.0 ==> 0.0 <= r <= 100.0
  {
    var n := RoundHalfAwayFromZero(x * 100.0);
    assert 0.0 <= x <= 100.0 ==> 0 <= n <= 10000;
    n as real / 100.0
  }

  /** The share of `value` in `total`, in percent with two decimals; 0 when the total is not positive. */
  function Percentage(value: real, total: real): real
  {
    if total > 0.0 then Round2(value / total * 100.0) else 0.0
  }

  /** The percentage is within half a hundredth of the exact share, 0 for a
      total that is not positive, and between 0 and 100 for a part of the total. */
  lemma PercentageBounds(value: real, total: real)
    ensures total <= 0.0 ==> Percentage(value, total) == 0.0
    ensures total > 0.0 ==>
      value / total * 100.0 - 0.005 <= Percentage(value, total) <= value / total * 100.0 + 0.005
    ensures total > 0.0 && 0.0 <= value <= total ==> 0.0 <= Percentage(value, total) <= 100.0
  {
    if total > 0.0 && 0.0 <= value <= total {
      assert 0.0 <= value / total <= 1.0;
    }
  }

  /** The categories of the groups are pairwise different, as GROUP BY makes them. */
  predicate DistinctCategories(data: seq<Group>)
  {
    forall i, j :: 0 <= i < j < |data| ==> data[i].category != data[j].category
  }

  /** What `formatData` builds: for each group, keyed by its category, the
      value in major units and its percentage of `total`. */
  function Formatted(data: seq<Group>, total: real): map<string, Stat>
  {
    if data == [] then map[]
    else
      var n := |data| - 1;
      var value := data[n].value / 100.0;
      Formatted(data[..n], total)[data[n].category := Stat(value, Percentage(value, total))]
  }

  /** The formatted summary has an entry for a category exactly when a group has it. */
  lemma {:induction false} FormattedKeys(data: seq<Group>, total: real, c: string)
    ensures c in Formatted(data, total) <==> exists i :: 0 <= i < |data| && data[i].category == c
  {
    if data != [] {
      var n := |data| - 1;
      FormattedKeys(data[..n], total, c);
      if c in Formatted(data[..n], total) {
        var i :| 0 <= i < n && data[..n][i].category == c;
        assert data[i].category == c;
      }
      if exists i :: 0 <= i < |data| && data[i].category == c {
        var i :| 0 <= i < |data| && data[i].category == c;
        if i < n {
          assert data[..n][i].category == c;
        }
      }
    }
  }

  /** With distinct categories, each category's entry is its own group's value
      in major units and that value's percentage of the total. */
  lemma {:induction false} FormattedLookup(data: seq<Group>, total: real, i: nat)
    requires DistinctCategories(data) && i < |data|
    ensures data[i].category in Formatted(data, total)
    ensures Formatted(data, total)[data[i].category]
            == Stat(data[i].value / 100.0, Percentage(data[i].value / 100.0, total))
  {
    var n := |data| - 1;
    var value := data[n].value / 100.0;
    var prev := Formatted(data[..n], total);
    assert Formatted(data, total) == prev[data[n].category := Stat(value, Percentage(value, total))];
    if i < n {
      assert data[..n][i] == data[i];
      assert DistinctCategories(data[..n]);
      FormattedLookup(data[..n], total, i);
      assert data[i].category != data[n].category;
      assert Formatted(data, total)[data[i].category] == prev[data[i].category];
    } else {
      assert i == n;
    }
  }

  /** `FormattedLookup` with the value and the total given by other names
      (a separate step keeps the solver from unfolding `Percentage`). */
  lemma FormattedEntry(data: seq<Group>, total: real, i: nat, v: real, t: real)
    requires DistinctCategories(data) && i < |data|
    requires data[i].value / 100.0 == v && total == t
    ensures data[i].category in Formatted(data, total)
    ensures Formatted(data, total)[data[i].category] == Stat(v, Percentage(v, t))
  {
    FormattedLookup(data, total, i);
  }

  /**
   * `formatData`: one pass over the rows the repository returned. `total` is
   * the grand total in major units; the percentage is 0 unless it is positive.
   * (The column the value is read from, SUM or AVG, is already chosen in `data`.)
   */
  method FormatData(data: seq<Group>, total: real) returns (out: map<string, Stat>)
    ensures out == Formatted(data, total)
  {
    out := map[];
    var i := 0;
    while i < |data|
      invariant 0 <= i <= |data|
      invariant out == Formatted(data[..i], total)
    {
      var row := data[i];
      var formattedValue := row.value / 100.0;
      var percent := if total > 0.0 then Round2(formattedValue / total * 100.0) else 0.0;
      out := out[row.category := Stat(formattedValue, percent)];
      assert data[..i + 1][..i] == data[..i];
      i := i + 1;
    }
    assert data[..|data|] == data;
  }

  /** A single category with a positive amount takes the whole: 100 percent. */
  lemma SingleCategoryIsWhole(g: Group)
    requires g.value > 0.0
    ensures Formatted([g], GroupTotal([g]) / 100.0)[g.category] == Stat(g.value / 100.0, 100.0)
  {
    assert [g][..0] == [];
    var v := g.value / 100.0;
    assert GroupTotal([g]) == g.value;
    assert v / v == 1.0;
    assert RoundHalfAwayFromZero(10000.0) == 10000;
  }

  // ---------------------------------------------------------------- the service

  /** The per-category totals of some rows as the service shows them: each
      category's SUM in major units and its share of the rows' grand total. */
  function CategoryTotals(rows: seq<Row>): map<string, Stat>
  {
    var data := SumByCategory(rows);
    Formatted(data, GroupTotal(data) / 100.0)
  }

  /** The per-category averages as the service shows them: each category's AVG
      in major units, its share taken of the sum of the averages. */
  function CategoryAverages(rows: seq<Row>): map<string, Stat>
  {
    var data := AverageByCategory(rows);
    Formatted(data, GroupTotal(data) / 100.0)
  }

  /** `computeTotalExpenditure`: the month's total as the repository sums it, in cents. */
  function ComputeTotalExpenditure(table: ExpenseTable, userId: int, year: int, month: int): (total: real)
    reads table
    ensures total == SumCents(Matching(table.rows, MonthCriteria(userId, year, month))) as real
  {
    MonthCriteriaKnown(userId, year, month);
    table.SumAmounts(MonthCriteria(userId, year, month))
  }

  /** `computePerCategoryTotals`: per-category SUM rows, formatted against their grand total. */
  method ComputePerCategoryTotals(table: ExpenseTable, userId: int, year: int, month: int) returns (out: map<string, Stat>)
    ensures out == CategoryTotals(Matching(table.rows, MonthCriteria(userId, year, month)))
  {
    var criteria := MonthCriteria(userId, year, month);
    MonthCriteriaKnown(userId, year, month);
    var data := table.SumAmountsByCategory(criteria);
    var grandTotal := GroupTotal(data) / 100.0;
    out := FormatData(data, grandTotal);
  }

  /** `computePerCategoryAverages`: per-category AVG rows, formatted against the sum of the averages. */
  method ComputePerCategoryAverages(table: ExpenseTable, userId: int, year: int, month: int) returns (out: map<string, Stat>)
    ensures out == CategoryAverages(Matching(table.rows, MonthCriteria(userId, year, month)))
  {
    var criteria := MonthCriteria(userId, year, month);
    MonthCriteriaKnown(userId, year, month);
    var data := table.AverageAmountsByCategory(criteria);
    var grandTotal := GroupTotal(data) / 100.0;
    out := FormatData(data, grandTotal);
  }

  /** The groups of a GROUP BY have pairwise different categories. */
  lemma GroupsDistinct(rows: seq<Row>)
    ensures DistinctCategories(SumByCategory(rows))
    ensures DistinctCategories(AverageByCategory(rows))
  {
  }

  /** A category has a per-category total exactly when one of the rows has it. */
  lemma CategoryTotalsKeys(rows: seq<Row>, c: string)
    ensures c in CategoryTotals(rows) <==> CategoryCount(rows, c) > 0
  {
    var data := SumByCategory(rows);
    var cats := Categories(rows);
    FormattedKeys(data, GroupTotal(data) / 100.0, c);
    if CategoryCount(rows, c) > 0 {
      var k :| 0 <= k < |rows| && rows[k].category == c;
      assert c in cats;
      var i :| 0 <= i < |cats| && cats[i] == c;
      assert data[i].category == c;
    }
  }

  /** The entry of a category in the per-category totals: its value is that
      category's total in major units, and its percentage is taken of the
      rows' whole total. */
  lemma CategoryTotalsEntry(rows: seq<Row>, c: string)
    requires c in CategoryTotals(rows)
    ensures CategoryTotals(rows)[c].value == CategorySum(rows, c) as real / 100.0
    ensures CategoryTotals(rows)[c].percentage == Percentage(CategoryTotals(rows)[c].value, SumCents(rows) as real / 100.0)
  {
    var data := SumByCategory(rows);
    var total := GroupTotal(data) / 100.0;
    FormattedKeys(data, total, c);
    var i :| 0 <= i < |data| && data[i].category == c;
    assert data[i].value == CategorySum(rows, c) as real;
    GroupsDistinct(rows);
    SumByCategoryTotal(rows);
    assert total == SumCents(rows) as real / 100.0;
    FormattedEntry(data, total, i, CategorySum(rows, c) as real / 100.0, SumCents(rows) as real / 100.0);
    assert CategoryTotals(rows) == Formatted(data, total);
  }

  /** The per-category averages: a category has an entry exactly when one of
      the rows has it, and its value is the category's mean amount in major units. */
  lemma CategoryAveragesMeaning(rows: seq<Row>, c: string)
    ensures c in CategoryAverages(rows) <==> CategoryCount(rows, c) > 0
    ensures c in CategoryAverages(rows) ==>
      CategoryAverages(rows)[c].value == CategorySum(rows, c) as real / CategoryCount(rows, c) as real / 100.0
  {
    var data := AverageByCategory(rows);
    var cats := Categories(rows);
    GroupsDistinct(rows);
    FormattedKeys(data, GroupTotal(data) / 100.0, c);
    if c in cats {
      var i :| 0 <= i < |cats| && cats[i] == c;
      FormattedLookup(data, GroupTotal(data) / 100.0, i);
    }
    if CategoryCount(rows, c) > 0 {
      var k :| 0 <= k < |rows| && rows[k].category == c;
      assert c in cats;
    }
  }

  /** With no negative amounts, every category's percentage lies between 0 and 100. */
  lemma CategoryPercentagesBounded(rows: seq<Row>, c: string)
    requires forall i :: 0 <= i < |rows| ==> rows[i].amountCents >= 0
    requires c in CategoryTotals(rows)
    ensures 0.0 <= CategoryTotals(rows)[c].percentage <= 100.0
  {
    CategoryTotalsEntry(rows, c);
    CategorySumBounded(rows, c);
    PercentageBounds(CategorySum(rows, c) as real / 100.0, SumCents(rows) as real / 100.0);
  }

  /** With no negative amounts, a category's total lies between 0 and the whole total. */
  lemma {:induction false} CategorySumBounded(rows: seq<Row>, c: string)
    requires forall i :: 0 <= i < |rows| ==> rows[i].amountCents >= 0
    ensures 0 <= CategorySum(rows, c) <= SumCents(rows)
  {
    if rows != [] {
      CategorySumBounded(rows[..|rows| - 1], c);
    }
  }

  /** The sum of the percentages of the entries `keys` names in a summary. */
  function PercentageSum(m: map<string, Stat>, keys: seq<string>): real
    requires forall c :: c in keys ==> c in m
  {
    if keys == [] then 0.0 else PercentageSum(m, keys[..|keys| - 1]) + m[keys[|keys| - 1]].percentage
  }

  /** `a` cents of a total of `s` cents, in percent: the share `formatData`
      rounds, whichever unit both are written in. */
  lemma ShareOfMajor(a: real, s: real)
    requires s > 0.0
    ensures (a / 100.0) / (s / 100.0) * 100.0 == a * 100.0 / s
  {
  }

  /** A category's exact share of the grand total, in percent. */
  function ExactShare(rows: seq<Row>, c: string): real
    requires SumCents(rows) > 0
  {
    CategorySum(rows, c) as real * 100.0 / SumCents(rows) as real
  }

  /** The sum of the exact shares of `keys`. */
  function ExactShareSum(rows: seq<Row>, keys: seq<string>): real
    requires SumCents(rows) > 0
  {
    if keys == [] then 0.0 else ExactShareSum(rows, keys[..|keys| - 1]) + ExactShare(rows, keys[|keys| - 1])
  }

  /** A category's percentage lies within half a hundredth of its exact share
      of the grand total. */
  lemma CategoryPercentageNear(rows: seq<Row>, c: string)
    requires SumCents(rows) > 0 && c in CategoryTotals(rows)
    ensures ExactShare(rows, c) - 0.005 <= CategoryTotals(rows)[c].percentage <= ExactShare(rows, c) + 0.005
  {
    var a := CategorySum(rows, c) as real;
    var s := SumCents(rows) as real;
    CategoryTotalsEntry(rows, c);
    PercentageBounds(a / 100.0, s / 100.0);
    ShareOfMajor(a, s);
  }

  /** Percentages each within half a hundredth of their exact share add up to
      within half a hundredth per entry of the sum of the exact shares. */
  lemma {:induction false} RoundedSumNear(rows: seq<Row>, m: map<string, Stat>, keys: seq<string>)
    requires SumCents(rows) > 0
    requires forall c :: c in keys ==> c in m
    requires forall c :: c in keys ==> ExactShare(rows, c) - 0.005 <= m[c].percentage <= ExactShare(rows, c) + 0.005
    ensures ExactShareSum(rows, keys) - 0.005 * |keys| as real <= PercentageSum(m, keys)
    ensures PercentageSum(m, keys) <= ExactShareSum(rows, keys) + 0.005 * |keys| as real
  {
    if keys != [] {
      var n := |keys| - 1;
      assert forall c :: c in keys[..n] ==> c in keys;
      RoundedSumNear(rows, m, keys[..n]);
      assert keys[n] in keys;
    }
  }

  /** The exact shares of some categories add up to their summed cents' share. */
  lemma {:induction false} ShareSumOver(rows: seq<Row>, keys: seq<string>)
    requires SumCents(rows) > 0
    ensures ExactShareSum(rows, keys) == SumOver(rows, keys) as real * 100.0 / SumCents(rows) as real
  {
    if keys != [] {
      var n := |keys| - 1;
      ShareSumOver(rows, keys[..n]);
      var s := SumCents(rows) as real;
      var b, a := SumOver(rows, keys[..n]) as real, CategorySum(rows, keys[n]) as real;
      ShareAdd(b, a, s);
    }
  }

  /** Shares of one total add up. */
  lemma ShareAdd(a: real, b: real, s: real)
    requires s > 0.0
    ensures (a + b) * 100.0 / s == a * 100.0 / s + b * 100.0 / s
  {
  }

  /** The exact shares of all the categories make up the whole: 100 percent. */
  lemma ExactSharesWhole(rows: seq<Row>)
    requires SumCents(rows) > 0
    ensures ExactShareSum(rows, Categories(rows)) == 100.0
  {
    var cats := Categories(rows);
    ShareSumOver(rows, cats);
    GroupedSum(rows, cats);
    WholeShare(SumCents(rows) as real);
  }

  /** A whole is 100 percent of itself. */
  lemma WholeShare(s: real)
    requires s > 0.0
    ensures s * 100.0 / s == 100.0
  {
  }

  /** With a positive grand total, the percentages of the per-category totals
      add up to 100, up to the half hundredth each category's rounding may move it. */
  lemma PercentagesSumTo100(rows: seq<Row>)
    requires SumCents(rows) > 0
    ensures forall c :: c in CategoryTotals(rows) <==> c in Categories(rows)
    ensures var n := |Categories(rows)| as real;
      100.0 - 0.005 * n <= PercentageSum(CategoryTotals(rows), Categories(rows)) <= 100.0 + 0.005 * n
  {
    var cats := Categories(rows);
    var m := CategoryTotals(rows);
    forall c
      ensures c in m <==> c in cats
    {
      CategoryTotalsKeys(rows, c);
      if CategoryCount(rows, c) > 0 {
        var k :| 0 <= k < |rows| && rows[k].category == c;
      }
    }
    forall c | c in cats
      ensures ExactShare(rows, c) - 0.005 <= m[c].percentage <= ExactShare(rows, c) + 0.005
    {
      CategoryPercentageNear(rows, c);
    }
    RoundedSumNear(rows, m, cats);
    ExactSharesWhole(rows);
  }
}
