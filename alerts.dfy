/**
 * Budget alerts: for each category with a configured budget, the amount by
 * which the month's spending in that category exceeds the budget.
 */
module Alerts {
  import opened Wrappers
  import opened Entity
  import opened Budgets
  import opened Query
  import opened Store
  import opened Summary

  /** `$spent > $budget` in PHP: a null budget makes both sides compare as
      booleans, so it holds exactly when the spending is non-zero. */
  predicate Exceeds(spent: real, budget: Option<real>)
  {
    match budget
    case Some(b) => spent > b
    case None => spent != 0.0
  }

  /** `$spent - $budget` in PHP: null counts as 0 in arithmetic. */
  function Overspend(spent: real, budget: Option<real>): real
  {
    match budget
    case Some(b) => spent - b
    case None => spent
  }

  /** The alerts among the budgeted categories `keys`: a category whose month
      total exceeds its budget and is positive, mapped to the excess. */
  function AlertsAmong(budgets: map<string, Option<real>>, totals: map<string, Stat>, keys: set<string>): (alerts: map<string, real>)
    requires keys <= budgets.Keys
    ensures forall c :: c in alerts <==>
      c in keys && c in totals && Exceeds(totals[c].value, budgets[c]) && totals[c].value > 0.0
  {
    map c | c in keys && c in totals && Exceeds(totals[c].value, budgets[c]) && totals[c].value > 0.0
      :: Overspend(totals[c].value, budgets[c])
  }

  /** What `generate` returns for the given budgets and month totals. */
  function AlertsFor(budgets: map<string, Option<real>>, totals: map<string, Stat>): map<string, real>
  {
    AlertsAmong(budgets, totals, budgets.Keys)
  }

  /** Every alert is for a budgeted category present in the totals, and its
      amount is strictly positive. */
  lemma AlertsPositive(budgets: map<string, Option<real>>, totals: map<string, Stat>, c: string)
    requires c in AlertsFor(budgets, totals)
    ensures c in budgets && c in totals
    ensures AlertsFor(budgets, totals)[c] == Overspend(totals[c].value, budgets[c]) > 0.0
  {
  }

  /** A null budget behaves exactly like a budget of 0. */
  lemma NullBudgetIsZero(spent: real)
    ensures (Exceeds(spent, None) && spent > 0.0) <==> (Exceeds(spent, Some(0.0)) && spent > 0.0)
    ensures Overspend(spent, None) == Overspend(spent, Some(0.0))
  {
  }

  /** No budgets, no alerts. */
  lemma NoBudgetsNoAlerts(totals: map<string, Stat>)
    ensures AlertsFor(map[], totals) == map[]
  {
    var a := AlertsFor(map[], totals);
    assert forall c :: c !in a;
  }

  /** Looking at one more budgeted category adds its alert, if it has one. */
  lemma AlertsAmongStep(budgets: map<string, Option<real>>, totals: map<string, Stat>, done: set<string>, c: string)
    requires done <= budgets.Keys && c in budgets && c !in done
    ensures AlertsAmong(budgets, totals, done + {c}) ==
      if c in totals && Exceeds(totals[c].value, budgets[c]) && totals[c].value > 0.0
      then AlertsAmong(budgets, totals, done)[c := Overspend(totals[c].value, budgets[c])]
      else AlertsAmong(budgets, totals, done)
  {
  }

  /**
   * `generate`: the month's per-category totals, then one pass over the
   * configured budgets comparing each with the category's total.
   */
  method Generate(budgetService: BudgetService, table: ExpenseTable, userId: int, year: int, month: int)
    returns (alerts: map<string, real>)
    ensures alerts == AlertsFor(budgetService.budgets,
                                CategoryTotals(Matching(table.rows, MonthCriteria(userId, year, month))))
  {
    var budgets := budgetService.GetBudgets();
    var totalForMonth := ComputePerCategoryTotals(table, userId, year, month);
    alerts := CollectAlerts(budgets, totalForMonth);
  }

  /** The pass of `generate` over the budgets. The order of the pass does not
      matter, since each category is looked at once. */
  method CollectAlerts(budgets: map<string, Option<real>>, totalForMonth: map<string, Stat>)
    returns (alerts: map<string, real>)
    ensures alerts == AlertsFor(budgets, totalForMonth)
  {
    alerts := map[];
    var remaining := budgets.Keys;
    assert budgets.Keys - remaining == {};
    while remaining != {}
      invariant remaining <= budgets.Keys
      invariant alerts == AlertsAmong(budgets, totalForMonth, budgets.Keys - remaining)
      decreases |remaining|
    {
      var category :| category in remaining;
      var value := budgets[category];
      AlertsAmongStep(budgets, totalForMonth, budgets.Keys - remaining, category);
      assert budgets.Keys - (remaining - {category}) == (budgets.Keys - remaining) + {category};
      if category in totalForMonth {
        var spent := totalForMonth[category].value;
        if Exceeds(spent, value) && spent > 0.0 {
          alerts := alerts[category := Overspend(spent, value)];
        }
      }
      remaining := remaining - {category};
    }
    assert budgets.Keys - remaining == budgets.Keys;
  }

  // End to end, over the rows a month's criteria select: a category raises an
  // alert exactly when it has a budget, the user spent in it, and the total in
  // major units is positive and above the budget; the alert is the excess.

  /** An alert for a category means the category has a budget, the user
      spent in it, and the positive total in major units is above the budget. */
  lemma AlertNeedsOverspend(budgets: map<string, Option<real>>, rows: seq<Row>, c: string)
    ensures c in AlertsFor(budgets, CategoryTotals(rows)) ==>
      && c in budgets
      && CategoryCount(rows, c) > 0
      && Exceeds(CategorySum(rows, c) as real / 100.0, budgets[c])
      && CategorySum(rows, c) > 0
  {
    CategoryTotalsKeys(rows, c);
    if c in AlertsFor(budgets, CategoryTotals(rows)) {
      CategoryTotalsEntry(rows, c);
    }
  }

  /** Conversely, such a category does raise an alert. */
  lemma OverspendRaisesAlert(budgets: map<string, Option<real>>, rows: seq<Row>, c: string)
    ensures (&& c in budgets
             && CategoryCount(rows, c) > 0
             && Exceeds(CategorySum(rows, c) as real / 100.0, budgets[c])
             && CategorySum(rows, c) > 0)
            ==> c in AlertsFor(budgets, CategoryTotals(rows))
  {
    CategoryTotalsKeys(rows, c);
    if CategoryCount(rows, c) > 0 {
      CategoryTotalsEntry(rows, c);
    }
  }

  /** The alert is the month's total in major units minus the budget. */
  lemma AlertAmount(budgets: map<string, Option<real>>, rows: seq<Row>, c: string)
    requires c in AlertsFor(budgets, CategoryTotals(rows))
    ensures AlertsFor(budgets, CategoryTotals(rows))[c] == Overspend(CategorySum(rows, c) as real / 100.0, budgets[c])
  {
    CategoryTotalsKeys(rows, c);
    CategoryTotalsEntry(rows, c);
  }
}
