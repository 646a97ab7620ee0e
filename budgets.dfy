/**
 * The category budgets, decoded once from the configured JSON object and only
 * read afterwards. A key whose JSON value is `null` is kept with value `None`.
 */
module Budgets {
  import opened Wrappers

  datatype BudgetService = BudgetService(budgets: map<string, Option<real>>)
  {
    /** `getBudgets`: the whole map, as configured. */
    function GetBudgets(): map<string, Option<real>>
    {
      budgets
    }

    /** `getCategoryBudget`: the configured budget, or null when the category is
        not a key or its value is null (`??` treats both alike). */
    function GetCategoryBudget(category: string): (r: Option<real>)
      ensures r.Some? <==> category in budgets && budgets[category].Some?
      ensures r.Some? ==> r == budgets[category]
    {
      if category in budgets then budgets[category] else None
    }

    /** A category is accepted where a budget is required when its budget is not null. */
    predicate IsBudgeted(category: string)
    {
      GetCategoryBudget(category).Some?
    }
  }

  /** A budget of zero is a budget: such a category is accepted, and a null one is not. */
  lemma ZeroBudgetIsBudgeted(svc: BudgetService, category: string)
    requires category in svc.budgets
    ensures svc.budgets[category] == Some(0.0) ==> svc.IsBudgeted(category) && svc.GetCategoryBudget(category) == Some(0.0)
    ensures svc.budgets[category] == None ==> !svc.IsBudgeted(category)
  {
  }
}
