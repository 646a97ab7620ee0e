# Expense tracker core, modelled in Dafny

The repository is a small PHP web application in which registered users
record expenses. Each expense has a date, a category, an amount in cents and a
description. Users list their expenses month by month, page by page, and edit
or delete them. They can bulk-import expenses from a CSV file, and they see a
monthly summary: the total, a per-category total and average with
percentages, and alerts for the categories whose spending is over the
configured budget.

This project models the data and reporting core of that application:

- the expense repository (`PdoExpenseRepository`) as a class `Store.ExpenseTable`
  holding a sequence of rows and the next id. It covers:
  - its criteria-to-condition translation (`Criteria`);
  - the conjunctive filter, paging, sums and grouping that its SQL statements
    ask for (`Query`);
  - its transactional CSV import, whose row-by-row decisions are specified in
    `CsvImport`;
- the expense entity (`Entity.Expense`, a class with four setters);
- the services:
  - `ExpenseService` (`Service`);
  - `MonthlySummaryService` (`Summary`);
  - `AlertGenerator` (`Alerts`);
  - `CategoryBudgetService` (`Budgets`);
- the two form validators (`Validators`);
- the page arithmetic and category-list parsing of the expense list
  controller (`Controller`).

Supporting modules model what PHP and SQLite contribute:

- `Text`: `trim`, `explode`, `preg_replace('/\W+/', '_', …)`, byte-wise string order and `LIKE`;
- `Numeric`: numeric strings, `(float)`, `round`, `(int)` and loose `==`;
- `Dates`: `Y-m-d H:i:s` formatting and parsing, and the month window.

A date column holds the `Y-m-d H:i:s` text of its instant. The model proves
that for four-digit years the text order of that column is the chronological
order (`Dates.FormatOrder`). That is why the criteria's text comparisons select
a month.

## Model

| member | source | states |
|---|---|---|
| Criteria.ParseKey | app/Infrastructure/Persistence/PdoExpenseRepository.php:124-129 | a key whose last word is an operator (`>=`, `<=`, `<>`, `>`, `<`, `LIKE`, any case) splits into column and that operator; any other key is the column itself with `=` |
| Criteria.ParseKeyGreedy | app/Infrastructure/Persistence/PdoExpenseRepository.php:124-129 | the converse: whenever a key splits as column, spaces and operator, the parse yields that operator (never `=`) and a column at least as long as that split's, so the column match is the greedy one |
| Criteria.OpOf | app/Infrastructure/Persistence/PdoExpenseRepository.php:124 | the recognised operator words, case-insensitively; never `=` |
| Criteria.OpOfText | app/Infrastructure/Persistence/PdoExpenseRepository.php:124 | every non-`=` operator is recognised from its own spelling |
| Criteria.ParseKeyOfCondition | app/Infrastructure/Persistence/PdoExpenseRepository.php:124-125 | `column + " " + op` parses back to (column, op) for any column without line feeds |
| Criteria.ParseKeyWithoutSpace | app/Infrastructure/Persistence/PdoExpenseRepository.php:126-129 | a key without white space gets the default operator `=` and is its own column |
| Criteria.ParseKeyExamples | app/Infrastructure/Persistence/PdoExpenseRepository.php:124-125 | `date >=` is (date, `>=`) and `date <` is (date, `<`) |
| Criteria.LowerBoundKeyParses | app/Infrastructure/Persistence/PdoExpenseRepository.php:124-125 | `date >=` is (date, `>=`) |
| Criteria.UpperBoundKeyParses | app/Infrastructure/Persistence/PdoExpenseRepository.php:124-125 | `date <` is (date, `<`) |
| Criteria.ParamName | app/Infrastructure/Persistence/PdoExpenseRepository.php:131 | the parameter name starts with `:` |
| Criteria.ParamNameIndex | app/Infrastructure/Persistence/PdoExpenseRepository.php:131 | when the key does not end in a digit, the trailing digits of the name are exactly the position |
| Criteria.ParamNamesDistinct | app/Infrastructure/Persistence/PdoExpenseRepository.php:131-150 | names for two different positions differ whenever neither key ends in a digit |
| Criteria.ParamNameCollision | app/Infrastructure/Persistence/PdoExpenseRepository.php:131 | without that condition names can collide: key `a1` at 0 and key `a` at 10 both give `:a10` |
| Criteria.Conditions | app/Infrastructure/Persistence/PdoExpenseRepository.php:122-135 | one condition per criteria entry, in entry order, the i-th built from the i-th key and position i |
| Criteria.ParamsLookup | app/Infrastructure/Persistence/PdoExpenseRepository.php:131-133 | the i-th name is bound to the i-th value unless a later entry reuses the name |
| Criteria.ParamsSize | app/Infrastructure/Persistence/PdoExpenseRepository.php:131-133 | with no key ending in a digit there is exactly one parameter per entry |
| Criteria.ParamsOfConditions | app/Infrastructure/Persistence/PdoExpenseRepository.php:131-133 | with no key ending in a digit, the i-th condition's parameter is bound to the i-th criteria value |
| Criteria.BuildConditions | app/Infrastructure/Persistence/PdoExpenseRepository.php:116-141 | the loop yields exactly the conditions and parameter map above |
| Query.ColumnOf | app/Infrastructure/Persistence/PdoExpenseRepository.php:132 | a condition's column names a table column case-insensitively; `date` reads the stored text, `user_id` the owner |
| Query.Holds | app/Infrastructure/Persistence/PdoExpenseRepository.php:132 | the comparison `col op :param` with the parameter bound as text: TEXT by code point; against an INTEGER column a numeric text (integer or real literal, white space around it allowed) compares as its number and any other text is larger; LIKE on the text forms |
| Query.BoundIntIsNumeric | app/Infrastructure/Persistence/PdoExpenseRepository.php:165 | a bound integer is a numeric text whose value is that integer, so it compares as that integer |
| Query.NumericAffinityExamples | app/Infrastructure/Persistence/PdoExpenseRepository.php:165 | the user column 5 is greater than the text `4.5` and equal to `5.0` |
| Query.TextOperandAbove | app/Infrastructure/Persistence/PdoExpenseRepository.php:165 | a non-numeric text such as `five` is greater than every integer and equal to none |
| Query.SatisfiesMeaning | app/Infrastructure/Persistence/PdoExpenseRepository.php:154-156 | a row is selected exactly when every condition holds with its own bound value |
| Query.Matching | app/Infrastructure/Persistence/PdoExpenseRepository.php:152-157 | the selected rows are exactly the table rows satisfying every condition |
| Query.MatchingAll | app/Infrastructure/Persistence/PdoExpenseRepository.php:154 | empty criteria select every row, in order |
| Query.Page | app/Infrastructure/Persistence/PdoExpenseRepository.php:159 | `LIMIT from, limit`: at most `limit` rows, exactly `limit` when that many remain after the offset, the slice starting at `from` (negative as 0), nothing past the end |
| Query.Categories | app/Infrastructure/Persistence/PdoExpenseRepository.php:229 | the groups of `GROUP BY category`: distinct, covering every row's category, each with a row |
| Query.SumByCategory | app/Infrastructure/Persistence/PdoExpenseRepository.php:218-237 | one group per category, its value the category's sum of cents |
| Query.AverageByCategory | app/Infrastructure/Persistence/PdoExpenseRepository.php:239-258 | one group per category, in the same order as the sums |
| Query.SumByCategoryTotal | app/Infrastructure/Persistence/PdoExpenseRepository.php:218-279 | the per-category sums add up to the sum over all rows |
| Query.YearsOf | app/Infrastructure/Persistence/PdoExpenseRepository.php:202-215 | strictly descending, and a year is listed exactly when the user has an expense dated in it with a four-digit year (0 to 9999) |
| Store.FindIn | app/Infrastructure/Persistence/PdoExpenseRepository.php:29-40 | the row with that id, or none exactly when no row has it |
| Store.Updated | app/Infrastructure/Persistence/PdoExpenseRepository.php:56-74 | the rows with that id take the new fields; every other row is unchanged |
| Store.WithoutId | app/Infrastructure/Persistence/PdoExpenseRepository.php:104-108 | exactly the rows whose id differs |
| Store.DeleteThenFind | app/Infrastructure/Persistence/PdoExpenseRepository.php:104-108 | after a delete, `find` of that id is null |
| Store.DeleteAbsent | app/Infrastructure/Persistence/PdoExpenseRepository.php:104-108 | deleting an id no row has changes nothing |
| Store.UpdateThenFind | app/Infrastructure/Persistence/PdoExpenseRepository.php:56-74 | after an update, `find` of that id yields the new fields |
| Store.UpdateKeepsOthers | app/Infrastructure/Persistence/PdoExpenseRepository.php:56-74 | an update leaves `find` of every other id unchanged |
| Store.WithoutIdDistinct | app/Infrastructure/Persistence/PdoExpenseRepository.php:104-108 | delete keeps the ids distinct |
| Store.Materialize | app/Infrastructure/Persistence/PdoExpenseRepository.php:360 | imported rows get consecutive fresh ids and the importing user |
| Store.ExpenseTable.constructor | app/Infrastructure/Persistence/PdoExpenseRepository.php:20-24 | an empty table with the given budget service |
| Store.ExpenseTable.Find | app/Infrastructure/Persistence/PdoExpenseRepository.php:29-40 | null for an absent id, otherwise a new entity holding the row's fields |
| Store.ExpenseTable.Insert | app/Infrastructure/Persistence/PdoExpenseRepository.php:42-54 | appends one row under the next id; nothing else changes |
| Store.ExpenseTable.Save | app/Infrastructure/Persistence/PdoExpenseRepository.php:76-102 | null id: appends the entity's fields under the next id; otherwise overwrites the five fields of the row with that id |
| Store.ExpenseTable.Delete | app/Infrastructure/Persistence/PdoExpenseRepository.php:104-108 | removes exactly the rows with that id; `find` is then null |
| Store.ExpenseTable.FindBy | app/Infrastructure/Persistence/PdoExpenseRepository.php:143-174 | at most `limit` rows, each a table row meeting every condition, the `from` slice of the matches |
| Store.ExpenseTable.CountBy | app/Infrastructure/Persistence/PdoExpenseRepository.php:177-200 | the number of rows the same criteria select |
| Store.ExpenseTable.SumAmounts | app/Infrastructure/Persistence/PdoExpenseRepository.php:260-279 | the sum of cents over the selected rows (0 when none) |
| Store.ExpenseTable.SumAmountsByCategory | app/Infrastructure/Persistence/PdoExpenseRepository.php:218-237 | per-category sums of the selected rows, adding up to `sumAmounts` |
| Store.ExpenseTable.AverageAmountsByCategory | app/Infrastructure/Persistence/PdoExpenseRepository.php:239-258 | per-category averages, one group per group of the sums |
| Store.ExpenseTable.ListExpenditureYears | app/Infrastructure/Persistence/PdoExpenseRepository.php:202-215 | each year with an expense of the user, once, in descending order |
| Store.ExpenseTable.ImportRecord | app/Infrastructure/Persistence/PdoExpenseRepository.php:338-364 | one pass of the import loop: the table grows by the inserted row exactly when the record's decision is an insert |
| Store.ExpenseTable.ImportCsv | app/Infrastructure/Persistence/PdoExpenseRepository.php:320-374 | on failure the table is as before (rolled back); on success the accepted rows are appended and their number returned |
| CsvImport.Decide | app/Infrastructure/Persistence/PdoExpenseRepository.php:296-362 | a record is skipped exactly when it is short, its key was inserted already, or its category has no budget; otherwise it aborts when its date does not parse or its insert throws, and is inserted otherwise, with the record's own category (a budgeted one) and the date it parses to |
| CsvImport.ScanRecords | app/Infrastructure/Persistence/PdoExpenseRepository.php:338-365 | the loop never inserts more rows than it reads |
| CsvImport.ImportOutcome | app/Infrastructure/Persistence/PdoExpenseRepository.php:328-373 | an unreadable file fails; any other failure is an aborted scan; a success inserts at most one row per record |
| CsvImport.ScanInvariant | app/Infrastructure/Persistence/PdoExpenseRepository.php:349-362 | the visited set has one key per inserted row |
| CsvImport.AbortIsFinal | app/Infrastructure/Persistence/PdoExpenseRepository.php:366-371 | once a record aborts, no later record undoes it |
| CsvImport.VisitedGrows | app/Infrastructure/Persistence/PdoExpenseRepository.php:361-362 | inserted rows and visited keys only grow, earlier inserts staying a prefix |
| CsvImport.ShortRecordSkipped | app/Infrastructure/Persistence/PdoExpenseRepository.php:341-344 | a record with fewer than 4 fields changes nothing |
| CsvImport.UnknownCategorySkipped | app/Infrastructure/Persistence/PdoExpenseRepository.php:308-311 | a record whose category has no budget changes nothing |
| CsvImport.RepeatedKeySkipped | app/Infrastructure/Persistence/PdoExpenseRepository.php:298-301 | a record whose key was inserted earlier changes nothing |
| CsvImport.EmptyDescriptionAccepted | app/Infrastructure/Persistence/PdoExpenseRepository.php:303-305 | an empty description is only logged: the record is inserted with it |
| CsvImport.DuplicateImportedOnce | app/Infrastructure/Persistence/PdoExpenseRepository.php:349-361 | a file holding the same valid record twice imports it once |
| CsvImport.FailingInsertRollsBack | app/Infrastructure/Persistence/PdoExpenseRepository.php:360-371 | one failing insert fails the whole import |
| CsvImport.KeyCollision | app/Infrastructure/Persistence/PdoExpenseRepository.php:349 | two different records can share a `-`-joined key, so the second is skipped |
| Entity.Expense.constructor | app/Domain/Entity/Expense.php:11-25 | stores all six fields as given |
| Entity.Expense.SetDate | app/Domain/Entity/Expense.php:27-29 | changes the date only |
| Entity.Expense.SetCategory | app/Domain/Entity/Expense.php:30-32 | changes the category only |
| Entity.Expense.SetAmountCents | app/Domain/Entity/Expense.php:33-35 | changes the amount only |
| Entity.Expense.SetDescription | app/Domain/Entity/Expense.php:37-39 | changes the description only |
| Budgets.BudgetService.GetCategoryBudget | app/Domain/Service/CategoryBudgetService.php:19-21 | the configured budget when the category is a key with a non-null value, null otherwise |
| Budgets.ZeroBudgetIsBudgeted | app/Domain/Service/CategoryBudgetService.php:20 | a budget of 0 still counts as a budget; a null one does not |
| Dates.DaysInMonth | app/Domain/Service/ExpenseService.php:41-43 | every month has 28 to 31 days |
| Dates.FormatOrder | app/Domain/Service/ExpenseService.php:48-51 | for four-digit years, text order of `Y-m-d H:i:s` is chronological order, and equal texts are equal instants |
| Dates.FormatLayout | app/Infrastructure/Persistence/PdoExpenseRepository.php:85 | the formatted text has the `Y-m-d H:i:s` layout |
| Dates.ParseFormat | app/Infrastructure/Persistence/PdoExpenseRepository.php:357 | parsing a formatted instant gives it back |
| Dates.FormatParse | app/Infrastructure/Persistence/PdoExpenseRepository.php:357-360 | a parsed text is the formatting of what it parsed to |
| Dates.MonthStart | app/Domain/Service/ExpenseService.php:36-39 | midnight of the first day of the month; months outside 1..12 roll over into the neighbouring years |
| Dates.FirstDayOfNextMonth | app/Domain/Service/ExpenseService.php:41-43 | the first day of the following month, at the same time of day |
| Dates.NextMonthOfStart | app/Domain/Service/MonthlySummaryService.php:26-28 | the window's end is the next month's start |
| Dates.FourDigitWindowMeaning | app/Domain/Service/MonthlySummaryService.php:26-28 | a month's window has four-digit years at both ends exactly for the months from January 0000 to November 9999 |
| Dates.MonthWindowExamples | app/Domain/Service/MonthlySummaryService.php:20-35 | February of a leap year has 29 days; December rolls to January of the next year |
| Dates.InMonthWindow | app/Domain/Service/MonthlySummaryService.php:32-33 | an instant is in `[start, next start)` exactly when it lies in that month |
| Dates.InClosedMonthWindow | app/Domain/Service/ExpenseService.php:50-51 | an instant is in `[start, next start]` exactly when it lies in that month or is the next month's first midnight |
| Numeric.ScanNumber | app/Validators/ExpenseValidator.php:36 | a parsed number is well formed and ends inside the text |
| Numeric.NumberPositive | app/Validators/ExpenseValidator.php:36 | a number is above zero exactly when it has no minus sign and a non-zero digit |
| Numeric.Truncate | app/Domain/Service/ExpenseService.php:99 | `(int)` of a float drops the fraction towards zero |
| Numeric.RoundHalfAwayFromZero | app/Infrastructure/Persistence/PdoExpenseRepository.php:358 | `round` gives the nearest integer, keeping the sign |
| Numeric.CentsOf | app/Infrastructure/Persistence/PdoExpenseRepository.php:358 | `(int) round(x * 100)` is x in cents to within half a cent |
| Numeric.CentsOfExample | app/Infrastructure/Persistence/PdoExpenseRepository.php:358 | 12.3 is 1230 cents |
| Numeric.LooseEqualsReflexive | app/Validators/ExpenseValidator.php:31 | every text is loosely equal to itself |
| Numeric.LooseEqualsNumeric | app/Validators/ExpenseValidator.php:31 | loose `in_array` accepts `1e1` for `10` |
| Text.Trim | app/Controllers/ExpenseController.php:89 | empty exactly when every character is a trim character; otherwise it starts and ends with a non-trim character |
| Text.TrimIdempotent | app/Controllers/ExpenseController.php:89 | trimming twice is trimming once |
| Text.Split | app/Controllers/ExpenseController.php:89 | `explode` gives at least one piece, none containing the separator |
| Text.JoinSplit | app/Controllers/ExpenseController.php:89 | joining the pieces of `explode` gives the text back |
| Text.SplitJoin | app/Controllers/ExpenseController.php:89 | `explode` of pieces joined by a separator they lack gives the pieces back |
| Text.Sanitize | app/Infrastructure/Persistence/PdoExpenseRepository.php:131 | only word characters remain; empty exactly when the key is; ends in a digit exactly when the key does; a key of word characters is unchanged |
| Text.LowerStringUnchanged | app/Infrastructure/Persistence/PdoExpenseRepository.php:124 | lower-case text is its own lower case |
| Text.NatToStringInjective | app/Infrastructure/Persistence/PdoExpenseRepository.php:131 | different positions print differently |
| Summary.MonthKeysParse | app/Domain/Service/MonthlySummaryService.php:30-34 | the three keys parse as `user_id =`, `date >=`, `date <` |
| Summary.MonthCriteriaKnown | app/Domain/Service/MonthlySummaryService.php:30-34 | the criteria name real columns and their parameter names are distinct |
| Summary.MonthCriteriaSelects | app/Domain/Service/MonthlySummaryService.php:20-35 | a row meets `computeParameters` exactly when it is the user's and dated within the month (half-open window) |
| Summary.MonthMatching | app/Domain/Service/MonthlySummaryService.php:20-35 | the rows the month's criteria select are the user's rows of that month, in order |
| Summary.Round2 | app/Domain/Service/MonthlySummaryService.php:52 | rounding to 2 places moves a value by at most 0.005 and keeps it within [0, 100] |
| Summary.PercentageBounds | app/Domain/Service/MonthlySummaryService.php:51-54 | 0 when the total is not positive, otherwise `value / total * 100` rounded; within [0, 100] for a share of the total |
| Summary.FormattedKeys | app/Domain/Service/MonthlySummaryService.php:47-59 | one entry per category of the input |
| Summary.FormatData | app/Domain/Service/MonthlySummaryService.php:45-62 | the loop builds exactly that map |
| Summary.SingleCategoryIsWhole | app/Domain/Service/MonthlySummaryService.php:51-53 | a single positive category is 100 % |
| Summary.ComputeTotalExpenditure | app/Domain/Service/MonthlySummaryService.php:37-42 | the sum of cents over the user's rows of the month |
| Summary.ComputePerCategoryTotals | app/Domain/Service/MonthlySummaryService.php:66-74 | the formatted per-category sums of the month's rows, against the grand total / 100 (their percentages sum to 100 within rounding: Summary.PercentagesSumTo100) |
| Summary.PercentagesSumTo100 | app/Domain/Service/MonthlySummaryService.php:66-74 | when the cent total is positive, the totals' keys are exactly the categories present and their rounded percentages sum to 100 within 0.005 per category |
| Summary.CategoryPercentageNear | app/Domain/Service/MonthlySummaryService.php:51-53 | each category's rounded percentage is within 0.005 of its exact share of the total |
| Summary.ExactSharesWhole | app/Domain/Service/MonthlySummaryService.php:66-74 | the exact shares of all categories add up to 100 |
| Summary.CategoryTotals | app/Domain/Service/MonthlySummaryService.php:66-74 | the per-category sums of some rows as the service formats them; its meaning is pinned by Summary.PercentagesSumTo100 and Summary.CategoryPercentageNear |
| Summary.CategoryAverages | app/Domain/Service/MonthlySummaryService.php:76-86 | the per-category averages as the service formats them, each share taken of the sum of the averages; used by Summary.ComputePerCategoryAverages |
| Summary.MonthCriteria | app/Domain/Service/MonthlySummaryService.php:20-35 | the criteria `computeParameters` builds; Summary.MonthCriteriaSelects states which rows they select |
| Summary.ComputePerCategoryAverages | app/Domain/Service/MonthlySummaryService.php:76-86 | the formatted per-category averages, against the sum of averages / 100 |
| Summary.GroupsDistinct | app/Domain/Service/MonthlySummaryService.php:56 | the grouped rows never share a category, so no entry overwrites another |
| Summary.CategoryTotalsKeys | app/Domain/Service/MonthlySummaryService.php:66-74 | a category has a total exactly when some row has it |
| Summary.CategoryTotalsEntry | app/Domain/Service/MonthlySummaryService.php:66-74 | its value is the category's cents / 100 and its percentage is relative to all cents / 100 |
| Summary.CategoryAveragesMeaning | app/Domain/Service/MonthlySummaryService.php:76-86 | a category has an average exactly when some row has it, and the average is its sum over its count, / 100 |
| Summary.CategoryPercentagesBounded | app/Domain/Service/MonthlySummaryService.php:51-53 | with non-negative amounts every total's percentage is within [0, 100] |
| Summary.CategorySumBounded | app/Domain/Service/MonthlySummaryService.php:71 | with non-negative amounts a category's sum is within [0, grand total] |
| Alerts.AlertsAmong | app/Domain/Service/AlertGenerator.php:29-35 | a category is alerted exactly when it is budgeted, has a total, the total exceeds the budget and is positive |
| Alerts.AlertsFor | app/Domain/Service/AlertGenerator.php:23-38 | the alerts for given budgets and month totals; Alerts.AlertsPositive and the lemmas below state what they hold |
| Alerts.AlertsPositive | app/Domain/Service/AlertGenerator.php:30-32 | an alert's category has a budget and a total, and its amount is total − budget > 0 |
| Alerts.NullBudgetIsZero | app/Domain/Service/AlertGenerator.php:31-32 | a null budget compares and subtracts like 0 |
| Alerts.NoBudgetsNoAlerts | app/Domain/Service/AlertGenerator.php:25-37 | no budgets, no alerts |
| Alerts.AlertsAmongStep | app/Domain/Service/AlertGenerator.php:29-35 | one more budget adds its alert when it has one, and nothing else |
| Alerts.CollectAlerts | app/Domain/Service/AlertGenerator.php:29-35 | the loop over the budgets builds exactly the alert map |
| Alerts.Generate | app/Domain/Service/AlertGenerator.php:23-38 | the alerts of the budgets against the month's per-category totals for that user |
| Alerts.AlertNeedsOverspend | app/Domain/Service/AlertGenerator.php:27-32 | an alert means the category is budgeted, the user spent in it, and the positive month total is over the budget |
| Alerts.OverspendRaisesAlert | app/Domain/Service/AlertGenerator.php:27-32 | conversely, such a category is alerted |
| Alerts.AlertAmount | app/Domain/Service/AlertGenerator.php:32 | the alert is the month total in major units minus the budget |
| Service.ClosedKeyParses | app/Domain/Service/ExpenseService.php:51 | `date <=` parses as (date, `<=`) |
| Service.ListCriteriaKnown | app/Domain/Service/ExpenseService.php:48-52 | the list criteria name real columns and get distinct parameter names |
| Service.ListCriteriaSelects | app/Domain/Service/ExpenseService.php:36-54 | a row is listed exactly when it is the user's and in the month, or the user's and dated exactly the next month's first midnight |
| Service.ListCriteria | app/Domain/Service/ExpenseService.php:36-54 | the criteria `list` and `countBy` build; Service.ListCriteriaSelects states which rows they select |
| Service.NextMonthStartListed | app/Domain/Service/ExpenseService.php:48-76 | a row at the next month's first midnight is listed and counted though it is not in the month (Finding 1) |
| Service.List | app/Domain/Service/ExpenseService.php:24-55 | at most `pageSize` rows: the `(pageNumber-1)*pageSize` slice of the rows the criteria select |
| Service.CountBy | app/Domain/Service/ExpenseService.php:57-77 | the number of rows the same criteria select |
| Service.ListWithinCount | app/Domain/Service/ExpenseService.php:46-76 | a non-empty page ends within the count: its offset plus its length is at most the count |
| Service.ListedRows | app/Domain/Service/ExpenseService.php:36-54 | every listed row is the user's and in the month or at the next month's start |
| Service.ListInMonth | app/Domain/Service/ExpenseService.php:24-55 | corrected `list`: the page of rows selected by the half-open month window |
| Service.CountInMonth | app/Domain/Service/ExpenseService.php:57-77 | corrected `countBy`: the number of rows the half-open window selects |
| Service.ListInMonthRows | app/Domain/Service/ExpenseService.php:36-54 | every row of the corrected page is the user's and in the month |
| Service.CountInMonthMeaning | app/Domain/Service/ExpenseService.php:63-76 | the corrected count is the number of the user's rows in the month |
| Service.StoredAmountDropsCents | app/Domain/Service/ExpenseService.php:99 | `(int)$amount` of an amount n/100 stores n div 100: the cents are lost (Finding 3) |
| Service.CentsOfTwoDecimals | app/Domain/Service/ExpenseService.php:99 | storing `round(amount * 100)` keeps an amount with two decimals exactly |
| Service.Create | app/Domain/Service/ExpenseService.php:79-101 | saves exactly one new row for the user with the given date, category and description and the truncated amount |
| Service.CreateInCents | app/Domain/Service/ExpenseService.php:79-101 | corrected `create`: the same row with the amount in cents |
| Service.Update | app/Domain/Service/ExpenseService.php:103-134 | sets date, category, description and the truncated amount, keeps id and owner, and saves once |
| Service.UpdateStoredRow | app/Domain/Service/ExpenseService.php:128-133 | after the update, `find` yields the new fields for that id and the old row for every other id |
| Service.Delete | app/Domain/Service/ExpenseService.php:142-158 | status and flash of the three outcomes; the row is removed only when it is the user's |
| Service.DeleteDecision | app/Domain/Service/ExpenseService.php:142-158 | the outcome `delete` reaches; Service.DeleteStatusMeaning states when each occurs |
| Service.DeleteStatusMeaning | app/Domain/Service/ExpenseService.php:142-158 | status 0 (success flash) exactly when the expense exists and belongs to the user; not found exactly when no row has the id |
| Service.DeleteKeepsOthers | app/Domain/Service/ExpenseService.php:150-155 | other users' rows always stay; a deleted id is no longer found; a refused delete changes nothing |
| Service.FindInUnique | app/Infrastructure/Persistence/PdoExpenseRepository.php:29-40 | with distinct ids, `find` yields the one row with that id |
| Service.EditComparesExpenseId | app/Domain/Service/ExpenseService.php:203-207 | as written, the owner of expense 5 is refused and user 5 is let through (Finding 2) |
| Service.EditAsWritten | app/Domain/Service/ExpenseService.php:203-207 | the ownership check of `edit` as written; Service.EditComparesExpenseId exhibits the wrong comparison |
| Service.EditAllowed | app/Domain/Service/ExpenseService.php:203-207 | the corrected ownership check; Service.EditAllowedAgreesWithDelete ties it to `delete` |
| Service.EditAllowedAgreesWithDelete | app/Domain/Service/ExpenseService.php:203-207 | the corrected ownership check allows exactly the users `delete` allows |
| Service.ImportFromCsv | app/Domain/Service/ExpenseService.php:169-193 | returns the repository's count unchanged, with a success flash exactly when it is positive |
| Validators.ExpenseErrors | app/Validators/ExpenseValidator.php:13-47 | every failure of the four expense checks keyed by field; Validators.ValidateExpense is proved to throw exactly this map |
| Validators.ValidateExpense | app/Validators/ExpenseValidator.php:13-47 | throws exactly the map of the four checks' failures, and returns when there are none |
| Validators.ExpenseErrorsKeys | app/Validators/ExpenseValidator.php:14-42 | the map has only the four field keys, each present exactly when that field's own check fails, with at most one message per field |
| Validators.ExpenseAccepted | app/Validators/ExpenseValidator.php:16-46 | a form passes exactly when the date is sent, readable and not after now; the category is sent and allowed; the amount is numeric and above 0; and the description is not blank |
| Validators.AmountSign | app/Validators/ExpenseValidator.php:36 | a numeric amount passes exactly when it has no minus sign and a non-zero digit |
| Validators.RegisterErrors | app/Validators/RegisterValidator.php:13-34 | every failure of the three registration checks keyed by field; Validators.ValidateRegistration is proved to throw exactly this map |
| Validators.ValidateRegistration | app/Validators/RegisterValidator.php:13-34 | throws exactly the map of the three checks' failures, and returns when there are none |
| Validators.RegisterErrorsKeys | app/Validators/RegisterValidator.php:15-29 | the map has only the three field keys, each present exactly when that field's own check fails |
| Validators.RegistrationAccepted | app/Validators/RegisterValidator.php:17-33 | a registration passes exactly when the username has at least 4 characters, the password at least 8 with a digit, and the confirmation is identical |
| Controller.LastPageCeiling | app/Controllers/ExpenseController.php:63 | for a positive page size the last page is the ceiling of count / size |
| Controller.Paginate | app/Controllers/ExpenseController.php:42-76 | a page size of 0 is a division by zero; otherwise the page size is the request's or 20, a negative page becomes 1, page 0 stays, the shown page is the listed page capped at the last page, `from` is `(page-1)*size+1` and `to` is `min(page*size, count)`, so at most the count |
| Controller.PaginateRange | app/Controllers/ExpenseController.php:75-76 | with rows and a page of at least 1, `1 <= from <= to` |
| Controller.PastLastPageListsNothing | app/Controllers/ExpenseController.php:54-64 | asking for a page past the last lists no rows although the page shown is the last (Finding 4) |
| Controller.PastLastPageExample | app/Controllers/ExpenseController.php:54-76 | 25 rows, page 5 of 20: page 2 of 2, "21–25" shown, no rows listed |
| Controller.PaginateClamped | app/Controllers/ExpenseController.php:42-64 | corrected `index`: the page asked for is the page shown, at least 1 |
| Controller.ClampedPageIsRange | app/Controllers/ExpenseController.php:54-76 | the corrected page lists exactly rows `from` to `to` |
| Controller.NonEmptyMembers | app/Controllers/ExpenseController.php:88-91 | the filter keeps exactly the non-empty pieces |
| Controller.NonEmptyKeeps | app/Controllers/ExpenseController.php:88-91 | with no empty piece, the filter keeps all of them in order |
| Controller.CategoriesMembers | app/Controllers/ExpenseController.php:86-92 | a category is listed exactly when it is a non-empty trimmed piece of the setting |
| Controller.CategoriesTrimmed | app/Controllers/ExpenseController.php:86-92 | every listed category is non-empty and already trimmed |
| Controller.CategoriesRoundTrip | app/Controllers/ExpenseController.php:86-92 | categories written out comma-separated are read back as they were, in order |
| Controller.GetCategories | app/Controllers/ExpenseController.php:86-92 | the configured categories, split on commas and trimmed, never an empty entry |
| Controller.NoCategories | app/Controllers/ExpenseController.php:87 | a missing or empty setting gives no categories |

## Left out

- HTTP, Twig rendering, sessions, redirects and the mapping of exceptions to HTTP errors are not modelled. The flash message is a returned `Flash` value instead of a session write.
- The SQL engine, PDO and the logger are not modelled. Queries are evaluated over the row sequence and log calls are dropped. Conditions follow SQLite's comparison rules for the two columns used: `date` compares TEXT by code point, and `user_id` gives a bound text NUMERIC affinity (a well-formed integer or real literal compares as its exact value; any other text is greater than every integer).
- An unknown column in a condition, where SQLite would raise an error, is not modelled as an error: the repository members `Store.ExpenseTable.FindBy`, `CountBy`, `SumAmounts`, `SumAmountsByCategory` and `AverageAmountsByCategory` require every criteria column to be known, so that case is excluded by precondition. Only the helper `Query.Satisfies` gives an unknown column a meaning (false).
- Columns other than `user_id` and `date` are not reachable from criteria in the model.
- `$_ENV`, JSON decoding and the clock are parameters of the model:
  - the budget map is given as a map;
  - the category setting is an optional text;
  - "now" is an instant argument;
  - `createFromFormat('Y-m-d', …)` in the expense validator is the function argument `readDay`.
- The CSV stream is a sequence of records, with `None` for a stream that cannot be read.
- An insert that throws is given as a set of row numbers, so that rollback can be stated.
- Date parsing during the import accepts only the canonical `Y-m-d H:i:s` text; PHP's lenient overflow handling is not modelled.
- Floating point is modelled as exact `real` arithmetic:
  - `Summary.Round2` is specified only by its error bound;
  - amounts and the `/ 100` are exact.
- `Entity.Expense.SetAmountCents`: the source field is a float; the model keeps integer cents, as every caller stores an integer.
- The `!$user` guards and the null-user checks are not modelled. Their parameters are typed non-null objects in the source, so the guards cannot fire.
- `update` with a null expense is not modelled, since the typed parameter rejects it before the guard.
- A user id is modelled as an integer; users are not stored.
- Id allocation is abstracted to a counter (`Store.ExpenseTable.Insert`, `Save` and `ImportCsv`) that hands out a fresh id and never reuses one. The `insert` statement leaves `:id` unbound, so SQLite assigns the rowid: one more than the largest present, unless the table is declared AUTOINCREMENT. That can reuse the id of a deleted last row. The schema is not part of this model.
- `ExpenseService.find` and `listExpenditureYears` forward to the repository unchanged. They are modelled by `Store.ExpenseTable.Find` and `Store.ExpenseTable.ListExpenditureYears`.
- The controller's `(int)` cast of query text is modelled as already done: page and page size arrive as optional integers.
- `getCategories` returns an `array_filter` result that keeps the original keys; the model returns the values as a sequence, in order.
- app/Infrastructure/Persistence/PdoUserRepository.php, the authentication service and controller, the dashboard controller, and the migration scripts are not part of this model.
- The month-selection lemmas (`Summary.MonthCriteriaSelects`, `Summary.MonthMatching`, `Service.ListCriteriaSelects` and the corrected list and count) require `Dates.FourDigitWindow`, i.e. a month from January 0000 to November 9999, and rows with four-digit years: only there is text order of the stored dates time order.
- `Query.YearsOf` reads the year from the instant, where the source uses `strftime('%Y', date)` on the stored text. The two agree only for four-digit years (0 to 9999), which is why its contract is restricted to them. For a year such as 10000, PHP stores `10000-01-01 00:00:00`, `strftime` yields NULL and `listExpenditureYears` returns a null entry; the model lists nothing for such a row.
- Row order is fixed where SQL leaves it open:
  - `findBy` has no `ORDER BY`, so SQL does not say which rows fill a page; `Query.Matching` and `Query.Page` keep table (insertion) order;
  - `GROUP BY category` decides the order of the groups, and so the key order of the PHP array `formatData` returns and the dashboard shows. `Query.Categories` uses first-occurrence order, and `Summary.FormatData` returns an unordered `map<string, Stat>`, so that key order is not captured.
- Integers are unbounded in the model: PHP's `(int)$amount` of a float outside the 64-bit range (app/Domain/Service/ExpenseService.php:99) and SQLite's integer-overflow error in `SUM(amount_cents)` are not modelled.

## Findings

| source | as written | input that shows it | evidently intended | confidence | as-written member | corrected member |
|---|---|---|---|---|---|---|
| app/Domain/Service/ExpenseService.php:48-76 | `list` and `countBy` bound the month with `date <=` the next month's first midnight | an expense of the user dated 2025-02-01 00:00:00 is listed and counted for January 2025 | a half-open window `date <` like `computeParameters` uses | not executed | Service.NextMonthStartListed | Service.ListInMonthRows |
| app/Domain/Service/ExpenseService.php:203-207 | `edit` compares the user id with the expense id | user 1 owns expense 5: user 1 is refused, user 5 is allowed | compare the user id with the expense's owner, as `delete` does | not executed | Service.EditComparesExpenseId | Service.EditAllowedAgreesWithDelete |
| app/Domain/Service/ExpenseService.php:99 | `create` stores `(int)$amount` in the cents column | amount 12.30 is stored as 12 cents | store the amount in cents, `round($amount * 100)`: the column is `amount_cents`, the import stores `(int) round($amount * 100)` (app/Infrastructure/Persistence/PdoExpenseRepository.php:357) and the summary divides by 100. Against this, the comment at app/Domain/Service/ExpenseService.php:114-120 chooses to keep only the integer part "for simplicity". tests/Feature/Expense/CreateTest.php:42 and tests/Feature/Expense/ReadTest.php:51 expect 12.30 to be stored, which matches neither the code (12) nor this reading (1230) | not executed | Service.StoredAmountDropsCents | Service.CentsOfTwoDecimals |
| app/Controllers/ExpenseController.php:54-64 | the page is clamped to the last page only after the rows were fetched | 25 expenses, page 5 with page size 20: no rows listed while "page 2 of 2, 21–25" is shown | clamp the page before listing | not executed | Controller.PastLastPageListsNothing | Controller.ClampedPageIsRange |
