/**
 * The expense service: one user's expenses of a month a page at a time,
 * their count, creating and updating an expense, deleting one with a status
 * and a flash message, the edit authorisation and the CSV import with its
 * flash message. The repository is the table passed in; the session's flash
 * slot is returned as a value.
 */
module Service {
  import opened Wrappers
  import opened Text
  import opened Numeric
  import opened Dates
  import opened Entity
  import opened Criteria
  import opened Query
  import opened CsvImport
  import opened Store
  import opened Summary

  /** The flash message left in the session for the next page. */
  datatype Flash = Flash(kind: string, message: string)

  // ---------------------------------------------------------------- list and count

  /** The criteria of `list` and `countBy`: the user, and the month from its
      first instant up to AND INCLUDING the first instant of the next month. */
  function ListCriteria(userId: int, year: int, month: int): Criteria
  {
    var start := MonthStart(year, month);
    var end := FirstDayOfNextMonth(start);
    [("user_id", VInt(userId)), ("date >=", VText(Format(start))), ("date <=", VText(Format(end)))]
  }

  /** The inclusive upper-bound key reads as `date <=`. */
  lemma ClosedKeyParses()
    ensures ParseKey("date <=") == ("date", Le)
  {
    var date := "date";
    assert forall i :: 0 <= i < |date| ==> date[i] != '\n';
    OpOfText(Le);
    OpTextWithoutSpace(Le);
    ParseKeyOfCondition(date, OpText(Le));
    assert date + " " + OpText(Le) == "date <=";
  }

  /** What the three keys of the list criteria mean, stated of the keys themselves. */
  lemma ClosedWindowKeys(k0: string, k1: string, k2: string)
    requires k0 == "user_id" && k1 == "date >=" && k2 == "date <="
    ensures ParseKey(k0) == ("user_id", Eq) && ParseKey(k1) == ("date", Ge) && ParseKey(k2) == ("date", Le)
    ensures KnownColumn(ParseKey(k0).0) && KnownColumn(ParseKey(k1).0) && KnownColumn(ParseKey(k2).0)
    ensures LowerString(ParseKey(k0).0) == "user_id" && LowerString(ParseKey(k1).0) == "date"
    ensures LowerString(ParseKey(k2).0) == "date"
    ensures !EndsWithDigit(k0) && !EndsWithDigit(k1) && !EndsWithDigit(k2)
  {
    MonthKeysParse();
    ClosedKeyParses();
    ColumnsKnown();
  }

  /** The list criteria name known columns and none of their keys ends in a digit. */
  lemma ListCriteriaKnown(userId: int, year: int, month: int)
    ensures KnownColumns(ListCriteria(userId, year, month))
    ensures NoDigitEndings(ListCriteria(userId, year, month))
  {
    ListCriteriaKeysKnown(ListCriteria(userId, year, month));
  }

  /** Criteria keyed by the user and an inclusive date window name known
      columns, and none of their keys ends in a digit. */
  lemma ListCriteriaKeysKnown(c: Criteria)
    requires |c| == 3 && c[0].0 == "user_id" && c[1].0 == "date >=" && c[2].0 == "date <="
    ensures KnownColumns(c) && NoDigitEndings(c)
  {
    ClosedWindowKeys(c[0].0, c[1].0, c[2].0);
    forall i | 0 <= i < |c| ensures KnownColumn(ParseKey(c[i].0).0) && !EndsWithDigit(c[i].0) {
      if i == 0 {
      } else if i == 1 {
      } else {
        assert i == 2;
      }
    }
  }

  /** Entry by entry, the list criteria hold for a row exactly when the row is
      the user's and its date text lies in [lo, hi]. */
  lemma ClosedWindowEntries(r: Row, c: Criteria, userId: int, lo: string, hi: string)
    requires c == [("user_id", VInt(userId)), ("date >=", VText(lo)), ("date <=", VText(hi))]
    ensures KnownColumns(c) && NoDigitEndings(c)
    ensures (forall i :: 0 <= i < |c| ==>
              Holds(ColumnOf(r, ParseKey(c[i].0).0).value, ParseKey(c[i].0).1, Bound(c[i].1)))
            <==> r.userId == userId && !LexLess(Format(r.date), lo) &&
                 (LexLess(Format(r.date), hi) || Format(r.date) == hi)
  {
    ListCriteriaKeysKnown(c);
    ClosedWindowKeys(c[0].0, c[1].0, c[2].0);
    ParsedWindowEntries(r, c, userId, lo, hi, Le);
  }

  /** The list criteria select the user's rows of the month AND the user's rows
      dated exactly at the first instant of the next month. */
  lemma ListCriteriaSelects(r: Row, userId: int, year: int, month: int)
    requires FourDigitYear(r.date)
    requires FourDigitWindow(year, month)
    ensures Satisfies(r, ListCriteria(userId, year, month)) <==>
      InMonth(r, userId, year, month) ||
      (r.userId == userId && r.date == FirstDayOfNextMonth(MonthStart(year, month)))
  {
    var start := MonthStart(year, month);
    var end := FirstDayOfNextMonth(start);
    var c := ListCriteria(userId, year, month);
    ListCriteriaKnown(userId, year, month);
    ClosedWindowEntries(r, c, userId, Format(start), Format(end));
    SatisfiesMeaning(r, c);
    FormatOrder(r.date, start);
    FormatOrder(r.date, end);
    InClosedMonthWindow(r.date, year, month);
  }

  /** An expense dated at midnight on the first of the next month is listed
      under the month before, although it is not in that month and the
      monthly summary does not count it there. */
  lemma NextMonthStartListed(r: Row, userId: int, year: int, month: int)
    requires FourDigitWindow(year, month)
    requires r.userId == userId && r.date == FirstDayOfNextMonth(MonthStart(year, month))
    ensures Satisfies(r, ListCriteria(userId, year, month))
    ensures !InMonth(r, userId, year, month)
    ensures !Satisfies(r, MonthCriteria(userId, year, month))
  {
    ListCriteriaSelects(r, userId, year, month);
    MonthCriteriaSelects(r, userId, year, month);
  }

  /** `list` as written: page `pageNumber` (from 1) of `pageSize` rows of the
      rows the inclusive criteria select, in table order. */
  function List(table: ExpenseTable, userId: int, year: int, month: int, pageNumber: int, pageSize: int): (page: seq<Row>)
    reads table
    ensures pageSize >= 0 ==> |page| <= pageSize
    ensures page == Page(Matching(table.rows, ListCriteria(userId, year, month)), (pageNumber - 1) * pageSize, pageSize)
  {
    ListCriteriaKnown(userId, year, month);
    table.FindBy(ListCriteria(userId, year, month), (pageNumber - 1) * pageSize, pageSize)
  }

  /** `countBy` as written: how many rows the inclusive criteria select. */
  function CountBy(table: ExpenseTable, userId: int, year: int, month: int): (n: nat)
    reads table
    ensures n == |Matching(table.rows, ListCriteria(userId, year, month))|
  {
    ListCriteriaKnown(userId, year, month);
    table.CountBy(ListCriteria(userId, year, month))
  }

  /** A page holds the rows after the earlier pages, so no page reaches past the count. */
  lemma ListWithinCount(table: ExpenseTable, userId: int, year: int, month: int, pageNumber: int, pageSize: int)
    requires pageNumber >= 1 && pageSize >= 0
    ensures (pageNumber - 1) * pageSize + |List(table, userId, year, month, pageNumber, pageSize)|
            <= CountBy(table, userId, year, month) || |List(table, userId, year, month, pageNumber, pageSize)| == 0
  {
    var m := Matching(table.rows, ListCriteria(userId, year, month));
    var from := (pageNumber - 1) * pageSize;
    var p := List(table, userId, year, month, pageNumber, pageSize);
    if |p| > 0 {
      assert from + |p| - 1 < |m|;
    }
  }

  /** A page's rows are the user's, of the month or of the first instant after it. */
  lemma ListedRows(table: ExpenseTable, userId: int, year: int, month: int, pageNumber: int, pageSize: int, i: nat)
    requires forall k :: 0 <= k < |table.rows| ==> FourDigitYear(table.rows[k].date)
    requires FourDigitWindow(year, month)
    requires i < |List(table, userId, year, month, pageNumber, pageSize)|
    ensures var r := List(table, userId, year, month, pageNumber, pageSize)[i];
      r in table.rows &&
      (InMonth(r, userId, year, month) || (r.userId == userId && r.date == FirstDayOfNextMonth(MonthStart(year, month))))
  {
    var r := List(table, userId, year, month, pageNumber, pageSize)[i];
    assert r in Matching(table.rows, ListCriteria(userId, year, month));
    var k :| 0 <= k < |table.rows| && table.rows[k] == r;
    ListCriteriaSelects(r, userId, year, month);
  }

  /** `list` with the half-open window the monthly summary uses. */
  function ListInMonth(table: ExpenseTable, userId: int, year: int, month: int, pageNumber: int, pageSize: int): (page: seq<Row>)
    reads table
    ensures page == Page(Matching(table.rows, MonthCriteria(userId, year, month)), (pageNumber - 1) * pageSize, pageSize)
  {
    MonthCriteriaKnown(userId, year, month);
    table.FindBy(MonthCriteria(userId, year, month), (pageNumber - 1) * pageSize, pageSize)
  }

  /** `countBy` with the half-open window the monthly summary uses. */
  function CountInMonth(table: ExpenseTable, userId: int, year: int, month: int): (n: nat)
    reads table
    ensures n == |Matching(table.rows, MonthCriteria(userId, year, month))|
  {
    MonthCriteriaKnown(userId, year, month);
    table.CountBy(MonthCriteria(userId, year, month))
  }

  /** With the half-open window, every listed row is the user's and of the month. */
  lemma ListInMonthRows(table: ExpenseTable, userId: int, year: int, month: int, pageNumber: int, pageSize: int, i: nat)
    requires forall k :: 0 <= k < |table.rows| ==> FourDigitYear(table.rows[k].date)
    requires FourDigitWindow(year, month)
    requires i < |ListInMonth(table, userId, year, month, pageNumber, pageSize)|
    ensures var r := ListInMonth(table, userId, year, month, pageNumber, pageSize)[i];
      r in table.rows && InMonth(r, userId, year, month)
  {
    var r := ListInMonth(table, userId, year, month, pageNumber, pageSize)[i];
    assert r in Matching(table.rows, MonthCriteria(userId, year, month));
    var k :| 0 <= k < |table.rows| && table.rows[k] == r;
    MonthCriteriaSelects(r, userId, year, month);
  }

  /** With the half-open window, the count is the number of the user's rows
      of the month: the same rows the monthly summary totals. */
  lemma CountInMonthMeaning(table: ExpenseTable, userId: int, year: int, month: int)
    requires forall k :: 0 <= k < |table.rows| ==> FourDigitYear(table.rows[k].date)
    requires FourDigitWindow(year, month)
    ensures CountInMonth(table, userId, year, month) == |Filter(table.rows, r => InMonth(r, userId, year, month))|
  {
    MonthMatching(table.rows, userId, year, month);
  }

  // ---------------------------------------------------------------- create and update

  /** The amount `create` and `update` store: `(int)` / `intval` of the float,
      which drops the fraction and does not scale to cents. */
  function StoredAmount(amount: real): int
  {
    Truncate(amount)
  }

  /** An amount of `n` hundredths is stored as its whole part, not as `n` cents:
      12.30 becomes 12, which later reads back as 0.12. */
  lemma {:induction false} StoredAmountDropsCents(n: nat)
    ensures StoredAmount(n as real / 100.0) == n / 100
  {
    var q := n / 100;
    assert n == q * 100 + n % 100;
    assert q as real <= n as real / 100.0 < q as real + 1.0;
  }

  /** An amount with two decimals in major units is exactly its number of cents. */
  lemma CentsOfTwoDecimals(n: int)
    ensures CentsOf(n as real / 100.0) == n
  {
    assert n as real / 100.0 * 100.0 == n as real;
  }

  /** `create` as written: one new row with the user's id and the given date,
      category and description, and the truncated amount. */
  method Create(table: ExpenseTable, userId: int, amount: real, description: string, date: Instant, category: string)
    requires table.Valid()
    modifies table
    ensures table.Valid()
    ensures table.rows == old(table.rows) +
      [Row(old(table.nextId), userId, date, category, StoredAmount(amount), description)]
    ensures table.nextId == old(table.nextId) + 1
  {
    var expense := new Expense(None, userId, date, category, StoredAmount(amount), description);
    table.Save(expense);
  }

  /** `create` storing the amount in cents, as the `amount_cents` column and
      every reader of it expect. */
  method CreateInCents(table: ExpenseTable, userId: int, amount: real, description: string, date: Instant, category: string)
    requires table.Valid()
    modifies table
    ensures table.Valid()
    ensures table.rows == old(table.rows) +
      [Row(old(table.nextId), userId, date, category, CentsOf(amount), description)]
    ensures table.nextId == old(table.nextId) + 1
  {
    var expense := new Expense(None, userId, date, category, CentsOf(amount), description);
    table.Save(expense);
  }

  /** The fields `update` leaves an expense with: the new date, category,
      description and truncated amount; id and owner as they were. */
  function UpdatedFields(e: ExpenseData, amount: real, description: string, date: Instant, category: string): ExpenseData
  {
    e.(date := date, category := category, description := description, amountCents := StoredAmount(amount))
  }

  /** `update`: the four setters, then one save. */
  method Update(table: ExpenseTable, expense: Expense, amount: real, description: string, date: Instant, category: string)
    requires table.Valid()
    modifies table, expense
    ensures table.Valid()
    ensures expense.Fields() == UpdatedFields(old(expense.Fields()), amount, description, date, category)
    ensures expense.id.Some? ==>
      table.rows == Updated(old(table.rows), expense.id.value, expense.Fields()) && table.nextId == old(table.nextId)
    ensures expense.id.None? ==>
      table.rows == old(table.rows) + [RowOf(old(table.nextId), expense.Fields())] && table.nextId == old(table.nextId) + 1
  {
    expense.SetDate(date);
    expense.SetCategory(category);
    expense.SetDescription(description);
    expense.SetAmountCents(StoredAmount(amount));
    table.Save(expense);
  }

  /** Updating a stored expense changes its own row to the new fields and no other row. */
  lemma UpdateStoredRow(rows: seq<Row>, e: ExpenseData, amount: real, description: string, date: Instant, category: string, other: int)
    requires e.id.Some? && FindIn(rows, e.id.value).Some?
    ensures var u := UpdatedFields(e, amount, description, date, category);
      var after := Updated(rows, e.id.value, u);
      && FindIn(after, e.id.value) == Some(Row(e.id.value, e.userId, date, category, StoredAmount(amount), description))
      && (other != e.id.value ==> FindIn(after, other) == FindIn(rows, other))
  {
    var u := UpdatedFields(e, amount, description, date, category);
    UpdateThenFind(rows, e.id.value, u);
    if other != e.id.value {
      UpdateKeepsOthers(rows, e.id.value, u, other);
    }
  }

  // ---------------------------------------------------------------- delete

  /** The three outcomes of `delete`. */
  datatype DeleteOutcome = NotFound | NotOwner | Deleted

  /** Which outcome `delete` reaches for the expense `id` and the user `userId`. */
  function DeleteDecision(rows: seq<Row>, userId: int, id: int): DeleteOutcome
  {
    match FindIn(rows, id)
    case None => NotFound
    case Some(r) => if userId != r.userId then NotOwner else Deleted
  }

  /** The status `delete` returns: 0 for a deletion, 1 otherwise. */
  function DeleteStatus(d: DeleteOutcome): int
  {
    if d == Deleted then 0 else 1
  }

  /** The flash message `delete` leaves. */
  function DeleteFlash(d: DeleteOutcome): Flash
  {
    match d
    case NotFound => Flash("warning", "Expense not found.")
    case NotOwner => Flash("warning", "Not authorized to delete expense")
    case Deleted => Flash("success", "Expense deleted.")
  }

  /** The rows after `delete`: without the expense when it was deleted, as they were otherwise. */
  function AfterDelete(rows: seq<Row>, userId: int, id: int): seq<Row>
  {
    if DeleteDecision(rows, userId, id) == Deleted then WithoutId(rows, id) else rows
  }

  /** `delete`: look the expense up, refuse when it is missing or someone
      else's, otherwise delete it by its id. */
  method Delete(table: ExpenseTable, userId: int, expenseId: int) returns (status: int, flash: Flash)
    requires table.Valid()
    modifies table
    ensures table.Valid()
    ensures status == DeleteStatus(DeleteDecision(old(table.rows), userId, expenseId))
    ensures flash == DeleteFlash(DeleteDecision(old(table.rows), userId, expenseId))
    ensures table.rows == AfterDelete(old(table.rows), userId, expenseId)
    ensures table.nextId == old(table.nextId)
  {
    var expense := table.Find(expenseId);
    if expense == null {
      return 1, Flash("warning", "Expense not found.");
    }
    if userId != expense.userId {
      return 1, Flash("warning", "Not authorized to delete expense");
    }
    table.Delete(expense.id.value);
    return 0, Flash("success", "Expense deleted.");
  }

  /** With distinct ids: status 0 exactly when the user owns an expense with
      that id, and only then is the flash a success; "not found" exactly when
      no expense has that id. */
  lemma DeleteStatusMeaning(rows: seq<Row>, userId: int, id: int)
    requires IdsDistinct(rows)
    ensures DeleteStatus(DeleteDecision(rows, userId, id)) == 0 <==>
      exists i :: 0 <= i < |rows| && rows[i].id == id && rows[i].userId == userId
    ensures DeleteFlash(DeleteDecision(rows, userId, id)).kind == "success" <==>
      DeleteStatus(DeleteDecision(rows, userId, id)) == 0
    ensures DeleteDecision(rows, userId, id) == NotFound <==> forall i :: 0 <= i < |rows| ==> rows[i].id != id
  {
    if exists i :: 0 <= i < |rows| && rows[i].id == id && rows[i].userId == userId {
      var i :| 0 <= i < |rows| && rows[i].id == id && rows[i].userId == userId;
      FindInUnique(rows, id, i);
    }
  }

  /** `delete` never removes another user's expense, and after a deletion the
      expense is gone. */
  lemma DeleteKeepsOthers(rows: seq<Row>, userId: int, id: int)
    requires IdsDistinct(rows)
    ensures forall i :: 0 <= i < |rows| && rows[i].userId != userId ==> rows[i] in AfterDelete(rows, userId, id)
    ensures DeleteDecision(rows, userId, id) == Deleted ==> FindIn(AfterDelete(rows, userId, id), id) == None
    ensures DeleteDecision(rows, userId, id) != Deleted ==> AfterDelete(rows, userId, id) == rows
  {
    if DeleteDecision(rows, userId, id) == Deleted {
      forall i | 0 <= i < |rows| && rows[i].userId != userId
        ensures rows[i] in AfterDelete(rows, userId, id)
      {
        if rows[i].id == id {
          FindInUnique(rows, id, i);
        }
      }
      DeleteThenFind(rows, id);
    }
  }

  /** With distinct ids, the row `FindIn` returns is the only one with that id. */
  lemma FindInUnique(rows: seq<Row>, id: int, i: nat)
    requires IdsDistinct(rows) && i < |rows| && rows[i].id == id
    ensures FindIn(rows, id) == Some(rows[i])
  {
    var r := FindIn(rows, id).value;
    var j :| 0 <= j < |rows| && rows[j] == r;
  }

  // ---------------------------------------------------------------- edit

  /** `edit` as written: refuses unless the user id equals the EXPENSE id. */
  function EditAsWritten(userId: int, expenseId: int): Outcome<string>
  {
    if userId != expenseId then Fail("Not authorized to edit expense.") else Pass
  }

  /** The check `edit` is evidently meant to make: the user owns the expense. */
  function EditAllowed(userId: int, e: ExpenseData): Outcome<string>
  {
    if userId != e.userId then Fail("Not authorized to edit expense.") else Pass
  }

  /** As written, the owner of expense 5 is refused and the user whose id is
      5 is let in, whoever owns the expense. */
  lemma EditComparesExpenseId(e: ExpenseData)
    requires e.id == Some(5) && e.userId == 1
    ensures EditAsWritten(e.userId, e.id.value).Fail?
    ensures EditAsWritten(5, e.id.value).Pass? && EditAllowed(5, e).Fail?
  {
  }

  /** The owner check agrees with `delete`: a stored expense may be edited by
      a user exactly when that user could delete it. */
  lemma EditAllowedAgreesWithDelete(rows: seq<Row>, userId: int, i: nat)
    requires IdsDistinct(rows) && i < |rows|
    ensures EditAllowed(userId, DataOfRow(rows[i])).Pass? <==> DeleteDecision(rows, userId, rows[i].id) == Deleted
  {
    FindInUnique(rows, rows[i].id, i);
  }

  // ---------------------------------------------------------------- import

  /** The flash `importFromCsv` leaves after an import of `n` rows. */
  function ImportFlash(n: nat): Flash
  {
    if n > 0 then Flash("success", "Successfully imported " + NatToString(n) + " records.")
    else Flash("error", "Error at importing the records.")
  }

  /** `importFromCsv`: the repository's import, its count unchanged, and a
      success flash exactly when something was imported. A failed import
      propagates its exception and sets no flash. */
  method ImportFromCsv(table: ExpenseTable, userId: int, file: Option<seq<seq<string>>>, failing: set<nat>)
    returns (r: Result<nat, string>, flash: Option<Flash>)
    requires table.Valid()
    modifies table
    ensures table.Valid()
    ensures ImportOutcome(file, table.budgets, failing).Failure? ==>
      r == Failure(ImportOutcome(file, table.budgets, failing).error) && flash == None &&
      table.rows == old(table.rows) && table.nextId == old(table.nextId)
    ensures ImportOutcome(file, table.budgets, failing).Success? ==>
      var drafts := ImportOutcome(file, table.budgets, failing).value;
      && r == Success(|drafts|)
      && flash == Some(ImportFlash(|drafts|))
      && (flash.value.kind == "success" <==> |drafts| > 0)
      && table.rows == old(table.rows) + Materialize(drafts, userId, old(table.nextId))
  {
    r := table.ImportCsv(userId, file, failing);
    if r.Failure? {
      flash := None;
      return;
    }
    var imported := r.value;
    if imported > 0 {
      flash := Some(Flash("success", "Successfully imported " + NatToString(imported) + " records."));
    } else {
      flash := Some(Flash("error", "Error at importing the records."));
    }
  }
}
