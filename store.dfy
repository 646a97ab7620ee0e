/**
 * The `expenses` table behind the PDO repository: its rows change in place
 * through insert, update, delete and the transactional CSV import, and every
 * query reads the current rows through the criteria-driven SQL of the
 * Query module. Ids are handed out by the table, in increasing order.
 */
module Store {
  import opened Wrappers
  import opened Text
  import opened Dates
  import opened Entity
  import opened Budgets
  import opened Criteria
  import opened Query
  import opened CsvImport

  /** No two rows share an id (the primary key). */
  predicate IdsDistinct(rows: seq<Row>)
  {
    forall i, j :: 0 <= i < j < |rows| ==> rows[i].id != rows[j].id
  }

  /** `SELECT * FROM expenses WHERE id = :id`: the row with that id, if any. */
  function FindIn(rows: seq<Row>, id: int): (r: Option<Row>)
    ensures r.Some? ==> r.value in rows && r.value.id == id
    ensures r.None? <==> forall i :: 0 <= i < |rows| ==> rows[i].id != id
  {
    if rows == [] then None
    else if rows[0].id == id then Some(rows[0])
    else FindIn(rows[1..], id)
  }

  /** The row an expense object is stored as, under the id `id`. */
  function RowOf(id: int, e: ExpenseData): Row
  {
    Row(id, e.userId, e.date, e.category, e.amountCents, e.description)
  }

  /** `UPDATE expenses SET ... WHERE id = :id`: every column but the id taken
      from the expense, in the rows carrying that id; no such row, no change. */
  function Updated(rows: seq<Row>, id: int, e: ExpenseData): (r: seq<Row>)
    ensures |r| == |rows|
    ensures forall i :: 0 <= i < |rows| ==> r[i].id == rows[i].id
    ensures forall i :: 0 <= i < |rows| && rows[i].id != id ==> r[i] == rows[i]
    ensures forall i :: 0 <= i < |rows| && rows[i].id == id ==> r[i] == RowOf(id, e)
  {
    if rows == [] then []
    else [if rows[0].id == id then RowOf(id, e) else rows[0]] + Updated(rows[1..], id, e)
  }

  /** `DELETE FROM expenses WHERE id = ?`. */
  function WithoutId(rows: seq<Row>, id: int): (r: seq<Row>)
    ensures forall x :: x in r <==> x in rows && x.id != id
    ensures |r| <= |rows|
  {
    if rows == [] then []
    else if rows[0].id == id then WithoutId(rows[1..], id)
    else [rows[0]] + WithoutId(rows[1..], id)
  }

  /** The row an imported record is stored as, under the id `id`. */
  function RowOfDraft(id: int, userId: int, d: Draft): Row
  {
    Row(id, userId, d.date, d.category, d.amountCents, d.description)
  }

  /** The rows an import commits, with consecutive ids from `firstId` on. */
  function Materialize(drafts: seq<Draft>, userId: int, firstId: int): (rs: seq<Row>)
    ensures |rs| == |drafts|
    ensures forall i :: 0 <= i < |rs| ==> rs[i].id == firstId + i && rs[i].userId == userId
  {
    if drafts == [] then []
    else
      var n := |drafts| - 1;
      Materialize(drafts[..n], userId, firstId) + [RowOfDraft(firstId + n, userId, drafts[n])]
  }

  lemma MaterializeSnoc(drafts: seq<Draft>, d: Draft, userId: int, firstId: int)
    ensures Materialize(drafts + [d], userId, firstId)
            == Materialize(drafts, userId, firstId) + [RowOfDraft(firstId + |drafts|, userId, d)]
  {
    assert (drafts + [d])[..|drafts|] == drafts;
  }

  /** After a delete, the id is not found. */
  lemma DeleteThenFind(rows: seq<Row>, id: int)
    ensures FindIn(WithoutId(rows, id), id) == None
  {
    var r := WithoutId(rows, id);
    forall i | 0 <= i < |r|
      ensures r[i].id != id
    {
      assert r[i] in r;
    }
  }

  /** Deleting an id no row carries changes nothing. */
  lemma {:induction false} DeleteAbsent(rows: seq<Row>, id: int)
    requires FindIn(rows, id) == None
    ensures WithoutId(rows, id) == rows
  {
    if rows != [] {
      assert rows[0].id != id;
      assert FindIn(rows[1..], id) == None by {
        forall i | 0 <= i < |rows| - 1
          ensures rows[1..][i].id != id
        {
          assert rows[1..][i] == rows[i + 1];
        }
      }
      DeleteAbsent(rows[1..], id);
      assert [rows[0]] + rows[1..] == rows;
    }
  }

  /** After an update of a stored id, finding that id gives the new fields. */
  lemma {:induction false} UpdateThenFind(rows: seq<Row>, id: int, e: ExpenseData)
    requires FindIn(rows, id).Some?
    ensures FindIn(Updated(rows, id, e), id) == Some(RowOf(id, e))
  {
    if rows[0].id != id {
      UpdateThenFind(rows[1..], id, e);
      assert Updated(rows, id, e)[1..] == Updated(rows[1..], id, e);
    }
  }

  /** An update leaves what the other ids find untouched. */
  lemma {:induction false} UpdateKeepsOthers(rows: seq<Row>, id: int, e: ExpenseData, other: int)
    requires other != id
    ensures FindIn(Updated(rows, id, e), other) == FindIn(rows, other)
  {
    if rows != [] {
      UpdateKeepsOthers(rows[1..], id, e, other);
      assert Updated(rows, id, e)[1..] == Updated(rows[1..], id, e);
    }
  }

  class ExpenseTable {
    var rows: seq<Row>
    /** The id the next insert receives. */
    var nextId: int
    const budgets: BudgetService

    /** Ids are distinct and below the next one handed out. */
    predicate Valid()
      reads this
    {
      IdsDistinct(rows) && forall i :: 0 <= i < |rows| ==> rows[i].id < nextId
    }

    constructor(budgets: BudgetService)
      ensures Valid() && rows == [] && nextId == 1 && this.budgets == budgets
    {
      rows := [];
      nextId := 1;
      this.budgets := budgets;
    }

    /** `find`: a new expense object for the stored row, or null. */
    method Find(id: int) returns (e: Expense?)
      ensures FindIn(rows, id).None? ==> e == null
      ensures FindIn(rows, id).Some? ==> e != null && fresh(e) && e.Fields() == DataOfRow(FindIn(rows, id).value)
    {
      var found := FindIn(rows, id);
      if found.None? {
        return null;
      }
      var r := found.value;
      e := new Expense(Some(r.id), r.userId, r.date, r.category, r.amountCents, r.description);
    }

    /** `insert`: the id column is left unbound, so the table picks the id. */
    method Insert(userId: int, date: Instant, category: string, amountCents: int, description: string)
      requires Valid()
      modifies this
      ensures Valid()
      ensures rows == old(rows) + [Row(old(nextId), userId, date, category, amountCents, description)]
      ensures nextId == old(nextId) + 1
    {
      rows := rows + [Row(nextId, userId, date, category, amountCents, description)];
      nextId := nextId + 1;
    }

    /** `save`: an expense without id is inserted, one with an id overwrites
        the stored row with that id (if there is one). */
    method Save(e: Expense)
      requires Valid()
      modifies this
      ensures Valid()
      ensures e.id.None? ==> rows == old(rows) + [RowOf(old(nextId), e.Fields())] && nextId == old(nextId) + 1
      ensures e.id.Some? ==> rows == Updated(old(rows), e.id.value, e.Fields()) && nextId == old(nextId)
    {
      if e.id.None? {
        Insert(e.userId, e.date, e.category, e.amountCents, e.description);
      } else {
        rows := Updated(rows, e.id.value, e.Fields());
      }
    }

    /** `delete`: removes the row with that id, if any. */
    method Delete(id: int)
      requires Valid()
      modifies this
      ensures Valid()
      ensures rows == WithoutId(old(rows), id) && nextId == old(nextId)
      ensures FindIn(rows, id) == None
    {
      WithoutIdDistinct(rows, id);
      DeleteThenFind(rows, id);
      rows := WithoutId(rows, id);
    }

    /** `findBy`: the matching rows, in table order, `LIMIT from, limit`. */
    function FindBy(criteria: Criteria, from: int, limit: int): (page: seq<Row>)
      reads this
      requires KnownColumns(criteria)
      ensures limit >= 0 ==> |page| <= limit
      ensures forall i :: 0 <= i < |page| ==> page[i] in rows && Satisfies(page[i], criteria)
      ensures page == Page(Matching(rows, criteria), from, limit)
    {
      var m := Matching(rows, criteria);
      var p := Page(m, from, limit);
      assert forall i :: 0 <= i < |p| ==> p[i] in m;
      p
    }

    /** `countBy`: how many rows match. */
    function CountBy(criteria: Criteria): (n: nat)
      reads this
      requires KnownColumns(criteria)
      ensures n <= |rows|
      ensures n == |Matching(rows, criteria)|
    {
      |Matching(rows, criteria)|
    }

    /** `sumAmounts`: total cents of the matching rows, as a float; 0 when none match. */
    function SumAmounts(criteria: Criteria): (total: real)
      reads this
      requires KnownColumns(criteria)
      ensures total == SumCents(Matching(rows, criteria)) as real
    {
      SumCents(Matching(rows, criteria)) as real
    }

    /** `sumAmountsByCategory`: one (category, total cents) pair per category among the matching rows. */
    function SumAmountsByCategory(criteria: Criteria): (groups: seq<Group>)
      reads this
      requires KnownColumns(criteria)
      ensures groups == SumByCategory(Matching(rows, criteria))
      ensures GroupTotal(groups) == SumAmounts(criteria)
    {
      SumByCategoryTotal(Matching(rows, criteria));
      SumByCategory(Matching(rows, criteria))
    }

    /** `averageAmountsByCategory`: one (category, average cents) pair per category among the matching rows. */
    function AverageAmountsByCategory(criteria: Criteria): (groups: seq<Group>)
      reads this
      requires KnownColumns(criteria)
      ensures groups == AverageByCategory(Matching(rows, criteria))
      ensures |groups| == |SumAmountsByCategory(criteria)|
    {
      AverageByCategory(Matching(rows, criteria))
    }

    /** `listExpenditureYears`: the user's years, each once, newest first. */
    function ListExpenditureYears(userId: int): (years: seq<int>)
      reads this
      ensures StrictlyDescending(years)
      ensures years == YearsOf(rows, userId)
    {
      YearsOf(rows, userId)
    }

    /**
     * One pass of the import loop, over record number `i + 1`: the
     * completeness check, the key, `validateEntry`, the date and amount
     * conversions and the insert. It carries out the decision the import
     * specification makes for that record; `drafts`, `savedRows` and
     * `savedNextId` name the import so far and the table before it.
     */
    method ImportRecord(userId: int, records: seq<seq<string>>, i: nat, visited: set<string>,
                        failing: set<nat>, ghost drafts: seq<Draft>, ghost savedRows: seq<Row>, ghost savedNextId: int)
      returns (decision: Decision)
      requires Valid() && i < |records|
      requires ScanRecords(records[..i], budgets, failing) == Running(visited, drafts)
      requires rows == savedRows + Materialize(drafts, userId, savedNextId) && nextId == savedNextId + |drafts|
      modifies this
      ensures Valid()
      ensures ScanRecords(records[..i + 1], budgets, failing) == Apply(visited, drafts, decision)
      ensures decision.Insert? ==>
        rows == savedRows + Materialize(drafts + [decision.draft], userId, savedNextId) && nextId == old(nextId) + 1
      ensures !decision.Insert? ==> rows == old(rows) && nextId == old(nextId)
    {
      ScanNext(records, i, budgets, failing);
      var fields := records[i];
      var row := i + 1;
      if |fields| < 4 {
        return Skip;
      }
      var key := Join(fields, '-');
      var date, amount, description, category := fields[0], fields[1], fields[2], fields[3];
      if key in visited || budgets.GetCategoryBudget(category) == None {
        return Skip;
      }
      var parsed := ParseDateTime(date);
      if parsed.None? || row in failing {
        return Abort;
      }
      var d := Draft(parsed.value, category, Numeric.ToCents(amount), description);
      Insert(userId, d.date, d.category, d.amountCents, d.description);
      MaterializeSnoc(drafts, d, userId, savedNextId);
      decision := Decision.Insert(key, d);
    }

    /**
     * `importCsv`: the records of the file in order, inside one transaction.
     * The result is the number of inserted rows, and the table ends as the
     * import specification says: grown by exactly those rows, or, when the
     * file cannot be read or a record throws, exactly as it was.
     */
    method ImportCsv(userId: int, file: Option<seq<seq<string>>>, failing: set<nat>) returns (r: Result<nat, string>)
      requires Valid()
      modifies this
      ensures Valid()
      ensures ImportOutcome(file, budgets, failing).Failure? ==>
        r == Failure(ImportOutcome(file, budgets, failing).error) && rows == old(rows) && nextId == old(nextId)
      ensures ImportOutcome(file, budgets, failing).Success? ==>
        var drafts := ImportOutcome(file, budgets, failing).value;
        r == Success(|drafts|) && rows == old(rows) + Materialize(drafts, userId, old(nextId)) &&
        nextId == old(nextId) + |drafts|
    {
      if file.None? {
        return Failure(UnreadableFile);
      }
      var records := file.value;
      var imported := 0;
      var visited: set<string> := {};
      ghost var drafts: seq<Draft> := [];
      // beginTransaction: what a rollback restores
      var savedRows, savedNextId := rows, nextId;
      var i := 0;
      while i < |records|
        invariant 0 <= i <= |records|
        invariant Valid()
        invariant ScanRecords(records[..i], budgets, failing) == Running(visited, drafts)
        invariant imported == |drafts|
        invariant rows == savedRows + Materialize(drafts, userId, savedNextId)
        invariant nextId == savedNextId + |drafts|
      {
        var decision := ImportRecord(userId, records, i, visited, failing, drafts, savedRows, savedNextId);
        if decision.Abort? {
          // rollBack, then the exception reaches the caller
          rows, nextId := savedRows, savedNextId;
          AbortIsFinal(records[..i + 1], records[i + 1..], budgets, failing);
          assert records[..i + 1] + records[i + 1..] == records;
          return Failure(ImportFailed);
        }
        if decision.Insert? {
          visited := visited + {decision.key};
          drafts := drafts + [decision.draft];
          imported := imported + 1;
        }
        i := i + 1;
      }
      assert records[..|records|] == records;
      r := Success(imported);
    }
  }

  lemma {:induction false} WithoutIdDistinct(rows: seq<Row>, id: int)
    requires IdsDistinct(rows)
    ensures IdsDistinct(WithoutId(rows, id))
  {
    if rows != [] {
      assert IdsDistinct(rows[1..]);
      WithoutIdDistinct(rows[1..], id);
      var rest := WithoutId(rows[1..], id);
      if rows[0].id != id {
        forall k | 0 <= k < |rest|
          ensures rest[k].id != rows[0].id
        {
          assert rest[k] in rows[1..];
        }
      }
    }
  }
}
