/**
 * What one CSV import decides, record by record, as a specification the
 * imperative import of the expense table is proved against.
 *
 * The uploaded file is the sequence of records `fgetcsv` reads from it, or
 * `None` when its stream cannot be read. Records are numbered from 1. A record
 * with fewer than four fields is skipped; so is a record whose key (all its
 * fields joined by "-") was already imported in this file, and one whose
 * category has no budget. Otherwise its date is read with the fixed format
 * 'Y-m-d H:i:s'; when that fails the following `->format` call throws, and so
 * does an insert the database rejects. Either throw rolls back the whole
 * import. The database's refusals are a parameter: `failing` holds the
 * numbers of the records whose insert throws.
 */
module CsvImport {
  import opened Wrappers
  import opened Text
  import opened Numeric
  import opened Dates
  import opened Budgets

  const UnreadableFile := "Error at reading uploaded file."
  const ImportFailed := "There has been an error at importing the csv file."

  /** A record accepted for insertion, with its amount already in cents. */
  datatype Draft = Draft(date: Instant, category: string, amountCents: int, description: string)

  /** What the loop does with one record. */
  datatype Decision = Skip | Insert(key: string, draft: Draft) | Abort

  /** The de-duplication key: every field of the record, joined by "-". */
  function RowKey(fields: seq<string>): string
  {
    Join(fields, '-')
  }

  /** The fate of record number `row`, given the keys imported before it. */
  function Decide(fields: seq<string>, row: nat, visited: set<string>, budgets: BudgetService, failing: set<nat>): (d: Decision)
    ensures d.Skip? <==> |fields| < 4 || RowKey(fields) in visited || !budgets.IsBudgeted(fields[3])
    ensures d.Insert? ==> d.key == RowKey(fields) && d.key !in visited
    ensures d.Insert? ==> d.draft.category == fields[3] && budgets.IsBudgeted(d.draft.category)
    ensures d.Insert? ==> Some(d.draft.date) == ParseDateTime(fields[0])
    ensures d.Insert? ==> d.draft.amountCents == ToCents(fields[1]) && d.draft.description == fields[2]
    ensures d.Abort? <==> !d.Skip? && (ParseDateTime(fields[0]).None? || row in failing)
  {
    if |fields| < 4 then Skip
    else
      var key := RowKey(fields);
      if key in visited || !budgets.IsBudgeted(fields[3]) then Skip
      else
        match ParseDateTime(fields[0])
        case None => Abort
        case Some(date) =>
          if row in failing then Abort
          else Insert(key, Draft(date, fields[3], ToCents(fields[1]), fields[2]))
  }

  /** The import's state between records: the keys seen and the rows inserted
      so far, or rolled back. */
  datatype Scan = Running(visited: set<string>, drafts: seq<Draft>) | Aborted

  /** The state once a decision is carried out. */
  function Apply(visited: set<string>, drafts: seq<Draft>, d: Decision): Scan
  {
    match d
    case Skip => Running(visited, drafts)
    case Insert(key, draft) => Running(visited + {key}, drafts + [draft])
    case Abort => Aborted
  }

  function Step(s: Scan, fields: seq<string>, row: nat, budgets: BudgetService, failing: set<nat>): Scan
  {
    match s
    case Aborted => Aborted
    case Running(visited, drafts) => Apply(visited, drafts, Decide(fields, row, visited, budgets, failing))
  }

  /** The state after the given records, numbered from 1. */
  function ScanRecords(records: seq<seq<string>>, budgets: BudgetService, failing: set<nat>): (s: Scan)
    ensures s.Running? ==> |s.drafts| <= |records|
  {
    if records == [] then Running({}, [])
    else
      var n := |records| - 1;
      Step(ScanRecords(records[..n], budgets, failing), records[n], n + 1, budgets, failing)
  }

  /** The rows an import commits, or the error it throws. */
  function ImportOutcome(file: Option<seq<seq<string>>>, budgets: BudgetService, failing: set<nat>): (r: Result<seq<Draft>, string>)
    ensures file.None? ==> r == Failure(UnreadableFile)
    ensures r.Success? ==> |r.value| <= |file.value|
    ensures r.Failure? && file.Some? ==> r.error == ImportFailed && ScanRecords(file.value, budgets, failing).Aborted?
  {
    match file
    case None => Failure(UnreadableFile)
    case Some(records) =>
      match ScanRecords(records, budgets, failing)
      case Aborted => Failure(ImportFailed)
      case Running(_, drafts) => Success(drafts)
  }

  // ---------------------------------------------------------------- properties

  /** While an import runs, every inserted row brought a key of its own (so
      there are as many keys as rows) and a budgeted category. */
  lemma {:induction false} ScanInvariant(records: seq<seq<string>>, budgets: BudgetService, failing: set<nat>)
    requires ScanRecords(records, budgets, failing).Running?
    ensures |ScanRecords(records, budgets, failing).visited| == |ScanRecords(records, budgets, failing).drafts|
    ensures forall i :: 0 <= i < |ScanRecords(records, budgets, failing).drafts| ==>
              budgets.IsBudgeted(ScanRecords(records, budgets, failing).drafts[i].category)
  {
    if records != [] {
      var n := |records| - 1;
      var prev := ScanRecords(records[..n], budgets, failing);
      assert prev.Running?;
      ScanInvariant(records[..n], budgets, failing);
    }
  }

  /** The state after one more record is one step of the import. */
  lemma ScanNext(records: seq<seq<string>>, i: nat, budgets: BudgetService, failing: set<nat>)
    requires i < |records|
    ensures ScanRecords(records[..i + 1], budgets, failing)
            == Step(ScanRecords(records[..i], budgets, failing), records[i], i + 1, budgets, failing)
  {
    assert records[..i + 1][..i] == records[..i];
  }

  /** Once rolled back, an import stays rolled back whatever follows. */
  lemma {:induction false} AbortIsFinal(a: seq<seq<string>>, b: seq<seq<string>>, budgets: BudgetService, failing: set<nat>)
    requires ScanRecords(a, budgets, failing).Aborted?
    ensures ScanRecords(a + b, budgets, failing).Aborted?
  {
    if b == [] {
      assert a + b == a;
    } else {
      var n := |b| - 1;
      AbortIsFinal(a, b[..n], budgets, failing);
      assert (a + b)[..|a + b| - 1] == a + b[..n];
    }
  }

  /** Keys are never forgotten: a later state of a running import has seen
      every key an earlier one had, and the earlier rows are still there. */
  lemma {:induction false} VisitedGrows(a: seq<seq<string>>, b: seq<seq<string>>, budgets: BudgetService, failing: set<nat>)
    requires ScanRecords(a + b, budgets, failing).Running?
    ensures ScanRecords(a, budgets, failing).Running?
    ensures ScanRecords(a, budgets, failing).visited <= ScanRecords(a + b, budgets, failing).visited
    ensures |ScanRecords(a, budgets, failing).drafts| <= |ScanRecords(a + b, budgets, failing).drafts|
    ensures ScanRecords(a + b, budgets, failing).drafts[..|ScanRecords(a, budgets, failing).drafts|]
            == ScanRecords(a, budgets, failing).drafts
  {
    if b == [] {
      assert a + b == a;
    } else {
      var n := |b| - 1;
      assert (a + b)[..|a + b| - 1] == a + b[..n];
      assert (a + b)[|a + b| - 1] == b[n];
      var s := ScanRecords(a + b[..n], budgets, failing);
      assert ScanRecords(a + b, budgets, failing) == Step(s, b[n], |a + b|, budgets, failing);
      assert s.Running?;
      VisitedGrows(a, b[..n], budgets, failing);
      var m := |ScanRecords(a, budgets, failing).drafts|;
      match Decide(b[n], |a + b|, s.visited, budgets, failing)
      case Skip =>
      case Insert(key, d) =>
        assert (s.drafts + [d])[..m] == s.drafts[..m];
      case Abort =>
    }
  }

  /** A record with fewer than four fields changes nothing. */
  lemma ShortRecordSkipped(records: seq<seq<string>>, r: seq<string>, budgets: BudgetService, failing: set<nat>)
    requires |r| < 4
    ensures ScanRecords(records + [r], budgets, failing) == ScanRecords(records, budgets, failing)
  {
    assert (records + [r])[..|records|] == records;
  }

  /** A record whose category has no budget changes nothing and fails nothing. */
  lemma UnknownCategorySkipped(records: seq<seq<string>>, r: seq<string>, budgets: BudgetService, failing: set<nat>)
    requires |r| >= 4 && budgets.GetCategoryBudget(r[3]).None?
    ensures ScanRecords(records + [r], budgets, failing) == ScanRecords(records, budgets, failing)
  {
    assert (records + [r])[..|records|] == records;
  }

  /** A record whose key was already imported in this file changes nothing. */
  lemma RepeatedKeySkipped(records: seq<seq<string>>, r: seq<string>, budgets: BudgetService, failing: set<nat>)
    requires ScanRecords(records, budgets, failing).Running?
    requires RowKey(r) in ScanRecords(records, budgets, failing).visited
    ensures ScanRecords(records + [r], budgets, failing) == ScanRecords(records, budgets, failing)
  {
    assert (records + [r])[..|records|] == records;
  }

  /** An empty description is only worth a warning: the record is still inserted. */
  lemma EmptyDescriptionAccepted(fields: seq<string>, row: nat, visited: set<string>, budgets: BudgetService, failing: set<nat>)
    requires |fields| >= 4 && fields[2] == ""
    requires RowKey(fields) !in visited && budgets.IsBudgeted(fields[3])
    requires ParseDateTime(fields[0]).Some? && row !in failing
    ensures Decide(fields, row, visited, budgets, failing).Insert?
    ensures Decide(fields, row, visited, budgets, failing).draft.description == ""
  {
  }

  /** A file holding one valid record twice imports it once. */
  lemma DuplicateImportedOnce(r: seq<string>, budgets: BudgetService, failing: set<nat>)
    requires |r| >= 4 && budgets.IsBudgeted(r[3]) && ParseDateTime(r[0]).Some?
    requires 1 !in failing
    ensures ImportOutcome(Some([r, r]), budgets, failing)
            == Success([Draft(ParseDateTime(r[0]).value, r[3], ToCents(r[1]), r[2])])
  {
    assert [r, r][..1] == [r];
    assert [r][..0] == [];
    var d := Draft(ParseDateTime(r[0]).value, r[3], ToCents(r[1]), r[2]);
    assert Decide(r, 1, {}, budgets, failing) == Insert(RowKey(r), d);
    var first := ScanRecords([r], budgets, failing);
    assert first == Step(ScanRecords([], budgets, failing), r, 1, budgets, failing);
    assert first == Running({RowKey(r)}, [Draft(ParseDateTime(r[0]).value, r[3], ToCents(r[1]), r[2])]);
  }

  /** When the insert of a record that passed every check throws, nothing is
      committed, whatever the later records are. */
  lemma FailingInsertRollsBack(records: seq<seq<string>>, k: nat, budgets: BudgetService, failing: set<nat>)
    requires k < |records| && k + 1 in failing
    requires ScanRecords(records[..k], budgets, failing).Running?
    requires |records[k]| >= 4 && budgets.IsBudgeted(records[k][3])
    requires RowKey(records[k]) !in ScanRecords(records[..k], budgets, failing).visited
    ensures ImportOutcome(Some(records), budgets, failing) == Failure(ImportFailed)
  {
    var s := ScanRecords(records[..k], budgets, failing);
    assert Decide(records[k], k + 1, s.visited, budgets, failing).Abort?;
    ScanNext(records, k, budgets, failing);
    assert ScanRecords(records[..k + 1], budgets, failing).Aborted?;
    AbortIsFinal(records[..k + 1], records[k + 1..], budgets, failing);
    assert records[..k + 1] + records[k + 1..] == records;
  }

  /** Two different records can share a key, because a field may itself hold
      "-": once the first is imported, the second is skipped as a repeat of
      it (see RepeatedKeySkipped). */
  lemma KeyCollision()
    ensures var r1 := ["d", "5", "a-b", "Food"];
            var r2 := ["d", "5-a", "b", "Food"];
            r1 != r2 && RowKey(r1) == RowKey(r2)
  {
    var r1 := ["d", "5", "a-b", "Food"];
    var r2 := ["d", "5-a", "b", "Food"];
    assert r1[1] != r2[1];
    assert Join(r1[2..], '-') == "a-b-Food";
    assert Join(r2[2..], '-') == "b-Food";
    assert RowKey(r1) == "d-5-a-b-Food";
    assert RowKey(r2) == "d-5-a-b-Food";
  }
}
