/**
 * What the repository's SQL statements compute over the `expenses` rows:
 * the WHERE clause built from criteria, `LIMIT from, limit`, `COUNT`, `SUM`,
 * the per-category `SUM`/`AVG` with `GROUP BY category`, and the distinct
 * years of a user's expenses in descending order. Values follow SQLite:
 * `id`, `user_id` and `amount_cents` hold INTEGERs, the other columns TEXT,
 * dates are stored as their 'Y-m-d H:i:s' text, and every parameter is bound
 * as text (PDO's default), which an INTEGER column converts back to a number
 * when the text is a numeric literal.
 */
module Query {
  import opened Text
  import opened Wrappers
  import opened Dates
  import opened Entity
  import opened Criteria
  import opened Numeric

  /** A stored value: SQLite's INTEGER or TEXT storage class. */
  datatype Cell = CInt(n: int) | CText(s: string)

  const Columns: set<string> := {"id", "user_id", "date", "category", "amount_cents", "description"}

  /** SQL identifiers match without regard to ASCII letter case. */
  predicate KnownColumn(column: string)
  {
    LowerString(column) in Columns
  }

  /** Every criteria key names a column of the table. */
  predicate KnownColumns(criteria: Criteria)
  {
    forall i :: 0 <= i < |criteria| ==> KnownColumn(ParseKey(criteria[i].0).0)
  }

  /** The value of a column in a row; `None` for a name the table does not have. */
  function ColumnOf(row: Row, column: string): (cell: Option<Cell>)
    ensures cell.Some? <==> KnownColumn(column)
    ensures LowerString(column) == "date" ==> cell == Some(CText(Format(row.date)))
    ensures LowerString(column) == "user_id" ==> cell == Some(CInt(row.userId))
  {
    var c := LowerString(column);
    if c == "id" then Some(CInt(row.id))
    else if c == "user_id" then Some(CInt(row.userId))
    else if c == "date" then Some(CText(Format(row.date)))
    else if c == "category" then Some(CText(row.category))
    else if c == "amount_cents" then Some(CInt(row.amountCents))
    else if c == "description" then Some(CText(row.description))
    else None
  }

  /** How a value is bound: PDO's default binds everything as text. */
  function Bound(v: Value): string
  {
    match v
    case VInt(i) => IntToString(i)
    case VText(s) => s
  }

  /** An integer bound as text is a numeric text that reads back as that integer. */
  lemma BoundIntIsNumeric(n: int)
    ensures IsNumeric(IntToString(n)) && FloatValue(IntToString(n)) == n as real
  {
    var t := IntToString(n);
    var d := NatToString(if n < 0 then -n else n);
    NatToStringValue(if n < 0 then -n else n);
    assert t == (if n < 0 then "-" else "") + d;
    ScanInteger(t, n < 0, d);
  }

  /** The outcome of `op` for two values in a total order, given `lt` and `eq`. */
  predicate ByOrder(lt: bool, eq: bool, op: Op)
  {
    match op
    case Eq => eq
    case Ne => !eq
    case Lt => lt
    case Le => lt || eq
    case Gt => !lt && !eq
    case Ge => !lt
    case Like => false
  }

  /**
   * `cell op operand` in SQLite: TEXT compares by code point (BINARY collation).
   * Against an INTEGER column the bound text takes NUMERIC affinity: a
   * well-formed integer or real literal, white space around it allowed, becomes
   * its number and compares numerically; any other text stays TEXT, which every
   * INTEGER is smaller than. LIKE compares the text forms.
   */
  predicate Holds(cell: Cell, op: Op, operand: string)
  {
    match cell
    case CText(s) =>
      if op == Like then Text.Like(s, operand) else ByOrder(LexLess(s, operand), s == operand, op)
    case CInt(n) =>
      if op == Like then Text.Like(IntToString(n), operand)
      else if IsNumeric(operand) then ByOrder(n as real < FloatValue(operand), n as real == FloatValue(operand), op)
      else ByOrder(true, false, op)
  }

  /** "4.5" reads as the whole of itself, with value 4.5. */
  lemma ScanFourPointFive()
    ensures IsNumeric("4.5") && FloatValue("4.5") == 4.5
  {
    var t := "4.5";
    assert SkipSpace(t, 0) == 0;
    assert SkipDigits(t, 1) == 1 && SkipDigits(t, 0) == 1;
    assert SkipDigits(t, 3) == 3 && SkipDigits(t, 2) == 3;
    var a := Number(false, "4", "5", false, []);
    assert t[0..1] == "4" && t[2..3] == "5";
    assert ScanNumber(t) == Some((a, 3));
    assert "4" + "5" == "45" && "45"[..1] == "4";
    assert DigitsValue("45") == 45;
    assert a.Shift() == -1 && Scale(-1) == 0.1;
  }

  /** "5.0" reads as the whole of itself, with value 5. */
  lemma ScanFivePointZero()
    ensures IsNumeric("5.0") && FloatValue("5.0") == 5.0
  {
    var t := "5.0";
    assert SkipSpace(t, 0) == 0;
    assert SkipDigits(t, 1) == 1 && SkipDigits(t, 0) == 1;
    assert SkipDigits(t, 3) == 3 && SkipDigits(t, 2) == 3;
    var a := Number(false, "5", "0", false, []);
    assert t[0..1] == "5" && t[2..3] == "0";
    assert ScanNumber(t) == Some((a, 3));
    assert "5" + "0" == "50" && "50"[..1] == "5";
    assert DigitsValue("50") == 50;
    assert a.Shift() == -1 && Scale(-1) == 0.1;
  }

  /** The user column compares numerically with any numeric text, not only an
      integer literal: 5 > '4.5' and 5 = '5.0'. */
  lemma NumericAffinityExamples()
    ensures Holds(CInt(5), Gt, "4.5") && Holds(CInt(5), Eq, "5.0")
  {
    ScanFourPointFive();
    ScanFivePointZero();
  }

  /** A text that is not numeric stays TEXT, which every INTEGER is smaller than. */
  lemma TextOperandAbove()
    ensures Holds(CInt(5), Lt, "five") && !Holds(CInt(5), Eq, "five")
  {
    var t := "five";
    assert SkipSpace(t, 0) == 0 && SkipDigits(t, 0) == 0;
    assert ScanNumber(t) == None;
  }

  /** A condition holds for a row with the value its parameter is bound to.
      (A column the table lacks makes the database raise an error instead; the
      operations that run queries require known columns.) */
  predicate ConditionHolds(row: Row, c: Condition, params: map<string, Value>)
  {
    && c.param in params
    && ColumnOf(row, c.column).Some?
    && Holds(ColumnOf(row, c.column).value, c.op, Bound(params[c.param]))
  }

  /** The WHERE clause: all conditions ANDed; no criteria, no WHERE clause. */
  predicate Satisfies(row: Row, criteria: Criteria)
  {
    var conds := Conditions(criteria);
    var params := Params(criteria);
    criteria == [] || forall i :: 0 <= i < |conds| ==> ConditionHolds(row, conds[i], params)
  }

  /** What the WHERE clause means when no key ends in a digit: every entry's
      column compared by its operator with that entry's own value. */
  lemma SatisfiesMeaning(row: Row, criteria: Criteria)
    requires KnownColumns(criteria) && NoDigitEndings(criteria)
    ensures Satisfies(row, criteria) <==>
      forall i :: 0 <= i < |criteria| ==>
        Holds(ColumnOf(row, ParseKey(criteria[i].0).0).value, ParseKey(criteria[i].0).1, Bound(criteria[i].1))
  {
    ParamsOfConditions(criteria);
  }

  /** The rows `keep` accepts, in their order. */
  function Filter(rows: seq<Row>, keep: Row -> bool): (m: seq<Row>)
    ensures |m| <= |rows|
    ensures forall r :: r in m <==> r in rows && keep(r)
  {
    if rows == [] then []
    else
      var n := |rows| - 1;
      var prev := Filter(rows[..n], keep);
      assert rows == rows[..n] + [rows[n]];
      if keep(rows[n]) then prev + [rows[n]] else prev
  }

  /** The rows the WHERE clause keeps, in table order. */
  function Matching(rows: seq<Row>, criteria: Criteria): (m: seq<Row>)
    ensures |m| <= |rows|
    ensures forall r :: r in m <==> r in rows && Satisfies(r, criteria)
  {
    Filter(rows, r => Satisfies(r, criteria))
  }

  /** Without criteria every row matches. */
  lemma MatchingAll(rows: seq<Row>)
    ensures Matching(rows, []) == rows
  {
    FilterAll(rows, r => Satisfies(r, []));
  }

  lemma {:induction false} FilterAll(rows: seq<Row>, keep: Row -> bool)
    requires forall r :: keep(r)
    ensures Filter(rows, keep) == rows
  {
    if rows != [] {
      var n := |rows| - 1;
      FilterAll(rows[..n], keep);
      assert rows == rows[..n] + [rows[n]];
    }
  }

  /** `LIMIT from, limit`: skip `from` rows (none when negative) and keep at most
      `limit` of the rest (all of them when negative). */
  function Page(rows: seq<Row>, from: int, limit: int): (page: seq<Row>)
    ensures limit >= 0 ==> |page| <= limit
    ensures var start := if from < 0 then 0 else from;
      forall i :: 0 <= i < |page| ==> start + i < |rows| && page[i] == rows[start + i]
    ensures var start := if from < 0 then 0 else from;
      start <= |rows| && (limit < 0 || start + limit >= |rows|) ==> |page| == |rows| - start
    ensures var start := if from < 0 then 0 else from;
      limit >= 0 && start + limit <= |rows| ==> |page| == limit
    ensures from >= |rows| ==> page == []
  {
    var start := if from < 0 then 0 else if from > |rows| then |rows| else from;
    var end := if limit < 0 || start + limit > |rows| then |rows| else start + limit;
    rows[start..end]
  }

  /** `SUM(amount_cents)` over the given rows; SQL's NULL for no rows reads as 0. */
  function SumCents(rows: seq<Row>): int
  {
    if rows == [] then 0 else SumCents(rows[..|rows| - 1]) + rows[|rows| - 1].amountCents
  }

  /** Total cents of the rows of one category. */
  function CategorySum(rows: seq<Row>, category: string): int
  {
    if rows == [] then 0
    else
      var last := rows[|rows| - 1];
      CategorySum(rows[..|rows| - 1], category) + (if last.category == category then last.amountCents else 0)
  }

  /** Number of rows of one category. */
  function CategoryCount(rows: seq<Row>, category: string): (n: nat)
    ensures n <= |rows|
    ensures n > 0 <==> exists i :: 0 <= i < |rows| && rows[i].category == category
  {
    if rows == [] then 0
    else
      var n := |rows| - 1;
      assert forall i :: 0 <= i < n ==> rows[..n][i] == rows[i];
      CategoryCount(rows[..n], category) + (if rows[n].category == category then 1 else 0)
  }

  predicate Distinct<T(==)>(s: seq<T>)
  {
    forall i, j :: 0 <= i < j < |s| ==> s[i] != s[j]
  }

  /** The categories occurring in the rows, each once, in order of first occurrence. */
  function Categories(rows: seq<Row>): (cats: seq<string>)
    ensures Distinct(cats)
    ensures forall i :: 0 <= i < |rows| ==> rows[i].category in cats
    ensures forall c :: c in cats ==> CategoryCount(rows, c) > 0
  {
    if rows == [] then []
    else
      var n := |rows| - 1;
      var prev := Categories(rows[..n]);
      assert forall i :: 0 <= i < n ==> rows[..n][i] == rows[i];
      if rows[n].category in prev then prev else prev + [rows[n].category]
  }

  /** One output row of `SELECT category, SUM(...)` or `AVG(...)` with `GROUP BY category`. */
  datatype Group = Group(category: string, value: real)

  /** `SUM(amount_cents)` per category. SQL gives groups no order without ORDER BY;
      the model lists them in order of first occurrence. */
  function SumByCategory(rows: seq<Row>): (groups: seq<Group>)
    ensures |groups| == |Categories(rows)|
    ensures forall i :: 0 <= i < |groups| ==>
      groups[i].category == Categories(rows)[i] && groups[i].value == CategorySum(rows, groups[i].category) as real
  {
    var cats := Categories(rows);
    seq(|cats|, i requires 0 <= i < |cats| => Group(cats[i], CategorySum(rows, cats[i]) as real))
  }

  /** `AVG(amount_cents)` per category: the category's total over its row count. */
  function AverageByCategory(rows: seq<Row>): (groups: seq<Group>)
    ensures |groups| == |Categories(rows)|
    ensures forall i :: 0 <= i < |groups| ==> groups[i].category == Categories(rows)[i]
  {
    var cats := Categories(rows);
    seq(|cats|, i requires 0 <= i < |cats| =>
      Group(cats[i], CategorySum(rows, cats[i]) as real / CategoryCount(rows, cats[i]) as real))
  }

  /** The sum of the values of groups. */
  function GroupTotal(groups: seq<Group>): real
  {
    if groups == [] then 0.0 else GroupTotal(groups[..|groups| - 1]) + groups[|groups| - 1].value
  }

  /** Sum of the per-category totals over a list of categories. */
  function SumOver(rows: seq<Row>, cats: seq<string>): int
  {
    if cats == [] then 0 else SumOver(rows, cats[..|cats| - 1]) + CategorySum(rows, cats[|cats| - 1])
  }

  /** Adding one row adds its amount to the category totals it belongs to. */
  lemma {:induction false} SumOverSnoc(rows: seq<Row>, r: Row, cats: seq<string>)
    ensures SumOver(rows + [r], cats) == SumOver(rows, cats) + r.amountCents * CountOf(cats, r.category)
  {
    assert (rows + [r])[..|rows|] == rows;
    if cats != [] {
      SumOverSnoc(rows, r, cats[..|cats| - 1]);
    }
  }

  /** Number of times `c` occurs in `cats`. */
  function CountOf(cats: seq<string>, c: string): nat
  {
    if cats == [] then 0 else CountOf(cats[..|cats| - 1], c) + (if cats[|cats| - 1] == c then 1 else 0)
  }

  lemma {:induction false} CountOfDistinct(cats: seq<string>, c: string)
    requires Distinct(cats)
    ensures CountOf(cats, c) == (if c in cats then 1 else 0)
  {
    if cats != [] {
      var p := cats[..|cats| - 1];
      assert Distinct(p);
      CountOfDistinct(p, c);
      assert cats == p + [cats[|cats| - 1]];
      if cats[|cats| - 1] == c {
        assert c !in p;
      }
    }
  }

  /** Summing the totals of every category that occurs (each once) gives the grand total. */
  lemma {:induction false} GroupedSum(rows: seq<Row>, cats: seq<string>)
    requires Distinct(cats)
    requires forall i :: 0 <= i < |rows| ==> rows[i].category in cats
    ensures SumOver(rows, cats) == SumCents(rows)
  {
    if rows == [] {
      SumOverEmpty(cats);
    } else {
      var n := |rows| - 1;
      var p := rows[..n];
      assert rows == p + [rows[n]];
      GroupedSum(p, cats);
      SumOverSnoc(p, rows[n], cats);
      CountOfDistinct(cats, rows[n].category);
    }
  }

  lemma {:induction false} SumOverEmpty(cats: seq<string>)
    ensures SumOver([], cats) == 0
  {
    if cats != [] {
      SumOverEmpty(cats[..|cats| - 1]);
    }
  }

  /** The per-category SUM rows add up to the overall SUM of the same rows. */
  lemma SumByCategoryTotal(rows: seq<Row>)
    ensures GroupTotal(SumByCategory(rows)) == SumCents(rows) as real
  {
    var cats := Categories(rows);
    var g := SumByCategory(rows);
    GroupedSum(rows, cats);
    GroupTotalPrefix(rows, cats, |cats|);
    assert g[..|cats|] == g;
    assert cats[..|cats|] == cats;
  }

  lemma {:induction false} GroupTotalPrefix(rows: seq<Row>, cats: seq<string>, k: nat)
    requires cats == Categories(rows) && k <= |cats|
    ensures GroupTotal(SumByCategory(rows)[..k]) == SumOver(rows, cats[..k]) as real
  {
    var g := SumByCategory(rows);
    if k > 0 {
      GroupTotalPrefix(rows, cats, k - 1);
      assert g[..k][..k - 1] == g[..k - 1];
      assert cats[..k][..k - 1] == cats[..k - 1];
    }
  }

  // ---------------------------------------------------------------- years

  predicate StrictlyDescending(s: seq<int>)
  {
    forall i, j :: 0 <= i < j < |s| ==> s[i] > s[j]
  }

  /** Insert `y` into a strictly descending list unless it is already there. */
  function InsertDescending(s: seq<int>, y: int): (r: seq<int>)
    requires StrictlyDescending(s)
    ensures StrictlyDescending(r)
    ensures forall x :: x in r <==> x in s || x == y
  {
    if s == [] then [y]
    else if s[0] == y then s
    else if s[0] < y then [y] + s
    else
      var rest := InsertDescending(s[1..], y);
      assert forall x :: x in rest ==> x < s[0] by {
        forall x | x in rest
          ensures x < s[0]
        {
          if x != y {
            var k :| 0 <= k < |s[1..]| && s[1..][k] == x;
            assert x == s[k + 1];
          }
        }
      }
      var r := [s[0]] + rest;
      assert StrictlyDescending(r) by {
        forall i, j | 0 <= i < j < |r|
          ensures r[i] > r[j]
        {
          assert r[j] == rest[j - 1] && rest[j - 1] in rest;
          if i > 0 {
            assert r[i] == rest[i - 1];
          }
        }
      }
      assert s == [s[0]] + s[1..];
      r
  }

  /** `SELECT DISTINCT CAST(strftime('%Y', date) AS INTEGER) ... WHERE user_id = ?
      ORDER BY year DESC`: each year of the user's expenses once, newest first. */
  function YearsOf(rows: seq<Row>, userId: int): (years: seq<int>)
    ensures StrictlyDescending(years)
    ensures forall y :: y in years <==>
      exists i :: 0 <= i < |rows| && rows[i].userId == userId && FourDigitYear(rows[i].date) && rows[i].date.year == y
  {
    if rows == [] then []
    else
      var n := |rows| - 1;
      var prev := YearsOf(rows[..n], userId);
      assert forall i :: 0 <= i < n ==> rows[..n][i] == rows[i];
      var r := rows[n];
      if r.userId == userId && FourDigitYear(r.date) then InsertDescending(prev, r.date.year) else prev
  }
}
