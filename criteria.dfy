/**
 * The repository's translation of a criteria array into SQL conditions and
 * named parameters (`buildConditions`). A criteria key is a column name,
 * optionally followed by whitespace and an operator; each entry becomes the
 * condition "`column` op :name" whose parameter name carries the entry's
 * position, so that two bounds on one column get different names.
 */
module Criteria {
  import opened Text
  import opened Wrappers

  /** A criteria value as the callers pass it: an integer or a string. */
  datatype Value = VInt(i: int) | VText(s: string)

  /** The operators a condition can use; `Eq` is the default `=`. */
  datatype Op = Eq | Ge | Le | Ne | Gt | Lt | Like

  /** The ordered criteria array: keys "column [operator]" with their values. */
  type Criteria = seq<(string, Value)>

  /** One SQL condition: "`column` op param". */
  datatype Condition = Condition(column: string, op: Op, param: string)

  function OpText(op: Op): string
  {
    match op
    case Eq => "="
    case Ge => ">="
    case Le => "<="
    case Ne => "<>"
    case Gt => ">"
    case Lt => "<"
    case Like => "LIKE"
  }

  /** The operator a text spells, `LIKE` in any letter case; `=` is not one of them. */
  function OpOf(t: string): (r: Option<Op>)
    ensures r.Some? ==> r.value != Eq && |t| == |OpText(r.value)|
  {
    if t == ">=" then Some(Ge)
    else if t == "<=" then Some(Le)
    else if t == "<>" then Some(Ne)
    else if t == ">" then Some(Gt)
    else if t == "<" then Some(Lt)
    else if |t| == 4 && Lower(t[0]) == 'l' && Lower(t[1]) == 'i' && Lower(t[2]) == 'k' && Lower(t[3]) == 'e' then Some(Like)
    else None
  }

  /** Every operator other than `=` is read back from its own text. */
  lemma OpOfText(op: Op)
    requires op != Eq
    ensures OpOf(OpText(op)) == Some(op)
  {

  }

  predicate AllSpace(s: string)
  {
    forall i :: 0 <= i < |s| ==> IsSpace(s[i])
  }

  /** Index of the last whitespace character of `s`, or -1 when there is none. */
  function LastSpace(s: string): (q: int)
    ensures -1 <= q < |s|
    ensures q >= 0 ==> IsSpace(s[q])
    ensures forall i :: q < i < |s| ==> !IsSpace(s[i])
  {
    if s == [] then -1
    else if IsSpace(s[|s| - 1]) then |s| - 1
    else LastSpace(s[..|s| - 1])
  }

  /** Index of the first line feed of `s`, or |s| when there is none. */
  function FirstLineFeed(s: string): (n: nat)
    ensures n <= |s|
    ensures forall i :: 0 <= i < n ==> s[i] != '\n'
    ensures n < |s| ==> s[n] == '\n'
  {
    if s == [] || s[0] == '\n' then 0 else 1 + FirstLineFeed(s[1..])
  }

  /**
   * How `preg_match('/^(.+)\s+(>=|<=|<>|>|<|LIKE)$/i', key)` splits a key into
   * column and operator, and the default (whole key, `=`) when it does not
   * match. The operator is the text after the last whitespace; the column is
   * the longest prefix (the `.+` is greedy, but `.` stops at a line feed) that
   * is followed only by whitespace up to the operator; `$` may also match
   * before one final line feed.
   */
  function ParseKey(key: string): (r: (string, Op))
    ensures r.1 == Eq ==> r.0 == key
    ensures r.1 != Eq ==> SplitsAs(KeyBody(key), r.0, r.1)
  {
    var body := KeyBody(key);
    var q := LastSpace(body);
    if q < 0 then (key, Eq)
    else
      match OpOf(body[q + 1..])
      case None => (key, Eq)
      case Some(op) =>
        var n := FirstLineFeed(body);
        var j := if n < q then n else q;
        if j >= 1 && AllSpace(body[j..q + 1]) then
          assert NoLineFeed(body[..j]);
          (body[..j], op)
        else (key, Eq)
  }

  /** The key without the one final line feed `$` may match before. */
  function KeyBody(key: string): (body: string)
    ensures |body| <= |key| && body == key[..|body|]
  {
    if key != [] && key[|key| - 1] == '\n' then key[..|key| - 1] else key
  }

  predicate NoLineFeed(s: string)
  {
    forall i :: 0 <= i < |s| ==> s[i] != '\n'
  }

  /** `body` is `column` (non-empty, without line feed), whitespace, then the text of `op`. */
  predicate SplitsAs(body: string, column: string, op: Op)
  {
    var opStart := |body| - |OpText(op)|;
    && 1 <= |column| < opStart
    && body[..|column|] == column
    && NoLineFeed(column)
    && AllSpace(body[|column|..opStart])
    && OpOf(body[opStart..]) == Some(op)
  }

  /** A key written as a column, one blank and an operator text reads back as that
      column and operator, whatever the column ends with. */
  lemma ParseKeyOfCondition(column: string, t: string)
    requires column != [] && OpOf(t).Some?
    requires forall i :: 0 <= i < |column| ==> column[i] != '\n'
    requires forall i :: 0 <= i < |t| ==> !IsSpace(t[i])
    ensures ParseKey(column + " " + t) == (column, OpOf(t).value)
  {
    var head := column + " ";
    var key := head + t;
    assert key[|key| - 1] == t[|t| - 1];
    LastSpaceAppend(head, t);
    assert LastSpace(key) == |column|;
    assert key[|column| + 1..] == t;
    assert forall i :: 0 <= i < |head| ==> key[i] == head[i] && head[i] != '\n';
    assert FirstLineFeed(key) >= |head|;
    assert key[|column|..|column| + 1] == " ";
    assert key[..|column|] == column;
  }

  /** A key without whitespace is a column compared with `=`. */
  lemma ParseKeyWithoutSpace(key: string)
    requires forall i :: 0 <= i < |key| ==> !IsSpace(key[i])
    ensures ParseKey(key) == (key, Eq)
  {
    if key != [] {
      assert !IsSpace(key[|key| - 1]);
    }
  }

  /** PCRE's greedy match: whenever the key splits as a column, whitespace and
      an operator, `ParseKey` finds that operator and a column at least as long
      as any other split's. With `ParseKey`'s own contract, the key is read with
      the longest column the pattern allows. */
  lemma ParseKeyGreedy(key: string, column: string, op: Op)
    requires SplitsAs(KeyBody(key), column, op)
    ensures ParseKey(key).1 == op
    ensures |column| <= |ParseKey(key).0|
  {
    var body := KeyBody(key);
    var opStart := |body| - |OpText(op)|;
    var t := body[opStart..];
    OpOfWithoutSpace(t);
    forall i | opStart <= i < |body|
      ensures !IsSpace(body[i])
    {
      assert body[i] == t[i - opStart];
    }
    LastSpaceBeforeOperator(body, |column|, opStart);
    ColumnEnd(body, column, opStart);
    var n := FirstLineFeed(body);
    ParseKeyFound(key, op, opStart, if n < opStart - 1 then n else opStart - 1);
  }

  /** When only whitespace lies between `columnEnd` and `opStart`, and none
      after it, the last whitespace is just before `opStart`. */
  lemma LastSpaceBeforeOperator(body: string, columnEnd: nat, opStart: nat)
    requires columnEnd < opStart <= |body|
    requires AllSpace(body[columnEnd..opStart])
    requires forall i :: opStart <= i < |body| ==> !IsSpace(body[i])
    ensures LastSpace(body) == opStart - 1
  {
    assert body[columnEnd..opStart][opStart - 1 - columnEnd] == body[opStart - 1];
  }

  /** A column without line feed, followed only by whitespace up to `opStart`,
      ends no later than the first line feed and the last position before
      `opStart`, and only whitespace lies between the earlier of those two and
      `opStart`. */
  lemma ColumnEnd(body: string, column: string, opStart: nat)
    requires 1 <= |column| < opStart <= |body|
    requires body[..|column|] == column && NoLineFeed(column)
    requires AllSpace(body[|column|..opStart])
    ensures var n := FirstLineFeed(body);
      var j := if n < opStart - 1 then n else opStart - 1;
      |column| <= j && AllSpace(body[j..opStart])
  {
    var q := opStart - 1;
    var n := FirstLineFeed(body);
    assert forall i :: 0 <= i < |column| ==> body[i] == column[i];
    var j := if n < q then n else q;
    forall i | j <= i <= q
      ensures IsSpace(body[i])
    {
      assert body[|column|..opStart][i - |column|] == body[i];
    }
    assert AllSpace(body[j..opStart]);
  }

  /** `ParseKey`'s match branch, taken. */
  lemma ParseKeyFound(key: string, op: Op, opStart: nat, j: int)
    requires var body := KeyBody(key);
      var n := FirstLineFeed(body);
      && 1 <= opStart <= |body| && LastSpace(body) == opStart - 1 && OpOf(body[opStart..]) == Some(op)
      && j == (if n < opStart - 1 then n else opStart - 1) && j >= 1 && AllSpace(body[j..opStart])
    ensures ParseKey(key) == (KeyBody(key)[..j], op)
  {
  }

  /** The text of an operator contains no whitespace. */
  lemma OpOfWithoutSpace(t: string)
    requires OpOf(t).Some?
    ensures forall i :: 0 <= i < |t| ==> !IsSpace(t[i])
  {
  }

  /** The operator texts contain no whitespace. */
  lemma OpTextWithoutSpace(op: Op)
    ensures forall i :: 0 <= i < |OpText(op)| ==> !IsSpace(OpText(op)[i])
  {
  }

  /** The keys the services build: "date >=" and "date <" read as bounds on `date`. */
  lemma ParseKeyExamples()
    ensures ParseKey("date >=") == ("date", Ge)
    ensures ParseKey("date <") == ("date", Lt)
  {
    LowerBoundKeyParses();
    UpperBoundKeyParses();
  }

  /** "date >=" reads as a lower bound on `date`. */
  lemma LowerBoundKeyParses()
    ensures ParseKey("date >=") == ("date", Ge)
  {
    var date := "date";
    assert forall i :: 0 <= i < |date| ==> date[i] != '\n';
    OpOfText(Ge);
    OpTextWithoutSpace(Ge);
    ParseKeyOfCondition(date, OpText(Ge));
    assert date + " " + OpText(Ge) == "date >=";
  }

  /** "date <" reads as a strict upper bound on `date`. */
  lemma UpperBoundKeyParses()
    ensures ParseKey("date <") == ("date", Lt)
  {
    var date := "date";
    assert forall i :: 0 <= i < |date| ==> date[i] != '\n';
    OpOfText(Lt);
    OpTextWithoutSpace(Lt);
    ParseKeyOfCondition(date, OpText(Lt));
    assert date + " " + OpText(Lt) == "date <";
  }

  /** Appending text without whitespace leaves the last whitespace where it was. */
  lemma {:induction false} LastSpaceAppend(s: string, t: string)
    requires forall i :: 0 <= i < |t| ==> !IsSpace(t[i])
    ensures LastSpace(s + t) == LastSpace(s)
  {
    if t != [] {
      var u := t[..|t| - 1];
      assert (s + t)[..|s + t| - 1] == s + u;
      LastSpaceAppend(s, u);
    } else {
      assert s + t == s;
    }
  }

  /** The parameter name of entry `index`: ':' + key with every run of non-word
      characters replaced by '_' + the decimal index. */
  function ParamName(key: string, index: nat): (name: string)
    ensures |name| >= 2 && name[0] == ':'
  {
    ":" + Sanitize(key) + NatToString(index)
  }

  /** The index can be read back off the end of a name whose key does not end in a digit. */
  lemma {:induction false} ParamNameIndex(key: string, index: nat)
    requires !EndsWithDigit(key)
    ensures TrailingDigits(ParamName(key, index)) == NatToString(index)
  {
    var prefix := ":" + Sanitize(key);
    assert !EndsWithDigit(prefix) by {
      if Sanitize(key) != [] {
        assert prefix[|prefix| - 1] == Sanitize(key)[|Sanitize(key)| - 1];
      }
    }
    TrailingDigitsAppend(prefix, NatToString(index));
  }

  /** When no key ends in a digit, different positions get different parameter
      names, even for equal keys. */
  lemma ParamNamesDistinct(k1: string, i1: nat, k2: string, i2: nat)
    requires !EndsWithDigit(k1) && !EndsWithDigit(k2)
    requires i1 != i2
    ensures ParamName(k1, i1) != ParamName(k2, i2)
  {
    ParamNameIndex(k1, i1);
    ParamNameIndex(k2, i2);
    if NatToString(i1) == NatToString(i2) {
      NatToStringInjective(i1, i2);
    }
  }

  /** The digit condition is needed: a key ending in a digit can collide with a later position. */
  lemma ParamNameCollision()
    ensures ParamName("a1", 0) == ParamName("a", 10) == ":a10"
  {
    assert Sanitize("a1") == "a1" && Sanitize("a") == "a";
    assert NatToString(10) == NatToString(1) + [DigitChar(0)];
  }

  /** The condition built for entry `index` with key `key`. */
  function ConditionFor(key: string, index: nat): Condition
  {
    var split := ParseKey(key);
    Condition(split.0, split.1, ParamName(key, index))
  }

  /** The conditions, one per entry, in the criteria's order. */
  function Conditions(criteria: Criteria): (conds: seq<Condition>)
    ensures |conds| == |criteria|
    ensures forall i :: 0 <= i < |criteria| ==> conds[i] == ConditionFor(criteria[i].0, i)
  {
    seq(|criteria|, i requires 0 <= i < |criteria| => ConditionFor(criteria[i].0, i))
  }

  /** The parameter array: entry i binds its name to its value, later entries
      overwriting earlier ones that share a name. */
  function Params(criteria: Criteria): map<string, Value>
  {
    if criteria == [] then map[]
    else
      var n := |criteria| - 1;
      Params(criteria[..n])[ParamName(criteria[n].0, n) := criteria[n].1]
  }

  /** Every entry's parameter name is bound. */
  lemma {:induction false} ParamsDomain(criteria: Criteria, i: nat)
    requires i < |criteria|
    ensures ParamName(criteria[i].0, i) in Params(criteria)
  {
    var n := |criteria| - 1;
    if i < n {
      var p := criteria[..n];
      assert p[i] == criteria[i];
      ParamsDomain(p, i);
    }
  }

  /** A name that no entry produces is not bound. */
  lemma {:induction false} ParamsAbsent(criteria: Criteria, name: string)
    requires forall i :: 0 <= i < |criteria| ==> ParamName(criteria[i].0, i) != name
    ensures name !in Params(criteria)
  {
    if criteria != [] {
      var n := |criteria| - 1;
      var p := criteria[..n];
      assert forall i :: 0 <= i < n ==> p[i] == criteria[i];
      ParamsAbsent(p, name);
    }
  }

  /** A parameter name that no later entry reuses holds its own entry's value. */
  lemma {:induction false} ParamsLookup(criteria: Criteria, i: nat)
    requires i < |criteria|
    requires forall j :: i < j < |criteria| ==> ParamName(criteria[j].0, j) != ParamName(criteria[i].0, i)
    ensures ParamName(criteria[i].0, i) in Params(criteria)
    ensures Params(criteria)[ParamName(criteria[i].0, i)] == criteria[i].1
  {
    var n := |criteria| - 1;
    if i < n {
      var p := criteria[..n];
      assert p[i] == criteria[i];
      assert forall j :: i < j < |p| ==> p[j] == criteria[j];
      ParamsLookup(p, i);
    }
  }

  /** No key of the criteria ends in a digit. */
  predicate NoDigitEndings(criteria: Criteria)
  {
    forall i :: 0 <= i < |criteria| ==> !EndsWithDigit(criteria[i].0)
  }

  /** With no key ending in a digit there is exactly one parameter per entry. */
  lemma {:induction false} ParamsSize(criteria: Criteria)
    requires NoDigitEndings(criteria)
    ensures |Params(criteria)| == |criteria|
  {
    if criteria != [] {
      var n := |criteria| - 1;
      var p := criteria[..n];
      assert forall i :: 0 <= i < n ==> p[i] == criteria[i];
      ParamsSize(p);
      var last := ParamName(criteria[n].0, n);
      forall i | 0 <= i < n
        ensures ParamName(p[i].0, i) != last
      {
        ParamNamesDistinct(p[i].0, i, criteria[n].0, n);
      }
      ParamsAbsent(p, last);
    }
  }

  /** With no key ending in a digit, every condition's parameter is bound to
      that entry's own value. */
  lemma ParamsOfConditions(criteria: Criteria)
    requires NoDigitEndings(criteria)
    ensures forall i :: 0 <= i < |criteria| ==>
      Conditions(criteria)[i].param in Params(criteria) && Params(criteria)[Conditions(criteria)[i].param] == criteria[i].1
  {
    forall i | 0 <= i < |criteria|
      ensures Conditions(criteria)[i].param in Params(criteria)
      ensures Params(criteria)[Conditions(criteria)[i].param] == criteria[i].1
    {
      forall j | i < j < |criteria|
        ensures ParamName(criteria[j].0, j) != ParamName(criteria[i].0, i)
      {
        ParamNamesDistinct(criteria[j].0, j, criteria[i].0, i);
      }
      ParamsLookup(criteria, i);
    }
  }

  /** `buildConditions`: walks the criteria in order, appending one condition and
      binding one parameter per entry. */
  method BuildConditions(criteria: Criteria) returns (conds: seq<Condition>, params: map<string, Value>)
    ensures conds == Conditions(criteria)
    ensures params == Params(criteria)
  {
    var index := 0;
    conds := [];
    params := map[];
    while index < |criteria|
      invariant 0 <= index <= |criteria|
      invariant conds == Conditions(criteria[..index])
      invariant params == Params(criteria[..index])
    {
      var colOp, val := criteria[index].0, criteria[index].1;
      conds := conds + [ConditionFor(colOp, index)];
      params := params[ParamName(colOp, index) := val];
      ConditionsStep(criteria, index);
      ParamsStep(criteria, index);
      index := index + 1;
    }
    assert criteria[..index] == criteria;
  }

  /** One more entry adds its own condition at the end. */
  lemma ConditionsStep(criteria: Criteria, k: nat)
    requires k < |criteria|
    ensures Conditions(criteria[..k + 1]) == Conditions(criteria[..k]) + [ConditionFor(criteria[k].0, k)]
  {
    var prefix := criteria[..k + 1];
    var prev := Conditions(criteria[..k]);
    var next := prev + [ConditionFor(criteria[k].0, k)];
    forall i | 0 <= i < k + 1
      ensures Conditions(prefix)[i] == next[i]
    {
      var key := criteria[i].0;
      assert prefix[i].0 == key;
      assert Conditions(prefix)[i] == ConditionFor(key, i);
      if i < k {
        assert criteria[..k][i].0 == key;
        assert next[i] == prev[i] == ConditionFor(key, i);
      } else {
        assert next[i] == ConditionFor(key, i);
      }
    }
  }

  /** One more entry binds one more name in the parameter array. */
  lemma ParamsStep(criteria: Criteria, k: nat)
    requires k < |criteria|
    ensures Params(criteria[..k + 1]) == Params(criteria[..k])[ParamName(criteria[k].0, k) := criteria[k].1]
  {
    assert criteria[..k + 1][..k] == criteria[..k];
  }
}
