/**
 * The arithmetic of the expense list page: which page is asked for, the
 * last page, the "from–to" range shown under the list, and the category
 * list read from the comma-separated configuration value.
 */
module Controller {
  import opened Wrappers
  import opened Text
  import opened Entity
  import opened Query

  /** The page size when the request does not give one. */
  const PageSize: int := 20

  /** What `index` computes: the page it asks `list` for, the page size, the
      page and last page it shows, and the range of positions it shows. */
  datatype Pagination = Pagination(listPage: int, pageSize: int, page: int, lastPage: int, from: int, to: int)

  function Min(a: int, b: int): int
  {
    if a <= b then a else b
  }

  /** PHP's `(int)($count / $size)` for a count: the quotient truncated towards zero. */
  function TruncDiv(count: nat, size: int): int
    requires size != 0
  {
    if size > 0 then count / size else -(count / -size)
  }

  /** PHP's `$count % $size`: the remainder takes the dividend's sign, so it is never negative here. */
  function TruncMod(count: nat, size: int): nat
    requires size != 0
  {
    if size > 0 then count % size else count % -size
  }

  /** `$lastPage`: the quotient, one more when there is a remainder; `None`
      where PHP throws a DivisionByZeroError. */
  function LastPage(count: nat, size: int): Option<int>
  {
    if size == 0 then None
    else Some(TruncDiv(count, size) + (if TruncMod(count, size) != 0 then 1 else 0))
  }

  /** For a positive page size the last page is the ceiling of count / size:
      enough pages for every expense, and no empty page at the end. */
  lemma LastPageCeiling(count: nat, size: int)
    requires size > 0
    ensures LastPage(count, size).Some?
    ensures var last := LastPage(count, size).value;
      && last >= 0
      && count <= last * size
      && (count > 0 ==> (last - 1) * size < count)
      && (count == 0 ==> last == 0)
  {
    var q, r := count / size, count % size;
    assert count == q * size + r;
    if r != 0 {
      assert (q + 1) * size == q * size + size;
    }
  }

  /**
   * `index`: the page (1 when not given, 1 when negative, 0 kept), the page
   * size (20 when not given), the page handed to `list` at that point, then,
   * after `countBy`, the last page, the page clamped to it, and `from`/`to`.
   * `None` for a parameter means the query does not carry it; the texts are
   * already cast to integers.
   */
  function Paginate(pageParam: Option<int>, sizeParam: Option<int>, count: nat): (r: Result<Pagination, string>)
    ensures var size := if sizeParam.Some? then sizeParam.value else PageSize;
      r.Failure? <==> size == 0
    ensures r.Success? ==>
      var p := r.value;
      && p.listPage >= 0
      && (pageParam.None? ==> p.listPage == 1)
      && (pageParam.Some? ==> p.listPage == if pageParam.value < 0 then 1 else pageParam.value)
      && Some(p.lastPage) == LastPage(count, p.pageSize)
      && p.page <= p.lastPage && p.page <= p.listPage && (p.page == p.listPage || p.page == p.lastPage)
      && p.pageSize == (if sizeParam.Some? then sizeParam.value else PageSize)
      && p.page == Min(p.listPage, p.lastPage)
      && p.from == (p.page - 1) * p.pageSize + 1
      && p.to == Min(p.page * p.pageSize, count)
      && p.to <= count
  {
    var page := if pageParam.Some? then pageParam.value else 1;
    var size := if sizeParam.Some? then sizeParam.value else PageSize;
    var page := if page < 0 then 1 else page;
    var listPage := page;
    if size == 0 then Failure("Division by zero")
    else
      var lastPage := TruncDiv(count, size) + (if TruncMod(count, size) != 0 then 1 else 0);
      var page := Min(page, lastPage);
      Success(Pagination(listPage, size, page, lastPage, (page - 1) * size + 1, Min(page * size, count)))
  }

  /** `k` pages of `size` and one more page. */
  lemma NextPage(k: int, size: int)
    ensures (k + 1) * size == k * size + size
  {
  }

  /** More pages cover more positions. */
  lemma MorePages(a: int, b: int, size: int)
    requires a <= b && size >= 0
    ensures a * size <= b * size
  {
  }

  /** With a positive page size, some expenses and a page from 1 on, the range
      shown is not empty: 1 <= from <= to. */
  lemma PaginateRange(pageParam: Option<int>, sizeParam: Option<int>, count: nat)
    requires Paginate(pageParam, sizeParam, count).Success?
    requires var p := Paginate(pageParam, sizeParam, count).value; p.pageSize > 0 && count > 0 && p.listPage >= 1
    ensures var p := Paginate(pageParam, sizeParam, count).value; 1 <= p.from <= p.to
  {
    var p := Paginate(pageParam, sizeParam, count).value;
    var size := p.pageSize;
    LastPageCeiling(count, size);
    assert 1 <= p.page <= p.lastPage;
    MorePages(p.page - 1, p.lastPage - 1, size);
    NextPage(p.page - 1, size);
    assert p.from == (p.page - 1) * size + 1 && p.to == Min(p.page * size, count);
  }

  /** The page `list` returns lies past the count when the requested page is
      past the last one, so the list is empty while the range shown under it
      is the last page's: with 25 expenses and 20 per page, page 5 shows no
      rows above "21–25". */
  lemma PastLastPageListsNothing(rows: seq<Row>, pageParam: int, size: int)
    requires size > 0 && |rows| > 0
    requires var p := Paginate(Some(pageParam), Some(size), |rows|).value; p.listPage > p.lastPage
    ensures var p := Paginate(Some(pageParam), Some(size), |rows|).value;
      && Page(rows, (p.listPage - 1) * p.pageSize, p.pageSize) == []
      && 1 <= p.from <= p.to == |rows|
  {
    var p := Paginate(Some(pageParam), Some(size), |rows|).value;
    LastPageCeiling(|rows|, size);
    MorePages(p.lastPage, p.listPage - 1, size);
    assert (p.listPage - 1) * p.pageSize >= |rows|;
    PaginateRange(Some(pageParam), Some(size), |rows|);
    assert p.page == p.lastPage;
  }

  /** The example above, worked out. */
  lemma PastLastPageExample(rows: seq<Row>)
    requires |rows| == 25
    ensures var p := Paginate(Some(5), Some(20), 25).value;
      p.listPage == 5 && p.page == 2 && p.from == 21 && p.to == 25 &&
      Page(rows, (p.listPage - 1) * p.pageSize, p.pageSize) == []
  {
    PastLastPageListsNothing(rows, 5, 20);
  }

  /** `index` with the page clamped to [1, last page] before `list` is asked
      for it, so that the rows listed are the range shown. */
  function PaginateClamped(pageParam: Option<int>, sizeParam: Option<int>, count: nat): (r: Result<Pagination, string>)
    ensures var size := if sizeParam.Some? then sizeParam.value else PageSize;
      r.Failure? <==> size == 0
    ensures r.Success? ==> r.value.listPage == r.value.page && 1 <= r.value.page
  {
    var page := if pageParam.Some? then pageParam.value else 1;
    var size := if sizeParam.Some? then sizeParam.value else PageSize;
    if size == 0 then Failure("Division by zero")
    else
      var lastPage := TruncDiv(count, size) + (if TruncMod(count, size) != 0 then 1 else 0);
      var page := if page < 1 then 1 else if page > lastPage then (if lastPage >= 1 then lastPage else 1) else page;
      Success(Pagination(page, size, page, lastPage, (page - 1) * size + 1, Min(page * size, count)))
  }

  /** With the clamped page and a positive page size, `list` returns exactly
      the rows at positions `from` to `to` (counting from 1) of the matching rows. */
  lemma ClampedPageIsRange(rows: seq<Row>, pageParam: Option<int>, size: int)
    requires size > 0
    ensures var p := PaginateClamped(pageParam, Some(size), |rows|).value;
      && 1 <= p.from && p.from - 1 <= p.to <= |rows|
      && Page(rows, (p.listPage - 1) * p.pageSize, p.pageSize) == rows[p.from - 1..p.to]
  {
    var p := PaginateClamped(pageParam, Some(size), |rows|).value;
    var count := |rows|;
    LastPageCeiling(count, size);
    var start := (p.page - 1) * size;
    MorePages(0, p.page - 1, size);
    NextPage(p.page - 1, size);
    if count == 0 {
      assert p.page == 1;
    } else {
      assert 1 <= p.page <= p.lastPage;
      MorePages(p.page - 1, p.lastPage - 1, size);
    }
    assert p.from - 1 == start && p.to == Min(start + size, count);
  }

  // ---------------------------------------------------------------- categories

  /** `array_map('trim', pieces)`. */
  function TrimAll(pieces: seq<string>): (ts: seq<string>)
    ensures |ts| == |pieces| && forall i :: 0 <= i < |pieces| ==> ts[i] == Trim(pieces[i])
  {
    seq(|pieces|, i requires 0 <= i < |pieces| => Trim(pieces[i]))
  }

  /** `array_filter(ts, fn($c) => $c !== '')`: the non-empty entries, in order. */
  function NonEmpty(ts: seq<string>): (kept: seq<string>)
    ensures |kept| <= |ts|
    ensures forall i :: 0 <= i < |kept| ==> kept[i] != []
  {
    if ts == [] then []
    else (if ts[0] != [] then [ts[0]] else []) + NonEmpty(ts[1..])
  }

  /** `getCategories`: the comma-separated configuration value (empty when
      unset), split, trimmed, and without empty entries. */
  function GetCategories(config: Option<string>): (cats: seq<string>)
    ensures forall i :: 0 <= i < |cats| ==> cats[i] != []
  {
    NonEmpty(TrimAll(Split(if config.Some? then config.value else "", ',')))
  }

  /** Filtering keeps exactly the non-empty entries. */
  lemma {:induction false} NonEmptyMembers(ts: seq<string>, c: string)
    ensures c in NonEmpty(ts) <==> c != [] && c in ts
  {
    if ts != [] {
      NonEmptyMembers(ts[1..], c);
      var head := if ts[0] != [] then [ts[0]] else [];
      assert NonEmpty(ts) == head + NonEmpty(ts[1..]);
      assert c in NonEmpty(ts) <==> c in head || c in NonEmpty(ts[1..]);
      assert c in ts <==> c == ts[0] || c in ts[1..] by {
        assert ts == [ts[0]] + ts[1..];
      }
    }
  }

  /** Entries that are all non-empty are kept as they are. */
  lemma {:induction false} NonEmptyKeeps(ts: seq<string>)
    requires forall i :: 0 <= i < |ts| ==> ts[i] != []
    ensures NonEmpty(ts) == ts
  {
    if ts != [] {
      NonEmptyKeeps(ts[1..]);
      assert [ts[0]] + ts[1..] == ts;
    }
  }

  /** A category is listed exactly when it is the non-empty trimmed form of
      one of the comma-separated pieces. */
  lemma CategoriesMembers(pieces: seq<string>, c: string)
    ensures c in NonEmpty(TrimAll(pieces)) <==> c != [] && exists i :: 0 <= i < |pieces| && Trim(pieces[i]) == c
  {
    var ts := TrimAll(pieces);
    NonEmptyMembers(ts, c);
    if exists i :: 0 <= i < |pieces| && Trim(pieces[i]) == c {
      var i :| 0 <= i < |pieces| && Trim(pieces[i]) == c;
      assert ts[i] == c;
    }
  }

  /** Every listed category is non-empty and already trimmed. */
  lemma CategoriesTrimmed(pieces: seq<string>, c: string)
    requires c in NonEmpty(TrimAll(pieces))
    ensures c != [] && Trim(c) == c
  {
    var ts := TrimAll(pieces);
    NonEmptyMembers(ts, c);
    var i :| 0 <= i < |ts| && ts[i] == c;
    TrimIdempotent(pieces[i]);
  }

  /** Writing a list of categories (non-empty, trimmed, without commas) into
      the configuration with commas reads back the same list in the same order. */
  lemma CategoriesRoundTrip(cats: seq<string>)
    requires forall i :: 0 <= i < |cats| ==> cats[i] != [] && Trim(cats[i]) == cats[i] && ',' !in cats[i]
    ensures GetCategories(Some(Join(cats, ','))) == cats
  {
    if cats == [] {
      NoCategories();
    } else {
      SplitJoin(cats, ',');
      TrimAllTrimmed(cats);
      NonEmptyKeeps(cats);
    }
  }

  /** Trimming pieces that are already trimmed changes none of them. */
  lemma TrimAllTrimmed(pieces: seq<string>)
    requires forall i :: 0 <= i < |pieces| ==> Trim(pieces[i]) == pieces[i]
    ensures TrimAll(pieces) == pieces
  {
    var ts := TrimAll(pieces);
    forall i | 0 <= i < |pieces|
      ensures ts[i] == pieces[i]
    {
    }
  }

  /** An unset or empty configuration value gives no categories. */
  lemma NoCategories()
    ensures GetCategories(None) == [] && GetCategories(Some("")) == []
  {
    var e: string := [];
    var pieces := Split(e, ',');
    assert pieces == [e];
    var ts := TrimAll(pieces);
    assert ts[0] == Trim(e) == e;
    assert ts == [e];
    assert NonEmpty(ts) == [] + NonEmpty(ts[1..]);
  }
}
