/**
 * The listing helpers of `core/pagination.py`: the `Pagination` value with its
 * derived properties, the page-window generator `iter_pages`, the parameter
 * assembly of `paginate_query` and `FilterHelper.build_where_clause`.
 */
module Pagination {
  import opened Wrappers
  import opened Values
  import opened Strings

  // ---------------------------------------------------------------------------
  // Pagination

  /** A `Pagination` object after its constructor ran; it is never changed afterwards. */
  datatype Pager = Pager(page: int, perPage: int, total: int, pages: int)

  function Max(a: int, b: int): int {
    if a < b then b else a
  }

  /** The constructor: clamp page and page size to at least 1 and total to at least 0, then round total / per_page up. */
  function MakePager(page: int, perPage: int, total: int): (p: Pager)
    ensures p.page >= 1 && p.perPage >= 1 && p.total >= 0
    ensures p.page == Max(1, page) && p.perPage == Max(1, perPage) && p.total == Max(0, total)
    ensures p.pages >= 0 && p.pages * p.perPage >= p.total
    ensures p.total > 0 ==> (p.pages - 1) * p.perPage < p.total
    ensures p.pages == 0 <==> p.total == 0
  {
    var pp := Max(1, perPage);
    var t := Max(0, total);
    Pager(Max(1, page), pp, t, (t + pp - 1) / pp)
  }

  /** `has_prev`. */
  predicate HasPrev(p: Pager) {
    p.page > 1
  }

  /** `has_next`. */
  predicate HasNext(p: Pager) {
    p.page < p.pages
  }

  /** `prev_num`: the previous page, when there is one. */
  function PrevNum(p: Pager): (r: Option<int>)
    requires p.page >= 1
    ensures r.Some? <==> HasPrev(p)
    ensures r.Some? ==> 1 <= r.value && r.value + 1 == p.page
  {
    if HasPrev(p) then Some(p.page - 1) else None
  }

  /** `next_num`: the next page, when there is one. */
  function NextNum(p: Pager): (r: Option<int>)
    ensures r.Some? <==> HasNext(p)
    ensures r.Some? ==> r.value <= p.pages && r.value - 1 == p.page
  {
    if HasNext(p) then Some(p.page + 1) else None
  }

  /** `offset`: the rows of the pages before the current one. */
  function Offset(p: Pager): (o: int)
    requires p.page >= 1 && p.perPage >= 1
    ensures o >= p.page - 1 >= 0
  {
    MulMonotone(1, p.perPage, p.page - 1);
    (p.page - 1) * p.perPage
  }

  /** `limit`. */
  function Limit(p: Pager): int {
    p.perPage
  }

  /**
   * The page is not clamped to `pages`: a page past the last has no next page and an
   * offset at or beyond the total, so the query returns no rows.
   */
  lemma PageBeyondLast(page: int, perPage: int, total: int)
    requires page > MakePager(page, perPage, total).pages
    ensures var p := MakePager(page, perPage, total);
      !HasNext(p) && NextNum(p).None? && Offset(p) >= p.total
  {
    var p := MakePager(page, perPage, total);
    assert Offset(p) >= p.pages * p.perPage by {
      assert p.page - 1 >= p.pages;
      MulMonotone(p.pages, p.page - 1, p.perPage);
    }
  }

  lemma MulMonotone(a: int, b: int, c: int)
    requires 0 <= a <= b && c >= 0
    ensures a * c <= b * c
  {
  }

  /** Within the pages, the current page starts inside the rows: `offset < total`. */
  lemma PageWithinRange(p: Pager)
    requires p == MakePager(p.page, p.perPage, p.total) && p.page <= p.pages
    ensures Offset(p) < p.total
  {
    MulMonotone(p.page - 1, p.pages - 1, p.perPage);
  }

  // ---------------------------------------------------------------------------
  // The page window

  /** The four `iter_pages` arguments. */
  datatype Window = Window(leftEdge: int, leftCurrent: int, rightCurrent: int, rightEdge: int)

  /** The defaults, two pages each. */
  const DEFAULT_WINDOW: Window := Window(2, 2, 2, 2)

  /** Whether `iter_pages` shows a page: near the left edge, around the current page, or near the right edge. */
  predicate Shown(p: Pager, w: Window, num: int) {
    num <= w.leftEdge ||
    (num > p.page - w.leftCurrent - 1 && num < p.page + w.rightCurrent) ||
    num > p.pages - w.rightEdge
  }

  /** The page numbers in the output, in order, strictly increase. */
  predicate Increasing(out: seq<Option<int>>) {
    forall i, j :: 0 <= i < j < |out| && out[i].Some? && out[j].Some? ==> out[i].value < out[j].value
  }

  /** Every gap marker stands between two numbers that do not follow each other (or before a first number above 1). */
  predicate GapsMarked(out: seq<Option<int>>) {
    forall i :: 0 <= i < |out| && out[i].None? ==>
      i + 1 < |out| && out[i + 1].Some? &&
      (if i == 0 then out[1].value != 1 else out[i - 1].Some? && out[i - 1].value + 1 != out[i + 1].value)
  }

  /** Numbers that are not separated by a gap marker follow each other, and an unmarked first number is 1. */
  predicate NoSilentGap(out: seq<Option<int>>) {
    (|out| > 0 && out[0].Some? ==> out[0].value == 1) &&
    forall i :: 0 <= i < |out| - 1 && out[i].Some? && out[i + 1].Some? ==> out[i + 1].value == out[i].value + 1
  }

  /** The shape of the output so far, whose last number is `last` (0 before any). */
  predicate Shape(out: seq<Option<int>>, last: int) {
    (if out == [] then last == 0 else last >= 1 && out[|out| - 1] == Some(last)) &&
    (forall i :: 0 <= i < |out| && out[i].Some? ==> 1 <= out[i].value <= last) &&
    Increasing(out) && GapsMarked(out) && NoSilentGap(out)
  }

  /** One step of `iter_pages`: a marker when `num` does not follow `last`, then `num`. */
  function Emit(last: int, num: int): seq<Option<int>> {
    (if last + 1 != num then [None] else []) + [Some(num)]
  }

  lemma EmitKeepsIncreasing(out: seq<Option<int>>, last: int, num: int)
    requires Shape(out, last) && last < num
    ensures Increasing(out + Emit(last, num))
  {
    var r := out + Emit(last, num);
    forall i, j | 0 <= i < j < |r| && r[i].Some? && r[j].Some?
      ensures r[i].value < r[j].value
    {
      if j >= |out| {
        assert r[j] == Some(num);
        if i < |out| {
          assert r[i] == out[i];
        }
      }
    }
  }

  lemma EmitKeepsGaps(out: seq<Option<int>>, last: int, num: int)
    requires Shape(out, last) && last < num && num >= 1
    ensures GapsMarked(out + Emit(last, num))
  {
    var r := out + Emit(last, num);
    forall i | 0 <= i < |r| && r[i].None?
      ensures i + 1 < |r| && r[i + 1].Some?
      ensures if i == 0 then r[1].value != 1 else r[i - 1].Some? && r[i - 1].value + 1 != r[i + 1].value
    {
      if i < |out| {
        assert r[i] == out[i] && out[i].None?;
        assert i + 1 < |out| && out[i + 1].Some?;
        assert r[i + 1] == out[i + 1];
        if i > 0 {
          assert r[i - 1] == out[i - 1];
        }
      } else {
        assert i == |out| && last + 1 != num && r[i + 1] == Some(num);
        if i > 0 {
          assert r[i - 1] == out[|out| - 1] == Some(last);
        } else {
          assert last == 0;
        }
      }
    }
  }

  lemma EmitKeepsNoSilentGap(out: seq<Option<int>>, last: int, num: int)
    requires Shape(out, last) && last < num
    ensures NoSilentGap(out + Emit(last, num))
  {
    var r := out + Emit(last, num);
    forall i | 0 <= i < |r| - 1 && r[i].Some? && r[i + 1].Some?
      ensures r[i + 1].value == r[i].value + 1
    {
      if i + 1 < |out| {
        assert r[i] == out[i] && r[i + 1] == out[i + 1];
      }
    }
  }

  lemma EmitKeepsShape(out: seq<Option<int>>, last: int, num: int)
    requires Shape(out, last) && last < num && num >= 1
    ensures Shape(out + Emit(last, num), num)
  {
    EmitKeepsIncreasing(out, last, num);
    EmitKeepsGaps(out, last, num);
    EmitKeepsNoSilentGap(out, last, num);
    var r := out + Emit(last, num);
    forall i | 0 <= i < |r| && r[i].Some?
      ensures 1 <= r[i].value <= num
    {
      if i < |out| {
        assert r[i] == out[i];
      } else {
        assert r[i] == Some(num);
      }
    }
  }

  /**
   * `iter_pages`: every shown page of `1..pages` in order, with a `None` before each
   * page that does not follow the previously yielded one.
   */
  method IterPages(p: Pager, w: Window) returns (out: seq<Option<int>>)
    ensures forall i :: 0 <= i < |out| && out[i].Some? ==> 1 <= out[i].value <= p.pages && Shown(p, w, out[i].value)
    ensures forall num :: 1 <= num <= p.pages && Shown(p, w, num) ==> Some(num) in out
    ensures Increasing(out) && GapsMarked(out) && NoSilentGap(out)
    ensures |out| > 0 ==> out[|out| - 1].Some?
  {
    out := [];
    var last := 0;
    var num := 1;
    while num <= p.pages
      invariant 1 <= num && (p.pages >= 0 ==> num <= p.pages + 1)
      invariant Shape(out, last) && last < num
      invariant OnlyShown(p, w, out) && CoversBelow(p, w, out, num)
    {
      if Shown(p, w, num) {
        EmitKeepsShape(out, last, num);
        EmitKeepsCoverage(p, w, out, last, num);
        out := out + Emit(last, num);
        last := num;
      }
      num := num + 1;
    }
  }

  /** Every number in the output is a shown page. */
  predicate OnlyShown(p: Pager, w: Window, out: seq<Option<int>>) {
    forall i :: 0 <= i < |out| && out[i].Some? ==> out[i].value <= p.pages && Shown(p, w, out[i].value)
  }

  /** Every shown page below `num` is in the output. */
  predicate CoversBelow(p: Pager, w: Window, out: seq<Option<int>>, num: int) {
    forall m :: 1 <= m < num && Shown(p, w, m) ==> Some(m) in out
  }

  /** Emitting a shown page keeps the output to shown pages and covers that page too. */
  lemma EmitKeepsCoverage(p: Pager, w: Window, out: seq<Option<int>>, last: int, num: int)
    requires num <= p.pages && Shown(p, w, num)
    requires OnlyShown(p, w, out) && CoversBelow(p, w, out, num)
    ensures OnlyShown(p, w, out + Emit(last, num)) && CoversBelow(p, w, out + Emit(last, num), num + 1)
  {
    var r := out + Emit(last, num);
    assert r[|r| - 1] == Some(num);
    forall i | 0 <= i < |r| && r[i].Some?
      ensures r[i].value <= p.pages && Shown(p, w, r[i].value)
    {
      if i < |out| {
        assert r[i] == out[i];
      }
    }
    forall m | 1 <= m < num + 1 && Shown(p, w, m)
      ensures Some(m) in r
    {
      if m < num {
        var i :| 0 <= i < |out| && out[i] == Some(m);
        assert r[i] == Some(m);
      }
    }
  }

  // ---------------------------------------------------------------------------
  // paginate_query

  /** The count query: the one given, else a `COUNT(*)` over the query as a subquery. */
  function CountQuery(query: string, given: Option<string>): (q: string)
    ensures given.Some? ==> q == given.value
    ensures given.None? ==> q == "SELECT COUNT(*) as total FROM (" + query + ") as subquery"
  {
    match given
    case Some(c) => c
    case None => "SELECT COUNT(*) as total FROM (" + query + ") as subquery"
  }

  /** `result['total'] if result and 'total' in result else 0`: a missing or empty row counts as 0. */
  function TotalOf(result: Option<map<string, int>>): (t: int)
    ensures result.None? || "total" !in result.value ==> t == 0
    ensures result.Some? && "total" in result.value ==> t == result.value["total"]
  {
    if result.Some? && result.value != map[] && "total" in result.value then result.value["total"] else 0
  }

  /** `paginate_query` once the count row `result` is known. */
  function PaginateQuery(query: string, params: seq<Value>, page: int, perPage: int, result: Option<map<string, int>>)
    : (r: (string, seq<Value>, Pager))
    ensures r.0 == query + " LIMIT %s OFFSET %s"
    ensures r.2 == MakePager(page, perPage, TotalOf(result))
    ensures |r.1| == |params| + 2 && r.1[..|params|] == params
    ensures r.1[|params|] == VInt(r.2.perPage) && r.1[|params| + 1] == VInt(Offset(r.2))
  {
    var p := MakePager(page, perPage, TotalOf(result));
    (query + " LIMIT %s OFFSET %s", params + [VInt(Limit(p)), VInt(Offset(p))], p)
  }

  /** The appended parameters select exactly the rows of the current page of the counted total. */
  lemma PaginateQueryWindow(query: string, params: seq<Value>, page: int, perPage: int, result: Option<map<string, int>>)
    ensures var r := PaginateQuery(query, params, page, perPage, result);
      var limit, offset := r.1[|params|].i, r.1[|params| + 1].i;
      limit >= 1 && offset >= 0 && offset == (r.2.page - 1) * limit &&
      (r.2.page <= r.2.pages ==> offset < r.2.total)
  {
    var r := PaginateQuery(query, params, page, perPage, result);
    if r.2.page <= r.2.pages {
      PageWithinRange(r.2);
    }
  }

  // ---------------------------------------------------------------------------
  // FilterHelper.build_where_clause

  /** The filter keys reserved for free-text search, which the builder leaves to its caller. */
  predicate IsSearchKey(key: string) {
    key == "busca" || key == "search" || key == "q"
  }

  /** `field_mappings.get(k, k)`. */
  function FieldOf(mappings: map<string, string>, key: string): string {
    if key in mappings then mappings[key] else key
  }

  /** `f"{value}"` for the values a filter carries; bytes are not rendered. */
  function Render(v: Value): string {
    match v
    case VNone => "None"
    case VBool(b) => if b then "True" else "False"
    case VInt(i) => IntToString(i)
    case VStr(s) => s
    case VBytes(_) => ""
  }

  /** The condition and parameter one filter entry contributes, if any. */
  function Clause(key: string, value: Value, mappings: map<string, string>): (r: Option<(string, Value)>)
    ensures r.None? <==> value == VNone || value == VStr("") || IsSearchKey(key)
  {
    if value == VNone || value == VStr("") then None
    else if IsSearchKey(key) then None
    else if EndsWith(key, "_min") then Some((FieldOf(mappings, key[..|key| - 4]) + " >= %s", value))
    else if EndsWith(key, "_max") then Some((FieldOf(mappings, key[..|key| - 4]) + " <= %s", value))
    else if EndsWith(key, "_like") then Some((FieldOf(mappings, key[..|key| - 5]) + " ILIKE %s", VStr("%" + Render(value) + "%")))
    else Some((FieldOf(mappings, key) + " = %s", value))
  }

  /**
   * The condition an entry contributes: `_min` and `_max` suffixes compare the mapped
   * field, `_like` matches it case-insensitively anywhere, and any other key tests equality.
   */
  lemma ClauseShape(key: string, value: Value, mappings: map<string, string>)
    ensures var r := Clause(key, value, mappings);
      && (r.Some? && EndsWith(key, "_min") ==>
            r.value == (FieldOf(mappings, key[..|key| - 4]) + " >= %s", value))
      && (r.Some? && EndsWith(key, "_max") ==>
            r.value == (FieldOf(mappings, key[..|key| - 4]) + " <= %s", value))
      && (r.Some? && EndsWith(key, "_like") ==>
            r.value == (FieldOf(mappings, key[..|key| - 5]) + " ILIKE %s", VStr("%" + Render(value) + "%")))
      && (r.Some? && !EndsWith(key, "_min") && !EndsWith(key, "_max") && !EndsWith(key, "_like") ==>
            r.value == (FieldOf(mappings, key) + " = %s", value))
  {
  }

  /** The clauses of all entries, in the dictionary's order. */
  function Clauses(filters: seq<(string, Value)>, mappings: map<string, string>): (r: seq<(string, Value)>)
    ensures |r| <= |filters|
    ensures forall i :: 0 <= i < |r| ==> r[i].0 != ""
  {
    if filters == [] then []
    else
      var rest := Clauses(filters[1..], mappings);
      match Clause(filters[0].0, filters[0].1, mappings)
      case None => rest
      case Some(c) => [c] + rest
  }

  /** No clause remains exactly when every entry is skipped. */
  lemma {:induction false} ClausesEmpty(filters: seq<(string, Value)>, mappings: map<string, string>)
    ensures Clauses(filters, mappings) == [] <==> forall i :: 0 <= i < |filters| ==> Clause(filters[i].0, filters[i].1, mappings).None?
  {
    if filters != [] {
      ClausesEmpty(filters[1..], mappings);
      assert forall i :: 1 <= i < |filters| ==> filters[i] == filters[1..][i - 1];
    }
  }

  /** The condition texts of some clauses. */
  function Texts(cs: seq<(string, Value)>): (r: seq<string>)
    ensures |r| == |cs| && forall i :: 0 <= i < |cs| ==> r[i] == cs[i].0
  {
    if cs == [] then [] else [cs[0].0] + Texts(cs[1..])
  }

  /** The parameters of some clauses. */
  function ParamsOf(cs: seq<(string, Value)>): (r: seq<Value>)
    ensures |r| == |cs| && forall i :: 0 <= i < |cs| ==> r[i] == cs[i].1
  {
    if cs == [] then [] else [cs[0].1] + ParamsOf(cs[1..])
  }

  /**
   * `build_where_clause`: the conditions joined by `AND` (empty when none remain)
   * and one parameter per condition, in the order of the entries.
   */
  method BuildWhere(filters: seq<(string, Value)>, mappings: map<string, string>)
    returns (where: string, params: seq<Value>)
    ensures where == Join(Texts(Clauses(filters, mappings)), " AND ")
    ensures params == ParamsOf(Clauses(filters, mappings))
    ensures where == "" <==> forall i :: 0 <= i < |filters| ==> Clause(filters[i].0, filters[i].1, mappings).None?
  {
    var conds: seq<string> := [];
    params := [];
    var k := 0;
    while k < |filters|
      invariant 0 <= k <= |filters|
      invariant conds == Texts(Clauses(filters[..k], mappings))
      invariant params == ParamsOf(Clauses(filters[..k], mappings))
    {
      var c := Clause(filters[k].0, filters[k].1, mappings);
      BuildWhereStep(filters, k, mappings);
      if c.Some? {
        conds := conds + [c.value.0];
        params := params + [c.value.1];
      }
      k := k + 1;
    }
    assert filters[..k] == filters;
    ClausesEmpty(filters, mappings);
    JoinEmpty(conds, " AND ");
    where := Join(conds, " AND ");
  }

  /** One loop step of `BuildWhere`: the entry at `k` adds its condition and its parameter, if any. */
  lemma BuildWhereStep(filters: seq<(string, Value)>, k: nat, mappings: map<string, string>)
    requires k < |filters|
    ensures var c := Clause(filters[k].0, filters[k].1, mappings);
      var before := Clauses(filters[..k], mappings);
      var after := Clauses(filters[..k + 1], mappings);
      && Texts(after) == Texts(before) + (if c.Some? then [c.value.0] else [])
      && ParamsOf(after) == ParamsOf(before) + (if c.Some? then [c.value.1] else [])
  {
    assert filters[..k + 1] == filters[..k] + [filters[k]];
    ClausesAppend(filters[..k], filters[k], mappings);
    var c := Clause(filters[k].0, filters[k].1, mappings);
    var before := Clauses(filters[..k], mappings);
    if c.Some? {
      ProjectionsAppend(before, c.value);
    }
  }

  lemma ProjectionsAppend(cs: seq<(string, Value)>, c: (string, Value))
    ensures Texts(cs + [c]) == Texts(cs) + [c.0]
    ensures ParamsOf(cs + [c]) == ParamsOf(cs) + [c.1]
  {
  }

  /** Adding an entry at the end adds its clause, if any, at the end. */
  lemma {:induction false} ClausesAppend(filters: seq<(string, Value)>, e: (string, Value), mappings: map<string, string>)
    ensures Clauses(filters + [e], mappings) ==
      Clauses(filters, mappings) + match Clause(e.0, e.1, mappings) case None => [] case Some(c) => [c]
  {
    if filters == [] {
      assert [e][1..] == [];
    } else {
      assert (filters + [e])[1..] == filters[1..] + [e];
      ClausesAppend(filters[1..], e, mappings);
    }
  }
}
