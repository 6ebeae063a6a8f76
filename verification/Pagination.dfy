/** Listing bundles page by page, by number or by cursor. */
module Pagination {
  import opened Wrappers
  import opened Text
  import opened IdOrder
  import opened Modular

  const I64_MAX: int := 0x7FFF_FFFF_FFFF_FFFF
  const MAX_PAGE_SIZE: int := 100

  function Min(x: int, y: int): int { if x < y then x else y }

  function Max(x: int, y: int): int { if x > y then x else y }

  /** 64-bit saturating arithmetic on non-negative operands. */
  function SaturatingAdd(x: nat, y: nat): int { Min(x + y, I64_MAX) }

  function SaturatingMul(x: nat, y: nat): int { Min(x * y, I64_MAX) }

  /** The page count as the program computes it. */
  function TotalPages(total: nat, limit: int): int
    requires limit > 0
  {
    if total == 0 then 0 else total / limit + (if total % limit != 0 then 1 else 0)
  }

  datatype PaginationMeta = PaginationMeta(
    total: int, hasNextPage: bool, hasPreviousPage: bool, currentPage: int, totalPages: int)

  function CalculatePagination(total: nat, limit: int, offset: nat): PaginationMeta {
    if total == 0 then PaginationMeta(0, false, false, 1, 0)
    else
      var size := Max(limit, 1);
      PaginationMeta(total, SaturatingAdd(offset, size) < total, offset > 0, offset / size + 1, TotalPages(total, size))
  }

  // ----- cursors -----

  datatype IdFilter = Gt(id: string) | Lt(id: string) | Unfiltered {
    predicate Passes(r: Row) {
      match this
      case Gt(c) => IdLess(c, r.id)
      case Lt(c) => IdLess(r.id, c)
      case Unfiltered => true
    }
  }

  datatype CursorPlan = CursorPlan(reverseData: bool, idFilter: IdFilter, ascending: bool)

  /** An empty cursor is no cursor. */
  function Given(cursor: Option<string>): Option<string> {
    if cursor == Some("") then None else cursor
  }

  function BuildCursorPageQuery(after: Option<string>, before: Option<string>, descending: bool): CursorPlan {
    match (Given(after), Given(before))
    case (Some(c), _) => CursorPlan(false, if descending then Lt(c) else Gt(c), !descending)
    case (None, Some(c)) => CursorPlan(true, if descending then Gt(c) else Lt(c), descending)
    case (None, None) => CursorPlan(false, Unfiltered, !descending)
  }

  datatype CursorKeys = CursorKeys(nextCursor: Option<string>, previousCursor: Option<string>)

  function DeriveCursorKeys(
    total: nat, startIndex: nat, page: seq<Row>, after: Option<string>, before: Option<string>): CursorKeys
  {
    if page == [] then CursorKeys(Given(before), Given(after))
    else CursorKeys(
      if SaturatingAdd(startIndex, |page|) < total then Some(page[|page| - 1].id) else None,
      if startIndex > 0 then Some(page[0].id) else None)
  }

  // ----- the handler -----

  datatype ListRequest = ListRequest(limit: int, page: Option<int>, after: Option<string>, before: Option<string>) {
    /** What the query-parameter parsers let through. */
    predicate Valid() {
      1 <= limit <= MAX_PAGE_SIZE && (page.Some? ==> 1 <= page.value <= I64_MAX)
    }
  }

  datatype ListResponse = ListResponse(data: seq<Row>, meta: PaginationMeta, keys: CursorKeys)

  predicate Storable(table: seq<Row>) {
    DistinctIds(table) && |table| <= I64_MAX
  }

  /** The conditions of a query: the request's filters and the cursor's. */
  function Both(keep: Row -> bool, filter: IdFilter): Row -> bool {
    r => keep(r) && filter.Passes(r)
  }

  /** `SELECT * ... ORDER BY id LIMIT limit OFFSET offset`. */
  function Select(table: seq<Row>, keep: Row -> bool, filter: IdFilter, ascending: bool, limit: nat, offset: nat): seq<Row> {
    var rows := OrderDesc(Where(table, Both(keep, filter)));
    Slice(if ascending then Reverse(rows) else rows, offset, limit)
  }

  function Slice(rows: seq<Row>, offset: nat, limit: nat): seq<Row> {
    rows[Min(offset, |rows|)..Min(offset + limit, |rows|)]
  }

  /** `SELECT COUNT(*)`. */
  function Count(table: seq<Row>, keep: Row -> bool, filter: IdFilter): nat {
    |Where(table, Both(keep, filter))|
  }

  /** Whether a request is answered by cursor: a page number switches cursors off. */
  function PlanOf(q: ListRequest): Option<CursorPlan> {
    if q.page.Some? || (Given(q.after).None? && Given(q.before).None?) then None
    else Some(BuildCursorPageQuery(Given(q.after), Given(q.before), true))
  }

  method ListBundles(table: seq<Row>, keep: Row -> bool, q: ListRequest) returns (response: ListResponse)
    requires Storable(table) && q.Valid()
    ensures response == Respond(Listing(table, keep), q)
  {
    var total := Count(table, keep, Unfiltered);
    CountIsLength(table, keep, Unfiltered);
    SelectedAll(table, keep);
    ListingFacts(table, keep);
    var plan := PlanOf(q);
    var bundles, startIndex := FetchPage(table, keep, q, total);
    var meta := CalculatePagination(total, q.limit, startIndex);
    var keys := DeriveCursorKeys(total, startIndex, bundles,
                                 if plan.Some? then Given(q.after) else None,
                                 if plan.Some? then Given(q.before) else None);
    response := ListResponse(bundles, meta, keys);
    WindowDescribesPage(Listing(table, keep), q);
  }

  /** The numbers and cursors of a page follow from its window; saturation never shows. */
  lemma WindowDescribesPage(d: seq<Row>, q: ListRequest)
    requires q.Valid() && |d| <= I64_MAX
    ensures var w := Window(d, q); var r := Respond(d, q);
            && CalculatePagination(|d|, q.limit, w.start) == r.meta
            && r.keys == DeriveCursorKeys(|d|, w.start, d[w.start..w.end],
                                          if PlanOf(q).Some? then Given(q.after) else None,
                                          if PlanOf(q).Some? then Given(q.before) else None)
  {
    var w := Window(d, q);
    TotalPagesCounts(|d|, q.limit);
    QuotientIsPageNumber(w.start, q.limit);
    assert w.start < w.end ==> d[w.start..w.end][0] == d[w.start] && d[w.start..w.end][w.end - w.start - 1] == d[w.end - 1];
  }

  /** The rows of the page and the index of its first row in the whole listing. */
  method FetchPage(table: seq<Row>, keep: Row -> bool, q: ListRequest, total: nat) returns (bundles: seq<Row>, startIndex: nat)
    requires Storable(table) && q.Valid() && total == |Listing(table, keep)|
    ensures var d := Listing(table, keep); var w := Window(d, q);
            bundles == d[w.start..w.end] && startIndex == w.start
  {
    ghost var d := Listing(table, keep);
    ghost var w := Window(d, q);
    ListingFacts(table, keep);
    var plan := PlanOf(q);
    if plan.None? {
      startIndex := if q.page.Some? then PageOffset(total, q.limit, q.page.value) else 0;
      bundles := Select(table, keep, Unfiltered, false, q.limit, startIndex);
      SelectedByNumber(table, keep, q);
      return;
    }
    bundles := CursorPage(table, keep, q, plan.value);
    if bundles == [] {
      startIndex := if Given(q.after).Some? then total else 0;
    } else {
      startIndex := Count(table, keep, Gt(bundles[0].id));
      CountAboveRow(table, keep, w.start);
    }
  }

  /** The rows of a page asked for by cursor; a `before` page is read upwards and turned round. */
  method CursorPage(table: seq<Row>, keep: Row -> bool, q: ListRequest, plan: CursorPlan) returns (bundles: seq<Row>)
    requires Storable(table) && q.Valid() && PlanOf(q) == Some(plan)
    ensures var d := Listing(table, keep); var w := Window(d, q); bundles == d[w.start..w.end]
  {
    bundles := Select(table, keep, plan.idFilter, plan.ascending, q.limit, 0);
    if plan.reverseData {
      bundles := Reverse(bundles);
    }
    if Given(q.after).Some? {
      SelectedAfter(table, keep, q.after.value, q.limit);
    } else {
      SelectedBefore(table, keep, q.before.value, q.limit);
    }
  }

  lemma CountAboveRow(table: seq<Row>, keep: Row -> bool, k: nat)
    requires Storable(table) && k < |Listing(table, keep)|
    ensures Count(table, keep, Gt(Listing(table, keep)[k].id)) == k
  {
    var d := Listing(table, keep);
    ListingFacts(table, keep);
    CountIsLength(table, keep, Gt(d[k].id));
    SelectedAbove(table, keep, d[k].id);
    AboveOwnId(d, k);
  }

  lemma SelectedByNumber(table: seq<Row>, keep: Row -> bool, q: ListRequest)
    requires Storable(table) && q.Valid() && PlanOf(q).None?
    ensures var d := Listing(table, keep); var w := Window(d, q);
            && w.start == (if q.page.Some? then PageOffset(|d|, q.limit, q.page.value) else 0)
            && Select(table, keep, Unfiltered, false, q.limit, w.start) == d[w.start..w.end]
  {
    ListingFacts(table, keep);
    SelectedAll(table, keep);
    if q.page.Some? {
      PageOffsetIsExact(|Listing(table, keep)|, q.limit, q.page.value);
    }
  }

  lemma SelectedAfter(table: seq<Row>, keep: Row -> bool, cursor: string, limit: nat)
    requires Storable(table)
    ensures var d := Listing(table, keep); var w := SpanFrom(NotBelow(d, cursor), limit, |d|);
            Select(table, keep, Lt(cursor), false, limit, 0) == d[w.start..w.end]
  {
    var d := Listing(table, keep);
    SelectedBelow(table, keep, cursor);
    PageOfSuffix(d, NotBelow(d, cursor), limit);
  }

  lemma SelectedBefore(table: seq<Row>, keep: Row -> bool, cursor: string, limit: nat)
    requires Storable(table)
    ensures var d := Listing(table, keep); var w := SpanUpTo(Above(d, cursor), limit);
            Reverse(Select(table, keep, Gt(cursor), true, limit, 0)) == d[w.start..w.end]
  {
    var d := Listing(table, keep);
    SelectedAbove(table, keep, cursor);
    PageOfPrefix(d, Above(d, cursor), limit);
  }

  lemma PageOfSuffix(d: seq<Row>, n: nat, limit: nat)
    requires n <= |d|
    ensures Slice(d[n..], 0, limit) == d[n..Min(n + limit, |d|)]
  {
  }

  /** Reading the rows above a cursor backwards and turning them round gives the rows just above it. */
  lemma PageOfPrefix(d: seq<Row>, n: nat, limit: nat)
    requires n <= |d|
    ensures Reverse(Slice(Reverse(d[..n]), 0, limit)) == d[Max(n - limit, 0)..n]
  {
    var back := Slice(Reverse(d[..n]), 0, limit);
    assert |back| == n - Max(n - limit, 0);
    assert forall i :: 0 <= i < |back| ==> back[i] == d[n - 1 - i];
  }

  /** The offset of a numbered page, clamped to the last page, in saturating arithmetic. */
  function PageOffset(total: nat, limit: int, page: int): (offset: nat)
    requires 1 <= limit && 1 <= page
  {
    TotalPagesCounts(total, limit);
    var totalPages := TotalPages(total, limit);
    var maxOffset := if totalPages == 0 then 0 else SaturatingMul(Max(totalPages, 1) - 1, limit);
    Min(SaturatingMul(page - 1, limit), maxOffset)
  }

  // ----- specification: a page is a window on the full listing -----

  /** Every row that passes the filters, newest first. */
  function Listing(table: seq<Row>, keep: Row -> bool): seq<Row> {
    OrderDesc(Where(table, keep))
  }

  /** How many rows of a descending listing have an id above the cursor. */
  function Above(d: seq<Row>, cursor: string): (n: nat)
    ensures n <= |d|
    ensures forall i :: 0 <= i < n ==> IdLess(cursor, d[i].id)
    ensures n < |d| ==> !IdLess(cursor, d[n].id)
  {
    if d != [] && IdLess(cursor, d[0].id) then 1 + Above(d[1..], cursor) else 0
  }

  /** How many have an id above the cursor or equal to it. */
  function NotBelow(d: seq<Row>, cursor: string): (n: nat)
    ensures n <= |d|
    ensures forall i :: 0 <= i < n ==> !IdLess(d[i].id, cursor)
    ensures n < |d| ==> IdLess(d[n].id, cursor)
  {
    if d != [] && !IdLess(d[0].id, cursor) then 1 + NotBelow(d[1..], cursor) else 0
  }

  /** How many pages of the given size it takes to hold the rows. */
  ghost function Pages(total: int, limit: int): nat
    requires limit > 0
    decreases total
  {
    if total <= 0 then 0 else 1 + Pages(total - limit, limit)
  }

  /** The number of the page a row falls on, counting from 1. */
  ghost function PageNumber(row: nat, limit: int): nat
    requires limit > 0
  {
    if row < limit then 1 else 1 + PageNumber(row - limit, limit)
  }

  /** The first row of a numbered page; a number past the end means the last page. */
  ghost function PageStart(total: nat, limit: int, page: int): (start: nat)
    requires limit > 0
    ensures start < total || start == 0 == total
    decreases total
  {
    if page <= 1 || total <= limit then 0 else limit + PageStart(total - limit, limit, page - 1)
  }

  /** Where the requested window starts and ends in the listing. */
  ghost function Window(d: seq<Row>, q: ListRequest): (w: Span)
    requires q.Valid()
    ensures w.start <= w.end <= |d| && w.end <= w.start + q.limit
  {
    if q.page.Some? then SpanFrom(PageStart(|d|, q.limit, q.page.value), q.limit, |d|)
    else if Given(q.after).Some? then SpanFrom(NotBelow(d, q.after.value), q.limit, |d|)
    else if Given(q.before).Some? then SpanUpTo(Above(d, q.before.value), q.limit)
    else SpanFrom(0, q.limit, |d|)
  }

  datatype Span = Span(start: nat, end: nat)

  /** At most limit rows from start on. */
  function SpanFrom(start: nat, limit: nat, size: nat): (s: Span)
    ensures start <= size ==> s.start <= s.end <= size
  {
    Span(start, Min(start + limit, size))
  }

  /** At most limit rows before end. */
  function SpanUpTo(end: nat, limit: nat): Span {
    Span(Max(end - limit, 0), end)
  }

  /** The response, told in terms of the window alone. */
  ghost function Respond(d: seq<Row>, q: ListRequest): ListResponse
    requires q.Valid()
  {
    var Span(start, end) := Window(d, q);
    ListResponse(
      d[start..end],
      PaginationMeta(|d|, start + q.limit < |d|, start > 0,
                     if d == [] then 1 else PageNumber(start, q.limit), Pages(|d|, q.limit)),
      if start == end then Echo(q) else WindowKeys(d, start, end))
  }

  /** A page with rows names its last row if more follow, and its first if some precede. */
  function WindowKeys(d: seq<Row>, start: nat, end: nat): CursorKeys
    requires start < end <= |d|
  {
    CursorKeys(
      if end < |d| then Some(d[end - 1].id) else None,
      if start > 0 then Some(d[start].id) else None)
  }

  /** An exhausted cursor is handed back on the opposite side. */
  function Echo(q: ListRequest): CursorKeys {
    if q.page.Some? then CursorKeys(None, None) else CursorKeys(Given(q.before), Given(q.after))
  }

  // ----- the program's arithmetic against the recursive definitions -----

  lemma {:induction false} TotalPagesCounts(total: nat, limit: int)
    requires limit > 0
    ensures TotalPages(total, limit) == Pages(total, limit)
    decreases total
  {
    if total > limit {
      TotalPagesCounts(total - limit, limit);
      QuotientUnique(total, limit, (total - limit) / limit + 1, (total - limit) % limit);
    } else if total == limit {
      QuotientUnique(total, limit, 1, 0);
    } else {
      QuotientUnique(total, limit, 0, total);
    }
  }

  lemma {:induction false} QuotientIsPageNumber(row: nat, limit: int)
    requires limit > 0
    ensures row / limit + 1 == PageNumber(row, limit)
  {
    if row >= limit {
      QuotientIsPageNumber(row - limit, limit);
      QuotientUnique(row, limit, (row - limit) / limit + 1, (row - limit) % limit);
    } else {
      QuotientUnique(row, limit, 0, row);
    }
  }

  lemma ScaleDown(k: int, limit: int)
    ensures (k - 1) * limit == k * limit - limit && 0 * limit == 0
  {
  }

  lemma {:induction false} PageStartIsProduct(total: nat, limit: int, page: int, k: int)
    requires limit > 0 && total > 0 && page >= 1 && k == Min(page - 1, Pages(total, limit) - 1)
    ensures PageStart(total, limit, page) == k * limit
    decreases total
  {
    if page > 1 && total > limit {
      PageStartIsProduct(total - limit, limit, page - 1, k - 1);
      ScaleDown(k, limit);
    }
  }

  lemma ScaleMonotone(x: int, y: int, limit: nat)
    requires x <= y
    ensures x * limit <= y * limit
  {
  }

  /** The clamped offset is the start of the page: saturation never shows, the clamp is below it. */
  lemma {:induction false} PageOffsetIsExact(total: nat, limit: int, page: int)
    requires 1 <= limit && 1 <= page && total <= I64_MAX
    ensures PageOffset(total, limit, page) == PageStart(total, limit, page)
  {
    TotalPagesCounts(total, limit);
    if total > 0 {
      var last := Pages(total, limit) - 1;
      PageStartIsProduct(total, limit, page, Min(page - 1, last));
      PageStartIsProduct(total, limit, last + 1, last);
      if page - 1 <= last {
        ScaleMonotone(page - 1, last, limit);
      } else {
        ScaleMonotone(last, page - 1, limit);
      }
    }
  }

  lemma {:induction false} ListingFacts(table: seq<Row>, keep: Row -> bool)
    requires Storable(table)
    ensures Descending(Listing(table, keep)) && |Listing(table, keep)| == |Where(table, keep)| <= |table|
    ensures forall r :: r in Listing(table, keep) <==> r in table && keep(r)
  {
    WhereDistinct(table, keep);
    WhereMembers(table, keep);
    OrderDescSorts(Where(table, keep));
  }

  lemma CountIsLength(table: seq<Row>, keep: Row -> bool, filter: IdFilter)
    requires Storable(table)
    ensures Count(table, keep, filter) == |Filtered(table, keep, filter)|
  {
    ListingFacts(table, Both(keep, filter));
  }

  /** The filtered rows, newest first. */
  function Filtered(table: seq<Row>, keep: Row -> bool, filter: IdFilter): seq<Row> {
    OrderDesc(Where(table, Both(keep, filter)))
  }

  /** Any part of the listing that holds exactly the rows passing the filter is what the query selects. */
  lemma FilteredIs(table: seq<Row>, keep: Row -> bool, filter: IdFilter, part: seq<Row>)
    requires Storable(table) && Descending(part)
    requires forall r :: r in part <==> r in Listing(table, keep) && filter.Passes(r)
    ensures Filtered(table, keep, filter) == part
  {
    ListingFacts(table, keep);
    ListingFacts(table, Both(keep, filter));
    DescendingIsUnique(Filtered(table, keep, filter), part);
  }

  lemma SelectedAll(table: seq<Row>, keep: Row -> bool)
    requires Storable(table)
    ensures Filtered(table, keep, Unfiltered) == Listing(table, keep)
  {
    ListingFacts(table, keep);
    FilteredIs(table, keep, Unfiltered, Listing(table, keep));
  }

  lemma SelectedAbove(table: seq<Row>, keep: Row -> bool, cursor: string)
    requires Storable(table)
    ensures var d := Listing(table, keep); Filtered(table, keep, Gt(cursor)) == d[..Above(d, cursor)]
  {
    var d := Listing(table, keep);
    var n := Above(d, cursor);
    ListingFacts(table, keep);
    AboveIsPrefix(d, cursor, n);
    FilteredIs(table, keep, Gt(cursor), d[..n]);
  }

  lemma AboveIsPrefix(d: seq<Row>, cursor: string, n: nat)
    requires Descending(d) && n <= |d| && (n < |d| ==> !IdLess(cursor, d[n].id))
    requires forall i :: 0 <= i < n ==> IdLess(cursor, d[i].id)
    ensures Descending(d[..n]) && forall r :: r in d[..n] <==> r in d && IdLess(cursor, r.id)
  {
    forall r | r in d && IdLess(cursor, r.id)
      ensures r in d[..n]
    {
      var i :| 0 <= i < |d| && d[i] == r;
      if n < i {
        LessIsTransitive(Fold(cursor), Fold(d[i].id), Fold(d[n].id));
      }
      assert d[..n][i] == r;
    }
  }

  lemma BelowBelow(d: seq<Row>, cursor: string, n: nat, i: nat)
    requires Descending(d) && n <= i < |d| && IdLess(d[n].id, cursor)
    ensures IdLess(d[i].id, cursor)
  {
    if n < i {
      LessIsTransitive(Fold(d[i].id), Fold(d[n].id), Fold(cursor));
    }
  }

  lemma SelectedBelow(table: seq<Row>, keep: Row -> bool, cursor: string)
    requires Storable(table)
    ensures var d := Listing(table, keep); Filtered(table, keep, Lt(cursor)) == d[NotBelow(d, cursor)..]
  {
    var d := Listing(table, keep);
    var n := NotBelow(d, cursor);
    ListingFacts(table, keep);
    BelowIsSuffix(d, cursor, n);
    FilteredIs(table, keep, Lt(cursor), d[n..]);
  }

  lemma BelowIsSuffix(d: seq<Row>, cursor: string, n: nat)
    requires Descending(d) && n <= |d| && (n < |d| ==> IdLess(d[n].id, cursor))
    requires forall i :: 0 <= i < n ==> !IdLess(d[i].id, cursor)
    ensures Descending(d[n..]) && forall r :: r in d[n..] <==> r in d && IdLess(r.id, cursor)
  {
    forall r
      ensures r in d[n..] <==> r in d && IdLess(r.id, cursor)
    {
      if r in d[n..] {
        var i :| n <= i < |d| && d[i] == r;
        BelowBelow(d, cursor, n, i);
      }
      if r in d && IdLess(r.id, cursor) {
        var i :| 0 <= i < |d| && d[i] == r;
        assert d[n..][i - n] == r;
      }
    }
  }

  /** In a descending listing the rows above the k-th are the first k. */
  lemma {:induction false} AboveOwnId(d: seq<Row>, k: nat)
    requires Descending(d) && k < |d|
    ensures Above(d, d[k].id) == k
  {
    var c := d[k].id;
    var n := Above(d, c);
    LessIsIrreflexive(Fold(c));
  }

  /** ... and the rows not below it are the first k + 1. */
  lemma {:induction false} NotBelowOwnId(d: seq<Row>, k: nat)
    requires Descending(d) && k < |d|
    ensures NotBelow(d, d[k].id) == k + 1
  {
    var c := d[k].id;
    var n := NotBelow(d, c);
    LessIsIrreflexive(Fold(c));
    if n < k {
      IdLessIsStrict(c, d[n].id);
    }
    assert k + 1 < |d| ==> IdLess(d[k + 1].id, c);
  }
}
