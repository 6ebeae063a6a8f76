/** What each kind of list request shows, said on the listing itself: numbered pages and pages next to a cursor. */
module Pages {
  import opened Wrappers
  import opened Text
  import opened IdOrder
  import opened Pagination
  import opened Walks

  /** The requests that get through: one to a hundred rows, and a page number of 64 bits from 1 on. */
  lemma ValidRequests(q: ListRequest)
    ensures q.Valid() <==> 1 <= q.limit <= 100 && (q.page.Some? ==> 1 <= q.page.value <= 0x7FFF_FFFF_FFFF_FFFF)
  {
  }

  // ----- numbered pages -----

  lemma {:induction false} PageStartWithin(total: nat, limit: nat, page: int, start: int)
    requires limit > 0 && page >= 1 && start == (page - 1) * limit && start < total
    ensures PageStart(total, limit, page) == start
    decreases page
  {
    if page > 1 {
      ScaleDown(page - 1, limit);
      ScaleMonotone(1, page - 1, limit);
      PageStartWithin(total - limit, limit, page - 1, start - limit);
    }
  }

  lemma {:induction false} PageStartPast(total: nat, limit: nat, page: int) returns (j: nat)
    requires limit > 0 && page >= 1 && 0 < total <= (page - 1) * limit
    ensures j * limit < total <= j * limit + limit && PageStart(total, limit, page) == j * limit
    decreases page
  {
    if total <= limit {
      j := 0;
    } else {
      ScaleDown(page - 1, limit);
      j := PageStartPast(total - limit, limit, page - 1);
      j := j + 1;
      ScaleDown(j, limit);
    }
  }

  /** Page number p holds the rows from (p - 1) * limit on. */
  lemma NumberedPage(d: seq<Row>, q: ListRequest, start: nat)
    requires q.Valid() && q.page.Some? && start == (q.page.value - 1) * q.limit && start < |d|
    ensures Respond(d, q).data == d[start..Min(start + q.limit, |d|)]
    ensures var m := Respond(d, q).meta;
            && m.currentPage == q.page.value && m.total == |d|
            && (m.hasNextPage <==> start + q.limit < |d|) && (m.hasPreviousPage <==> q.page.value > 1)
  {
    PageStartWithin(|d|, q.limit, q.page.value, start);
    PageNumberOfProduct(q.limit, q.page.value - 1, start);
    if q.page.value > 1 {
      ScaleMonotone(1, q.page.value - 1, q.limit);
    }
  }

  /** A number past the end shows the last page. */
  lemma NumberPastTheEnd(d: seq<Row>, q: ListRequest) returns (last: nat)
    requires q.Valid() && q.page.Some? && 0 < |d| <= (q.page.value - 1) * q.limit
    ensures last * q.limit < |d| <= last * q.limit + q.limit
    ensures Respond(d, q).data == d[last * q.limit..]
    ensures Respond(d, q).meta.currentPage == last + 1 && !Respond(d, q).meta.hasNextPage
  {
    last := PageStartPast(|d|, q.limit, q.page.value);
    PageNumberOfProduct(q.limit, last, last * q.limit);
  }

  /** A page number switches both cursors off, and an empty cursor is no cursor. */
  lemma CursorsThatDoNotCount(d: seq<Row>, q: ListRequest)
    requires q.Valid()
    ensures q.page.Some? ==> Respond(d, q) == Respond(d, q.(after := None, before := None))
    ensures q.after == Some("") ==> Respond(d, q) == Respond(d, q.(after := None))
    ensures q.before == Some("") ==> Respond(d, q) == Respond(d, q.(before := None))
    ensures q.page.None? && q.after == None && q.before == None ==>
              Respond(d, q).data == d[..Min(q.limit, |d|)] && Respond(d, q).meta.currentPage == 1
  {
  }

  /** Ascending order is the mirror image: filters point the other way, and so does the sort. */
  lemma AscendingMirrors(after: Option<string>, before: Option<string>)
    ensures var up, down := BuildCursorPageQuery(after, before, false), BuildCursorPageQuery(after, before, true);
            && up.reverseData == down.reverseData && up.ascending == !down.ascending
            && (match down.idFilter
                case Lt(c) => up.idFilter == Gt(c)
                case Gt(c) => up.idFilter == Lt(c)
                case Unfiltered => up.idFilter == Unfiltered)
  {
  }

  // ----- pages next to a cursor -----

  /** The rows from n on are those below the cursor. */
  ghost predicate BelowFrom(d: seq<Row>, cursor: string, n: nat) {
    n <= |d| && forall i :: 0 <= i < |d| ==> (IdLess(d[i].id, cursor) <==> i >= n)
  }

  /** The first n rows are those above the cursor. */
  ghost predicate AboveUpTo(d: seq<Row>, cursor: string, n: nat) {
    n <= |d| && forall i :: 0 <= i < |d| ==> (IdLess(cursor, d[i].id) <==> i < n)
  }

  predicate Set(cursor: Option<string>) {
    cursor.Some? && cursor.value != ""
  }

  /** `after` shows the first rows below its cursor, whatever `before` says. */
  lemma AfterShows(d: seq<Row>, q: ListRequest, n: nat)
    requires q.Valid() && q.page.None? && Set(q.after) && BelowFrom(d, q.after.value, n)
    ensures Respond(d, q).data == d[n..Min(n + q.limit, |d|)]
  {
    var m := NotBelow(d, q.after.value);
    assert m < |d| ==> (IdLess(d[m].id, q.after.value) <==> m >= n);
    assert n < |d| ==> IdLess(d[n].id, q.after.value);
  }

  /** `before` alone shows the last rows above its cursor. */
  lemma BeforeShows(d: seq<Row>, q: ListRequest, n: nat)
    requires q.Valid() && q.page.None? && !Set(q.after) && Set(q.before) && AboveUpTo(d, q.before.value, n)
    ensures Respond(d, q).data == d[Max(n - q.limit, 0)..n]
  {
    var m := Above(d, q.before.value);
    assert m < |d| ==> (IdLess(q.before.value, d[m].id) <==> m < n);
    assert n < |d| ==> !IdLess(q.before.value, d[n].id);
  }

  /** With no row below it, an `after` cursor comes back as the previous cursor, and that leads to the last rows
      above it. */
  lemma ExhaustedAfterTurns(d: seq<Row>, limit: int, cursor: string, n: nat)
    requires 1 <= limit <= MAX_PAGE_SIZE && cursor != "" && BelowFrom(d, cursor, |d|) && AboveUpTo(d, cursor, n)
    ensures Respond(d, After(limit, cursor)).data == []
    ensures Respond(d, After(limit, cursor)).keys == CursorKeys(None, Some(cursor))
    ensures Respond(d, Before(limit, cursor)).data == d[Max(n - limit, 0)..n]
  {
    AfterShows(d, After(limit, cursor), |d|);
    BeforeShows(d, Before(limit, cursor), n);
  }

  /** With no row above it, a `before` cursor comes back as the next cursor, and leads to the first rows below it. */
  lemma ExhaustedBeforeTurns(d: seq<Row>, limit: int, cursor: string, n: nat)
    requires 1 <= limit <= MAX_PAGE_SIZE && cursor != "" && AboveUpTo(d, cursor, 0) && BelowFrom(d, cursor, n)
    ensures Respond(d, Before(limit, cursor)).data == []
    ensures Respond(d, Before(limit, cursor)).keys == CursorKeys(Some(cursor), None)
    ensures Respond(d, After(limit, cursor)).data == d[n..Min(n + limit, |d|)]
  {
    BeforeShows(d, Before(limit, cursor), 0);
    AfterShows(d, After(limit, cursor), n);
  }
}
