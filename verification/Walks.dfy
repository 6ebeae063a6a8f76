/** Following cursors from page to page over a table that does not change meanwhile. */
module Walks {
  import opened Wrappers
  import opened Text
  import opened IdOrder
  import opened Pagination
  import Json
  import Store

  function After(limit: int, cursor: string): ListRequest {
    ListRequest(limit, None, Some(cursor), None)
  }

  function Before(limit: int, cursor: string): ListRequest {
    ListRequest(limit, None, None, Some(cursor))
  }

  function First(limit: int): ListRequest {
    ListRequest(limit, None, None, None)
  }

  /** A listing the database can hold: ids are not empty, since an empty cursor is no cursor. */
  ghost predicate Walkable(d: seq<Row>, limit: int) {
    Descending(d) && (forall r :: r in d ==> r.id != "") && 1 <= limit <= MAX_PAGE_SIZE
  }

  // ----- one link -----

  /** `nextCursor` leads to the window that starts where this one ended. */
  lemma NextContinues(d: seq<Row>, q: ListRequest)
    requires q.Valid() && Walkable(d, q.limit)
    requires Window(d, q).start < Window(d, q).end && Respond(d, q).keys.nextCursor.Some?
    ensures var w := Window(d, q); var w' := Window(d, After(q.limit, Respond(d, q).keys.nextCursor.value));
            w.end < |d| && w' == SpanFrom(w.end, q.limit, |d|)
  {
    var w := Window(d, q);
    assert d[w.end - 1] in d;
    NotBelowOwnId(d, w.end - 1);
  }

  /** `previousCursor` leads to the rows just above this window: as many as the limit, or all there are. */
  lemma PreviousPrecedes(d: seq<Row>, q: ListRequest)
    requires q.Valid() && Walkable(d, q.limit)
    requires Window(d, q).start < Window(d, q).end && Window(d, q).start > 0
    ensures var w := Window(d, q); var p := Respond(d, q).keys.previousCursor;
            p.Some? && Window(d, Before(q.limit, p.value)) == SpanUpTo(w.start, q.limit)
  {
    var w := Window(d, q);
    assert d[w.start] in d;
    AboveOwnId(d, w.start);
  }

  /** Going back a page and forward again continues with the row right after the one gone back to,
      which is where the walk stood. */
  lemma BackAndForth(d: seq<Row>, q: ListRequest)
    requires q.Valid() && Walkable(d, q.limit)
    requires Window(d, q).start < Window(d, q).end && Window(d, q).start > 0
    ensures var s := Window(d, q).start;
            var back := Before(q.limit, Respond(d, q).keys.previousCursor.value);
            && |Respond(d, back).data| == Min(q.limit, s)
            && Respond(d, back).data == d[Max(s - q.limit, 0)..s]
            && Respond(d, back).keys.nextCursor == Some(d[s - 1].id)
            && Window(d, After(q.limit, d[s - 1].id)) == SpanFrom(s, q.limit, |d|)
  {
    PreviousPrecedes(d, q);
    NextContinues(d, Before(q.limit, Respond(d, q).keys.previousCursor.value));
  }

  // ----- whole walks -----

  /** The pages met by following `nextCursor` from a request on. */
  ghost function ForwardWalk(d: seq<Row>, q: ListRequest): seq<ListResponse>
    requires q.Valid() && Walkable(d, q.limit)
    decreases |d| - Window(d, q).start
  {
    var r := Respond(d, q);
    if r.data == [] || r.keys.nextCursor.None? then [r]
    else
      NextContinues(d, q);
      [r] + ForwardWalk(d, After(q.limit, r.keys.nextCursor.value))
  }

  function Rows(pages: seq<ListResponse>): seq<Row> {
    if pages == [] then [] else pages[0].data + Rows(pages[1..])
  }

  /** r is the page of the listing that starts at row s. */
  ghost predicate PageAt(d: seq<Row>, limit: nat, s: int, r: ListResponse) {
    && 0 <= s <= |d| && limit > 0
    && r.data == d[s..Min(s + limit, |d|)]
    && r.meta.total == |d|
    && r.meta.hasPreviousPage == (s > 0)
    && r.meta.hasNextPage == (s + limit < |d|)
    && r.meta.totalPages == Pages(|d|, limit)
    && r.meta.currentPage == if d == [] then 1 else PageNumber(s, limit)
  }

  /** The pages cut the listing from row s on into consecutive pieces of the given size. */
  ghost predicate Tiling(d: seq<Row>, limit: nat, s: nat, pages: seq<ListResponse>)
    decreases |pages|
  {
    && pages != []
    && PageAt(d, limit, s, pages[0])
    && if s + limit < |d| then Tiling(d, limit, s + limit, pages[1..]) else |pages| == 1
  }

  lemma PageOfWindow(d: seq<Row>, q: ListRequest, s: nat)
    requires q.Valid() && Window(d, q) == SpanFrom(s, q.limit, |d|)
    ensures PageAt(d, q.limit, s, Respond(d, q))
  {
  }

  /** The request a walk continues with after a full page from s on. */
  function Following(d: seq<Row>, limit: nat, s: nat): ListRequest
    requires 0 < s + limit <= |d|
  {
    After(limit, d[s + limit - 1].id)
  }

  lemma PageNamesFollowing(d: seq<Row>, q: ListRequest, s: nat)
    requires q.Valid() && Window(d, q) == SpanFrom(s, q.limit, |d|) && s + q.limit < |d|
    ensures Respond(d, q).data != [] && Respond(d, q).keys.nextCursor == Some(d[s + q.limit - 1].id)
  {
  }

  lemma FollowingWindow(d: seq<Row>, q: ListRequest, s: nat)
    requires q.Valid() && Walkable(d, q.limit) && Window(d, q) == SpanFrom(s, q.limit, |d|) && s + q.limit < |d|
    ensures Window(d, Following(d, q.limit, s)) == SpanFrom(s + q.limit, q.limit, |d|)
  {
    PageNamesFollowing(d, q, s);
    NextContinues(d, q);
  }

  lemma WalkUnfolds(d: seq<Row>, q: ListRequest, next: ListRequest)
    requires q.Valid() && Walkable(d, q.limit) && Respond(d, q).data != [] && Respond(d, q).keys.nextCursor.Some?
    requires next == After(q.limit, Respond(d, q).keys.nextCursor.value)
    ensures ForwardWalk(d, q) == [Respond(d, q)] + ForwardWalk(d, next)
  {
  }

  lemma WalkContinues(d: seq<Row>, q: ListRequest, s: nat)
    requires q.Valid() && Walkable(d, q.limit) && Window(d, q) == SpanFrom(s, q.limit, |d|) && s + q.limit < |d|
    ensures Window(d, Following(d, q.limit, s)) == SpanFrom(s + q.limit, q.limit, |d|)
    ensures ForwardWalk(d, q) == [Respond(d, q)] + ForwardWalk(d, Following(d, q.limit, s))
  {
    FollowingWindow(d, q, s);
    PageNamesFollowing(d, q, s);
    WalkUnfolds(d, q, Following(d, q.limit, s));
  }

  lemma WalkEnds(d: seq<Row>, q: ListRequest, s: nat)
    requires q.Valid() && Walkable(d, q.limit) && Window(d, q) == SpanFrom(s, q.limit, |d|) && s + q.limit >= |d|
    ensures Tiling(d, q.limit, s, ForwardWalk(d, q))
  {
    PageOfWindow(d, q, s);
    assert ForwardWalk(d, q) == [Respond(d, q)];
  }

  lemma TilingOneMore(d: seq<Row>, limit: nat, s: nat, r: ListResponse, rest: seq<ListResponse>)
    requires s + limit < |d| && PageAt(d, limit, s, r) && Tiling(d, limit, s + limit, rest)
    ensures Tiling(d, limit, s, [r] + rest)
  {
    assert ([r] + rest)[1..] == rest;
  }

  lemma TilingStep(d: seq<Row>, q: ListRequest, s: nat, rest: seq<ListResponse>)
    requires q.Valid() && Window(d, q) == SpanFrom(s, q.limit, |d|) && s + q.limit < |d|
    requires Tiling(d, q.limit, s + q.limit, rest)
    ensures Tiling(d, q.limit, s, [Respond(d, q)] + rest)
  {
    PageOfWindow(d, q, s);
    TilingOneMore(d, q.limit, s, Respond(d, q), rest);
  }

  lemma {:induction false} WalkTiles(d: seq<Row>, q: ListRequest, s: nat)
    requires q.Valid() && Walkable(d, q.limit) && Window(d, q) == SpanFrom(s, q.limit, |d|)
    ensures Tiling(d, q.limit, s, ForwardWalk(d, q))
    decreases |d| - s
  {
    if s + q.limit < |d| {
      var q' := Following(d, q.limit, s);
      WalkContinues(d, q, s);
      WalkTiles(d, q', s + q.limit);
      TilingStep(d, q, s, ForwardWalk(d, q'));
    } else {
      WalkEnds(d, q, s);
    }
  }

  lemma {:induction false} TilingCoversRest(d: seq<Row>, limit: nat, s: nat, pages: seq<ListResponse>)
    requires limit > 0 && Tiling(d, limit, s, pages)
    ensures Rows(pages) == d[s..]
    decreases |pages|
  {
    if s + limit < |d| {
      TilingCoversRest(d, limit, s + limit, pages[1..]);
    }
  }

  lemma {:induction false} TilingLength(d: seq<Row>, limit: nat, s: nat, pages: seq<ListResponse>)
    requires limit > 0 && Tiling(d, limit, s, pages)
    ensures |pages| == Max(Pages(|d| - s, limit), 1)
    decreases |pages|
  {
    if s + limit < |d| {
      TilingLength(d, limit, s + limit, pages[1..]);
    }
  }

  lemma {:induction false} TilingAt(d: seq<Row>, limit: nat, s: nat, pages: seq<ListResponse>, i: nat, start: int)
    requires Tiling(d, limit, s, pages) && i < |pages| && start == s + i * limit
    ensures PageAt(d, limit, start, pages[i])
    decreases i
  {
    if i > 0 {
      assert start == s + limit + (i - 1) * limit;
      TilingAt(d, limit, s + limit, pages[1..], i - 1, start);
    }
  }

  /** The walk that starts without a cursor. */
  ghost function WholeWalk(d: seq<Row>, limit: nat): (pages: seq<ListResponse>)
    requires Walkable(d, limit)
    ensures Tiling(d, limit, 0, pages)
  {
    WalkTiles(d, First(limit), 0);
    ForwardWalk(d, First(limit))
  }

  /** Without a cursor first and then along `nextCursor`, a walk visits every row exactly once in
      descending order, on as few pages as can hold them. */
  lemma {:induction false} ForwardWalkTiles(table: seq<Row>, keep: Row -> bool, limit: nat)
    requires Storable(table) && Walkable(Listing(table, keep), limit)
    ensures var d := Listing(table, keep); var pages := WholeWalk(d, limit);
            && Rows(pages) == d && Descending(d)
            && |pages| == Max(Pages(|d|, limit), 1)
            && (forall r :: r in Rows(pages) <==> r in table && keep(r))
  {
    var d := Listing(table, keep);
    var pages := WholeWalk(d, limit);
    ListingFacts(table, keep);
    TilingCoversRest(d, limit, 0, pages);
    TilingLength(d, limit, 0, pages);
    assert d[0..] == d;
  }

  lemma {:induction false} PageNumberOfProduct(limit: nat, i: nat, start: int)
    requires limit > 0 && start == i * limit
    ensures start >= 0 && PageNumber(start, limit) == i + 1
    decreases i
  {
    if i > 0 {
      ScaleDown(i, limit);
      PageNumberOfProduct(limit, i - 1, start - limit);
    }
  }

  /** Page i of the walk starts at row i * limit and calls itself page i + 1; `total` and `totalPages` are the
      same on every page. */
  lemma ForwardWalkPage(d: seq<Row>, limit: nat, i: nat)
    requires Walkable(d, limit) && i < |WholeWalk(d, limit)|
    ensures PageAt(d, limit, i * limit, WholeWalk(d, limit)[i])
    ensures WholeWalk(d, limit)[i].meta.currentPage == i + 1
  {
    var pages := WholeWalk(d, limit);
    TilingAt(d, limit, 0, pages, i, i * limit);
    PageNumberOfProduct(limit, i, i * limit);
    TilingLength(d, limit, 0, pages);
  }

  /** The pages met by following `previousCursor` from a request on. */
  ghost function BackwardWalk(d: seq<Row>, q: ListRequest): seq<ListResponse>
    requires q.Valid() && Walkable(d, q.limit) && Window(d, q).start < Window(d, q).end
    decreases Window(d, q).start
  {
    var r := Respond(d, q);
    if r.keys.previousCursor.None? then [r]
    else
      PreviousPrecedes(d, q);
      [r] + BackwardWalk(d, Before(q.limit, r.keys.previousCursor.value))
  }

  function RowsBackward(pages: seq<ListResponse>): seq<Row> {
    if pages == [] then [] else RowsBackward(pages[1..]) + pages[0].data
  }

  lemma PageNamesPreceding(d: seq<Row>, q: ListRequest, s: nat, end: nat)
    requires q.Valid() && Window(d, q) == Span(s, end) && s < end
    ensures Respond(d, q).data == d[s..end]
    ensures Respond(d, q).keys.previousCursor == if s > 0 then Some(d[s].id) else None
  {
  }

  lemma BackwardWalkUnfolds(d: seq<Row>, q: ListRequest, previous: string)
    requires q.Valid() && Walkable(d, q.limit) && Window(d, q).start < Window(d, q).end
    requires Respond(d, q).keys.previousCursor == Some(previous)
    requires Window(d, Before(q.limit, previous)).start < Window(d, Before(q.limit, previous)).end
    ensures BackwardWalk(d, q) == [Respond(d, q)] + BackwardWalk(d, Before(q.limit, previous))
  {
  }

  lemma BackwardWalkContinues(d: seq<Row>, q: ListRequest, s: nat, end: nat)
    requires q.Valid() && Walkable(d, q.limit) && Window(d, q) == Span(s, end) && 0 < s < end
    ensures Window(d, Before(q.limit, d[s].id)) == SpanUpTo(s, q.limit)
    ensures BackwardWalk(d, q) == [Respond(d, q)] + BackwardWalk(d, Before(q.limit, d[s].id))
  {
    PageNamesPreceding(d, q, s, end);
    PreviousPrecedes(d, q);
    BackwardWalkUnfolds(d, q, d[s].id);
  }

  lemma BackwardWalkEnds(d: seq<Row>, q: ListRequest, s: nat, end: nat)
    requires q.Valid() && Walkable(d, q.limit) && Window(d, q) == Span(s, end) && s == 0 < end
    ensures RowsBackward(BackwardWalk(d, q)) == d[s..end]
  {
    PageNamesPreceding(d, q, s, end);
    assert BackwardWalk(d, q) == [Respond(d, q)] + [];
    RowsOneMore(Respond(d, q), []);
  }

  lemma RowsOneMore(r: ListResponse, rest: seq<ListResponse>)
    ensures RowsBackward([r] + rest) == RowsBackward(rest) + r.data
  {
    assert ([r] + rest)[1..] == rest;
  }

  lemma BackwardStep(d: seq<Row>, q: ListRequest, s: nat, end: nat)
    requires q.Valid() && Walkable(d, q.limit) && Window(d, q) == Span(s, end) && 0 < s < end
    requires Window(d, Before(q.limit, d[s].id)) == SpanUpTo(s, q.limit)
    requires RowsBackward(BackwardWalk(d, Before(q.limit, d[s].id))) == d[..s]
    ensures RowsBackward(BackwardWalk(d, q)) == d[..end]
  {
    BackwardWalkContinues(d, q, s, end);
    PageNamesPreceding(d, q, s, end);
    RowsOneMore(Respond(d, q), BackwardWalk(d, Before(q.limit, d[s].id)));
    JoinSlices(d, s, end);
  }

  lemma JoinSlices(d: seq<Row>, s: nat, end: nat)
    requires s <= end <= |d|
    ensures d[..s] + d[s..end] == d[..end]
  {
  }

  /** Walking back from any page and joining the pages in listing order gives everything down to its end. */
  lemma {:induction false} BackwardWalkTiles(d: seq<Row>, q: ListRequest, s: nat, end: nat)
    requires q.Valid() && Walkable(d, q.limit) && Window(d, q) == Span(s, end) && s < end
    ensures RowsBackward(BackwardWalk(d, q)) == d[..end]
    decreases s
  {
    if s > 0 {
      BackwardWalkContinues(d, q, s, end);
      BackwardWalkTiles(d, Before(q.limit, d[s].id), Max(s - q.limit, 0), s);
      BackwardStep(d, q, s, end);
    } else {
      BackwardWalkEnds(d, q, s, end);
      assert d[0..end] == d[..end];
    }
  }

  // ----- hasNextPage against nextCursor -----

  /** On a page with rows `hasNextPage` implies a `nextCursor`. The converse fails exactly on a
      `before` page cut short by the top of the listing when one full page would hold every row. */
  lemma HasNextAgainstCursor(d: seq<Row>, q: ListRequest)
    requires q.Valid() && Window(d, q).start < Window(d, q).end
    ensures Respond(d, q).meta.hasNextPage ==> Respond(d, q).keys.nextCursor.Some?
    ensures Respond(d, q).keys.nextCursor.Some? && !Respond(d, q).meta.hasNextPage <==> CutShort(d, q)
  {
    var Span(start, end) := Window(d, q);
    assert Respond(d, q).keys == WindowKeys(d, start, end);
    assert start + q.limit != Min(start + q.limit, |d|) ==> start + q.limit > |d|;
  }

  ghost predicate CutShort(d: seq<Row>, q: ListRequest) {
    && q.page.None? && Given(q.after).None? && Given(q.before).Some?
    && Above(d, q.before.value) < |d| <= q.limit
  }

  /** A row as publishing a bundle for version 1.0.0 stores it. */
  function Named(id: string): Row {
    Store.BundleRow("app", id, "ios", false, true, "hash", None, None, "production", "s3://bucket/bundle", Some("1.0.0"),
                    None, Some(Json.Object(map[])), 1000, None, None, None, None)
  }

  /** Three rows, limit three, before the last one: there is a next cursor but no next page. */
  lemma ShortBeforePage()
    ensures var d := [Named("c"), Named("b"), Named("a")]; var q := Before(3, "a");
            && Descending(d)
            && Respond(d, q).data == d[..2]
            && Respond(d, q).keys.nextCursor == Some("b") && !Respond(d, q).meta.hasNextPage
  {
    var d := [Named("c"), Named("b"), Named("a")];
    assert Fold("a") == "a" && Fold("b") == "b" && Fold("c") == "c";
    assert Above(d[2..], "a") == 0;
    assert Above(d[1..], "a") == 1 && d[1..][1..] == d[2..];
    assert Above(d, "a") == 2;
  }
}
