/** Rows ordered by id the way the database orders them: ids compare without regard to ASCII case. */
module IdOrder {
  import opened Text
  import Store

  type Row = Store.BundleRow

  predicate IdLess(a: string, b: string) {
    Less(Fold(a), Fold(b))
  }

  predicate SameId(a: string, b: string) {
    Fold(a) == Fold(b)
  }

  /** What the primary key guarantees of the rows of one app. */
  predicate DistinctIds(rows: seq<Row>) {
    forall i, j :: 0 <= i < j < |rows| ==> !SameId(rows[i].id, rows[j].id)
  }

  predicate Descending(rows: seq<Row>) {
    forall i, j :: 0 <= i < j < |rows| ==> IdLess(rows[j].id, rows[i].id)
  }

  /** `WHERE`: the rows that pass, in storage order. */
  function Where(rows: seq<Row>, keep: Row -> bool): seq<Row> {
    if rows == [] then []
    else (if keep(rows[0]) then [rows[0]] else []) + Where(rows[1..], keep)
  }

  /** `ORDER BY id DESC`. */
  function OrderDesc(rows: seq<Row>): seq<Row> {
    if rows == [] then [] else Insert(rows[0], OrderDesc(rows[1..]))
  }

  function Insert(r: Row, sorted: seq<Row>): seq<Row> {
    if sorted == [] || IdLess(sorted[0].id, r.id) then [r] + sorted
    else [sorted[0]] + Insert(r, sorted[1..])
  }

  function Reverse(rows: seq<Row>): (r: seq<Row>)
    ensures |r| == |rows|
    ensures forall i :: 0 <= i < |rows| ==> r[i] == rows[|rows| - 1 - i]
  {
    if rows == [] then [] else Reverse(rows[1..]) + [rows[0]]
  }

  lemma IdLessIsStrict(a: string, b: string)
    requires IdLess(a, b)
    ensures !IdLess(b, a) && !SameId(a, b)
  {
    LessIsIrreflexive(Fold(a));
    if IdLess(b, a) {
      LessIsTransitive(Fold(a), Fold(b), Fold(a));
    }
  }

  // ----- filtering -----

  lemma {:induction false} WhereMembers(rows: seq<Row>, keep: Row -> bool)
    ensures forall r :: r in Where(rows, keep) <==> r in rows && keep(r)
    ensures |Where(rows, keep)| <= |rows|
  {
    if rows != [] {
      WhereMembers(rows[1..], keep);
    }
  }

  lemma {:induction false} WhereDistinct(rows: seq<Row>, keep: Row -> bool)
    requires DistinctIds(rows)
    ensures DistinctIds(Where(rows, keep))
  {
    if rows != [] {
      WhereDistinct(rows[1..], keep);
      WhereMembers(rows[1..], keep);
      forall r | r in Where(rows[1..], keep)
        ensures !SameId(rows[0].id, r.id)
      {
        var j :| 0 <= j < |rows[1..]| && rows[1..][j] == r;
        assert rows[j + 1] == r;
      }
    }
  }

  /** Filtering twice is filtering once by both. */
  lemma {:induction false} WhereWhere(rows: seq<Row>, p: Row -> bool, q: Row -> bool, both: Row -> bool)
    requires forall r :: both(r) <==> p(r) && q(r)
    ensures Where(Where(rows, p), q) == Where(rows, both)
  {
    if rows != [] {
      WhereWhere(rows[1..], p, q, both);
      var rest := Where(rows[1..], p);
      if p(rows[0]) {
        assert ([rows[0]] + rest)[1..] == rest;
        assert Where([rows[0]] + rest, q) == (if q(rows[0]) then [rows[0]] else []) + Where(rest, q);
      } else {
        assert Where(rows, p) == rest;
        assert Where(rows, both) == Where(rows[1..], both);
      }
    }
  }

  // ----- sorting -----

  lemma {:induction false} InsertMembers(r: Row, sorted: seq<Row>)
    ensures forall x :: x in Insert(r, sorted) <==> x == r || x in sorted
    ensures |Insert(r, sorted)| == |sorted| + 1
  {
    if sorted != [] && !IdLess(sorted[0].id, r.id) {
      InsertMembers(r, sorted[1..]);
    }
  }

  lemma {:induction false} InsertKeepsOrder(r: Row, sorted: seq<Row>)
    requires Descending(sorted) && forall x :: x in sorted ==> !SameId(x.id, r.id)
    ensures Descending(Insert(r, sorted))
  {
    if sorted == [] {
    } else if IdLess(sorted[0].id, r.id) {
      forall i | 0 < i < |sorted|
        ensures IdLess(sorted[i].id, r.id)
      {
        LessIsTransitive(Fold(sorted[i].id), Fold(sorted[0].id), Fold(r.id));
      }
    } else {
      InsertKeepsOrder(r, sorted[1..]);
      InsertMembers(r, sorted[1..]);
      LessIsTotal(Fold(sorted[0].id), Fold(r.id));
      forall x | x in Insert(r, sorted[1..])
        ensures IdLess(x.id, sorted[0].id)
      {
        if x != r {
          var j :| 0 <= j < |sorted[1..]| && sorted[1..][j] == x;
          assert sorted[j + 1] == x;
        }
      }
    }
  }

  /** Sorting rows with distinct ids yields the same rows in strictly descending order. */
  lemma {:induction false} OrderDescSorts(rows: seq<Row>)
    requires DistinctIds(rows)
    ensures Descending(OrderDesc(rows))
    ensures forall r :: r in OrderDesc(rows) <==> r in rows
    ensures |OrderDesc(rows)| == |rows|
  {
    if rows != [] {
      OrderDescSorts(rows[1..]);
      InsertMembers(rows[0], OrderDesc(rows[1..]));
      forall x | x in OrderDesc(rows[1..])
        ensures !SameId(x.id, rows[0].id)
      {
        var j :| 0 <= j < |rows[1..]| && rows[1..][j] == x;
        assert rows[j + 1] == x;
      }
      InsertKeepsOrder(rows[0], OrderDesc(rows[1..]));
    }
  }

  /** A set of rows has one descending order. */
  lemma {:induction false} DescendingIsUnique(a: seq<Row>, b: seq<Row>)
    requires Descending(a) && Descending(b)
    requires forall r :: r in a <==> r in b
    ensures a == b
  {
    assert b != [] ==> b[0] in a;
    if a != [] {
      assert a[0] in b;
      if a[0] != b[0] {
        var i :| 0 <= i < |b| && b[i] == a[0];
        var j :| 0 <= j < |a| && a[j] == b[0];
        assert IdLess(b[i].id, b[0].id) && IdLess(a[j].id, a[0].id);
        IdLessIsStrict(b[i].id, b[0].id);
      }
      TailMembers(a, b);
      TailMembers(b, a);
      DescendingIsUnique(a[1..], b[1..]);
    }
  }

  lemma TailMembers(a: seq<Row>, b: seq<Row>)
    requires Descending(a) && a != [] && b != [] && a[0] == b[0]
    requires forall r :: r in a ==> r in b
    ensures forall r :: r in a[1..] ==> r in b[1..]
  {
    forall r | r in a[1..]
      ensures r in b[1..]
    {
      var i :| 0 <= i < |a[1..]| && a[1..][i] == r;
      assert a[i + 1] == r && a[i + 1] in a && IdLess(r.id, a[0].id);
      IdLessIsStrict(r.id, a[0].id);
      var j :| 0 <= j < |b| && b[j] == r;
      assert b[1..][j - 1] == r;
    }
  }
}
