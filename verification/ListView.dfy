/** Reading bundles back: the list view and the item view show the same patches, and what was published. */
module ListView {
  import opened Wrappers
  import opened Text
  import opened Json
  import opened Store
  import opened StoreInvariant
  import opened StoreIdempotence
  import opened PatchLists

  // ----- the two patch queries -----

  /** `ORDER BY order_index ASC, base_bundle_id ASC`. */
  predicate Before(p: PatchRow, q: PatchRow) {
    p.orderIndex < q.orderIndex || (p.orderIndex == q.orderIndex && Less(Fold(p.baseBundleId), Fold(q.baseBundleId)))
  }

  /** rows is one of the answers the database may give to the query for the patches of the wanted bundles:
      all of them, each once, in an order the ORDER BY clause allows. */
  ghost predicate Answers(db: Db, wanted: set<Key>, rows: seq<PatchRow>) {
    && (forall p :: p in rows <==> exists k :: k in db.patches && db.patches[k] == p && Owner(p) in wanted)
    && (forall i, j :: 0 <= i < j < |rows| ==> rows[i] != rows[j])
    && (forall i, j :: 0 <= i < j < |rows| ==> !Before(rows[j], rows[i]))
  }

  /** The rows of a batched answer that belong to one bundle, as the list handler picks them. */
  function Group(rows: seq<PatchRow>, k: Key): seq<PatchRow> {
    if rows == [] then []
    else Group(rows[..|rows| - 1], k) + if Owner(rows[|rows| - 1]) == k then [rows[|rows| - 1]] else []
  }

  lemma {:induction false} GroupMembers(rows: seq<PatchRow>, k: Key)
    ensures forall p :: p in Group(rows, k) <==> p in rows && Owner(p) == k
  {
    if rows != [] {
      GroupMembers(rows[..|rows| - 1], k);
      assert rows == rows[..|rows| - 1] + [rows[|rows| - 1]];
    }
  }

  /** Rows in strictly ascending position. */
  predicate Ascending(rows: seq<PatchRow>) {
    forall i, j :: 0 <= i < j < |rows| ==> rows[i].orderIndex < rows[j].orderIndex
  }

  /** Within one bundle positions differ, so an allowed order is strictly ascending. */
  lemma AnswersAscend(db: Db, wanted: set<Key>, rows: seq<PatchRow>, i: nat, j: nat)
    requires StoreOk(db) && Answers(db, wanted, rows) && i < j < |rows| && Owner(rows[i]) == Owner(rows[j])
    ensures rows[i].orderIndex < rows[j].orderIndex
  {
    assert rows[i] in rows && rows[j] in rows;
    var a :| a in db.patches && db.patches[a] == rows[i];
    var b :| b in db.patches && db.patches[b] == rows[j];
    assert SamePosition(rows[i], rows[j]) ==> a == b;
  }

  lemma AscendingOneMore(rows: seq<PatchRow>, last: PatchRow)
    requires Ascending(rows) && forall p :: p in rows ==> p.orderIndex < last.orderIndex
    ensures Ascending(rows + [last])
  {
  }

  lemma GroupStaysBelow(db: Db, wanted: set<Key>, rows: seq<PatchRow>, n: nat)
    requires StoreOk(db) && Answers(db, wanted, rows) && n < |rows|
    ensures forall p :: p in Group(rows[..n], Owner(rows[n])) ==> p.orderIndex < rows[n].orderIndex
  {
    GroupMembers(rows[..n], Owner(rows[n]));
    forall p | p in Group(rows[..n], Owner(rows[n]))
      ensures p.orderIndex < rows[n].orderIndex
    {
      var i :| 0 <= i < n && rows[..n][i] == p;
      AnswersAscend(db, wanted, rows, i, n);
    }
  }

  lemma GroupOneMore(rows: seq<PatchRow>, n: nat, k: Key)
    requires 0 < n <= |rows|
    ensures Group(rows[..n], k) == Group(rows[..n - 1], k) + if Owner(rows[n - 1]) == k then [rows[n - 1]] else []
  {
    assert rows[..n][..n - 1] == rows[..n - 1];
  }

  lemma GroupAscendsStep(db: Db, wanted: set<Key>, rows: seq<PatchRow>, n: nat, k: Key)
    requires StoreOk(db) && Answers(db, wanted, rows) && n < |rows| && Ascending(Group(rows[..n], k))
    ensures Ascending(Group(rows[..n + 1], k))
  {
    GroupOneMore(rows, n + 1, k);
    if Owner(rows[n]) == k {
      GroupStaysBelow(db, wanted, rows, n);
      AscendingOneMore(Group(rows[..n], k), rows[n]);
    }
  }

  lemma {:induction false} GroupAscends(db: Db, wanted: set<Key>, rows: seq<PatchRow>, n: nat, k: Key)
    requires StoreOk(db) && Answers(db, wanted, rows) && n <= |rows|
    ensures Ascending(Group(rows[..n], k))
  {
    if n > 0 {
      GroupAscends(db, wanted, rows, n - 1, k);
      GroupAscendsStep(db, wanted, rows, n - 1, k);
    }
  }

  lemma SameLast(a: seq<PatchRow>, b: seq<PatchRow>)
    requires Ascending(a) && Ascending(b) && a != [] && b != [] && forall p :: p in a <==> p in b
    ensures a[|a| - 1] == b[|b| - 1]
  {
    var m, n := |a| - 1, |b| - 1;
    assert a[m] in b && b[n] in a;
    var i :| 0 <= i < |b| && b[i] == a[m];
    var j :| 0 <= j < |a| && a[j] == b[n];
  }

  /** A set of rows has one ascending order. */
  lemma {:induction false} AscendingIsUnique(a: seq<PatchRow>, b: seq<PatchRow>)
    requires Ascending(a) && Ascending(b) && forall p :: p in a <==> p in b
    ensures a == b
  {
    assert a != [] ==> a[0] in b;
    assert b != [] ==> b[0] in a;
    if a != [] {
      SameLast(a, b);
      FrontMembers(a, b);
      FrontMembers(b, a);
      AscendingIsUnique(Front(a), Front(b));
      assert a == Front(a) + [a[|a| - 1]] && b == Front(b) + [b[|b| - 1]];
    }
  }

  function Front(rows: seq<PatchRow>): seq<PatchRow>
    requires rows != []
  {
    rows[..|rows| - 1]
  }

  lemma FrontMembers(a: seq<PatchRow>, b: seq<PatchRow>)
    requires Ascending(a) && a != [] && b != [] && a[|a| - 1] == b[|b| - 1]
    requires forall p :: p in a ==> p in b
    ensures forall p :: p in Front(a) ==> p in Front(b)
  {
    forall p | p in Front(a)
      ensures p in Front(b)
    {
      var i :| 0 <= i < |a| - 1 && a[i] == p;
      assert a[i] in a;
      var j :| 0 <= j < |b| && b[j] == p;
      assert Front(b)[j] == p;
    }
  }

  /** The answer for one bundle is strictly ascending. */
  lemma ItemAscends(db: Db, k: Key, item: seq<PatchRow>)
    requires StoreOk(db) && Answers(db, {k}, item)
    ensures Ascending(item)
  {
    forall i, j | 0 <= i < j < |item|
      ensures item[i].orderIndex < item[j].orderIndex
    {
      assert item[i] in item && item[j] in item;
      AnswersAscend(db, {k}, item, i, j);
    }
  }

  /** The one batched query, split per bundle, gives each bundle the answer of its own query:
      same patches, same order, whatever order the database picks among ties. */
  lemma {:induction false} ListAgreesWithItem(db: Db, wanted: set<Key>, batch: seq<PatchRow>, k: Key, item: seq<PatchRow>)
    requires StoreOk(db) && k in wanted && Answers(db, wanted, batch) && Answers(db, {k}, item)
    ensures Group(batch, k) == item
  {
    GroupAscends(db, wanted, batch, |batch|, k);
    assert batch[..|batch|] == batch;
    GroupMembers(batch, k);
    ItemAscends(db, k, item);
    AscendingIsUnique(Group(batch, k), item);
  }

  // ----- response bodies -----

  /** The response body of one bundle. */
  datatype ClientBundle = ClientBundle(
    row: BundleRow, metadata: Option<Json>, targetCohorts: Option<seq<string>>,
    patches: seq<CliPatch>, primaryPatch: Option<CliPatch>)

  function ToClient(p: PatchRow): CliPatch {
    CliPatch(p.baseBundleId, p.baseFileHash, p.patchFileHash, p.patchStorageUri)
  }

  function MapToClientBundle(b: BundleRow, rows: seq<PatchRow>, fromText: string -> Option<Json>): ClientBundle {
    var patches := seq(|rows|, i requires 0 <= i < |rows| => ToClient(rows[i]));
    ClientBundle(b, ParseBundleMetadata(b.metadata, fromText), ParseTargetCohorts(b.targetCohorts, fromText),
                 patches, if patches == [] then None else Some(patches[0]))
  }

  /** The rows written for a list of patches, in order. */
  function RowsFor(app: string, bundleId: string, list: seq<CliPatch>): seq<PatchRow> {
    seq(|list|, i requires 0 <= i < |list| => PatchRowOf(app, bundleId, list[i], i))
  }

  lemma {:induction false} PatchMapHolds(app: string, bundleId: string, list: seq<CliPatch>, n: nat, i: nat)
    requires i < n <= |list| && DistinctBases(list) && ':' !in Fold(bundleId)
    ensures var p := PatchRowOf(app, bundleId, list[i], i); var m := PatchMap(app, bundleId, list, n);
            KeyOf(app, p.id) in m && m[KeyOf(app, p.id)] == p
  {
    if i < n - 1 {
      PatchMapHolds(app, bundleId, list, n - 1, i);
      var p, last := PatchRowOf(app, bundleId, list[i], i), PatchRowOf(app, bundleId, list[n - 1], n - 1);
      if KeyOf(app, p.id) == KeyOf(app, last.id) {
        PatchKeyIsInjective(bundleId, p.baseBundleId, bundleId, last.baseBundleId);
      }
    }
  }

  /** The patches stored for the bundle are those of the list, as written. */
  ghost predicate HoldsList(db: Db, app: string, bundleId: string, list: seq<CliPatch>) {
    && DistinctBases(list) && ':' !in Fold(bundleId)
    && PatchesAt(db.patches, KeyOf(app, bundleId)) == PatchMap(app, bundleId, list, |list|)
  }

  /** The patches a saved bundle is read back with are the ones it was saved with, in their order. */
  lemma SavedPatchesAreRead(db: Db, app: string, b: CliBundle, rows: seq<PatchRow>)
    requires StoreOk(db) && ValidBundle(b) && Holds(db, app, b, KeyOf(app, b.id))
    requires Answers(db, {KeyOf(app, b.id)}, rows)
    ensures rows == RowsFor(app, b.id, PatchesOf(b.patches))
  {
    ValidIdHasNoColon(b.id);
    PatchesOfIsDistinct(b.patches);
    ListIsRead(db, app, b.id, PatchesOf(b.patches), rows);
  }

  lemma ListIsRead(db: Db, app: string, bundleId: string, list: seq<CliPatch>, rows: seq<PatchRow>)
    requires StoreOk(db) && HoldsList(db, app, bundleId, list) && Answers(db, {KeyOf(app, bundleId)}, rows)
    ensures rows == RowsFor(app, bundleId, list)
  {
    ItemAscends(db, KeyOf(app, bundleId), rows);
    ReadWasWritten(db, app, bundleId, list, rows);
    WrittenIsRead(db, app, bundleId, list, rows);
    AscendingIsUnique(rows, RowsFor(app, bundleId, list));
  }

  lemma ReadWasWritten(db: Db, app: string, bundleId: string, list: seq<CliPatch>, rows: seq<PatchRow>)
    requires HoldsList(db, app, bundleId, list) && Answers(db, {KeyOf(app, bundleId)}, rows)
    ensures forall p :: p in rows ==> p in RowsFor(app, bundleId, list)
  {
    forall p | p in rows
      ensures p in RowsFor(app, bundleId, list)
    {
      var x :| x in db.patches && db.patches[x] == p;
      assert x in PatchesAt(db.patches, KeyOf(app, bundleId));
      PatchMapContents(app, bundleId, list, |list|, x);
      var i :| 0 <= i < |list| && PatchMap(app, bundleId, list, |list|)[x] == PatchRowOf(app, bundleId, list[i], i);
      assert RowsFor(app, bundleId, list)[i] == p;
    }
  }

  lemma WrittenIsRead(db: Db, app: string, bundleId: string, list: seq<CliPatch>, rows: seq<PatchRow>)
    requires HoldsList(db, app, bundleId, list) && Answers(db, {KeyOf(app, bundleId)}, rows)
    ensures forall p :: p in RowsFor(app, bundleId, list) ==> p in rows
  {
    var written := RowsFor(app, bundleId, list);
    forall p | p in written
      ensures p in rows
    {
      var i :| 0 <= i < |written| && written[i] == p;
      PatchMapHolds(app, bundleId, list, |list|, i);
      assert KeyOf(app, p.id) in PatchesAt(db.patches, KeyOf(app, bundleId));
    }
  }

  // ----- publishing and then reading -----

  /** The fields of a response as a publish request would carry them, patches aside. */
  function AsSent(c: ClientBundle): CliBundle {
    var r := c.row;
    CliBundle(r.id, r.platform, Some(r.shouldForceUpdate), Some(r.enabled), r.fileHash, r.gitCommitHash, r.message,
              Some(r.channel), r.storageUri, r.targetAppVersion, r.fingerprintHash, c.metadata,
              Some(r.rolloutCohortCount), c.targetCohorts, r.manifestStorageUri, r.manifestFileHash,
              r.assetBaseStorageUri, None)
  }

  /** b with its defaults written out, patches aside; metadata is shown as it is read back. */
  function Filled(b: CliBundle, fromText: string -> Option<Json>): CliBundle {
    b.(shouldForceUpdate := Some(GetOr(b.shouldForceUpdate, false)),
       enabled := Some(GetOr(b.enabled, true)),
       channel := Some(GetOr(b.channel, "production")),
       rolloutCohortCount := Some(GetOr(b.rolloutCohortCount, 1000)),
       metadata := ParseBundleMetadata(Some(GetOr(b.metadata, Object(map[]))), fromText),
       patches := None)
  }

  lemma PostedRow(db: Db, app: string, b: CliBundle)
    requires StoreOk(db) && Create(db, app, [b]).0 == Created
    ensures var d, k := Create(db, app, [b]).1, KeyOf(app, b.id);
            ValidBundle(b) && StoreOk(d) && Holds(d, app, b, k) && Fold(d.bundles[k].id) == Fold(b.id)
  {
    var d, k := Create(db, app, [b]).1, KeyOf(app, b.id);
    PostOfOne(db, app, b);
    SavedOne(db, app, b, k);
    assert RowOk(k, d.bundles[k]);
  }

  lemma ClientShowsRow(app: string, b: CliBundle, row: BundleRow, rows: seq<PatchRow>, fromText: string -> Option<Json>)
    requires row == Over(RowOf(app, b), row) && rows == RowsFor(app, b.id, PatchesOf(b.patches))
    ensures var c, list := MapToClientBundle(row, rows, fromText), PatchesOf(b.patches);
            && AsSent(c) == Filled(b, fromText).(id := row.id)
            && c.patches == list && c.primaryPatch == (if list == [] then None else Some(list[0]))
            && (c.metadata == b.metadata <==> b.metadata.Some? && b.metadata.value.Object?)
  {
    var list := PatchesOf(b.patches);
    assert seq(|rows|, i requires 0 <= i < |rows| => ToClient(rows[i])) == list;
    if b.targetCohorts.Some? {
      CohortsRoundTrip(b.targetCohorts.value, fromText);
    }
  }

  /** GET after POST shows the bundle as it was sent, defaults filled in and patches in their order; only
      the spelling of an id that was taken before may differ in case. The metadata comes back as it was sent
      exactly when it was sent as an object. */
  lemma GetAfterPost(db: Db, app: string, b: CliBundle, rows: seq<PatchRow>, fromText: string -> Option<Json>)
    requires StoreOk(db) && Create(db, app, [b]).0 == Created
    requires Answers(Create(db, app, [b]).1, {KeyOf(app, b.id)}, rows)
    ensures var d, k, list := Create(db, app, [b]).1, KeyOf(app, b.id), PatchesOf(b.patches);
            && k in d.bundles && Fold(d.bundles[k].id) == Fold(b.id)
            && var c := MapToClientBundle(d.bundles[k], rows, fromText);
               && AsSent(c) == Filled(b, fromText).(id := d.bundles[k].id)
               && c.patches == list && c.primaryPatch == (if list == [] then None else Some(list[0]))
               && (c.metadata == b.metadata <==> b.metadata.Some? && b.metadata.value.Object?)
  {
    var d, k := Create(db, app, [b]).1, KeyOf(app, b.id);
    PostedRow(db, app, b);
    SavedPatchesAreRead(d, app, b, rows);
    ClientShowsRow(app, b, d.bundles[k], rows, fromText);
  }

  /** Said of the request's JSON: an array that spells out a list with distinct bases comes back as that list, and
      what is no array as no patches. */
  lemma PatchesAfterPost(
    db: Db, app: string, b: CliBundle, list: seq<CliPatch>, rows: seq<PatchRow>, fromText: string -> Option<Json>)
    requires StoreOk(db) && Create(db, app, [b]).0 == Created
    requires Answers(Create(db, app, [b]).1, {KeyOf(app, b.id)}, rows)
    requires (Spells(b.patches, list) && DistinctBases(list)) || (list == [] && (b.patches.None? || !b.patches.value.Array?))
    ensures var d, k := Create(db, app, [b]).1, KeyOf(app, b.id);
            && k in d.bundles
            && var c := MapToClientBundle(d.bundles[k], rows, fromText);
               c.patches == list && c.primaryPatch == (if list == [] then None else Some(list[0]))
  {
    GetAfterPost(db, app, b, rows, fromText);
    if Spells(b.patches, list) && DistinctBases(list) {
      SpelledListIsRead(b.patches, list);
    }
  }

  lemma ClientShowsList(
    b: BundleRow, app: string, id: string, list: seq<CliPatch>, rows: seq<PatchRow>, fromText: string -> Option<Json>)
    requires rows == RowsFor(app, id, list)
    ensures MapToClientBundle(b, rows, fromText).patches == list
  {
    assert seq(|rows|, i requires 0 <= i < |rows| => ToClient(rows[i])) == list;
  }

  /** After an accepted PATCH that sends such an array the bundle is shown with that list; after one that does not
      mention patches, with the ones it had. */
  lemma PatchesAfterPatch(
    db: Db, app: string, id: string, p: Payload, list: seq<CliPatch>, rows: seq<PatchRow>, fromText: string -> Option<Json>)
    requires StoreOk(db) && Update(db, app, id, p, fromText).0 == Success
    requires Answers(Update(db, app, id, p, fromText).1, {KeyOf(app, id)}, rows)
    ensures KeyOf(app, id) in Update(db, app, id, p, fromText).1.bundles
    ensures p.patches.Given? && Spells(p.patches.value, list) && DistinctBases(list) ==>
              MapToClientBundle(Update(db, app, id, p, fromText).1.bundles[KeyOf(app, id)], rows, fromText).patches == list
    ensures p.patches.Absent? ==> Answers(db, {KeyOf(app, id)}, rows)
  {
    var d, k := Update(db, app, id, p, fromText).1, KeyOf(app, id);
    UpdateExactly(db, app, id, p, fromText);
    if p.patches.Given? && Spells(p.patches.value, list) && DistinctBases(list) {
      SpelledListIsRead(p.patches.value, list);
      assert RowOk(k, db.bundles[k]);
      ValidIdHasNoColon(db.bundles[k].id);
      PatchesAfterExchange(db, app, id, list, k);
      ListIsRead(d, app, id, list, rows);
      ClientShowsList(d.bundles[k], app, id, list, rows, fromText);
    }
  }
}
