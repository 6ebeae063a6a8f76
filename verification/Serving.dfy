/** What a store built by requests serves: listings that can be walked, and patches that fit the device. */
module Serving {
  import opened Wrappers
  import opened Text
  import opened Json
  import opened Store
  import opened StoreInvariant
  import opened PatchLists
  import ListView
  import StoreRuns
  import IdOrder
  import Pagination
  import Walks
  import Decision
  import opened Artifacts
  import opened Resolution
  import opened Response
  import opened Layout
  import opened Delivery

  // ----- listings -----

  /** table holds the rows of one app, each once, in whatever order the database stores them. */
  ghost predicate TableOf(db: Db, app: string, table: seq<BundleRow>) {
    && (forall r :: r in table <==> exists k :: k in db.bundles && k.0 == Fold(app) && db.bundles[k] == r)
    && (forall i, j :: 0 <= i < j < |table| ==> table[i] != table[j])
  }

  /** The rows of one app have distinct ids, none of them empty: what the walks rest on. */
  lemma StoredTable(db: Db, app: string, table: seq<BundleRow>)
    requires RowsOk(db) && TableOf(db, app, table)
    ensures IdOrder.DistinctIds(table) && forall r :: r in table ==> r.id != ""
  {
    forall r | r in table
      ensures KeyOf(app, r.id) in db.bundles && db.bundles[KeyOf(app, r.id)] == r && r.id != ""
    {
      var k :| k in db.bundles && k.0 == Fold(app) && db.bundles[k] == r;
      assert RowOk(k, db.bundles[k]);
    }
    forall i, j | 0 <= i < j < |table|
      ensures !IdOrder.SameId(table[i].id, table[j].id)
    {
      assert table[i] in table && table[j] in table;
    }
  }

  /** The listing on which `nextCursor` comes without `hasNextPage` consists of rows a store can hold. */
  lemma ShortListingCanBeStored()
    ensures forall id :: id in ["a", "b", "c"] ==> RowOk(KeyOf("app", id), Walks.Named(id))
  {
    Utf8IsShort("ios");
    Utf8IsShort("hash");
    Utf8IsShort("production");
    Utf8IsShort("s3://bucket/bundle");
    Utf8IsShort("1.0.0");
    assert Trim("1.0.0") == "1.0.0" by {
      TrimOfTrimmed("1.0.0");
    }
  }

  /** Whatever requests built the store, walking an app's bundles along `nextCursor` meets every bundle that
      passes the filter, and no other, once and in descending order. */
  lemma ReachableWalkCovers(
    rs: seq<StoreRuns.StoreRequest>, app: string, table: seq<BundleRow>, keep: BundleRow -> bool, limit: nat,
    fromText: string -> Option<Json>)
    requires TableOf(StoreRuns.Replay(StoreRuns.EMPTY, rs, fromText), app, table) && |table| <= Pagination.I64_MAX
    requires 1 <= limit <= Pagination.MAX_PAGE_SIZE
    ensures var db := StoreRuns.Replay(StoreRuns.EMPTY, rs, fromText); var d := Pagination.Listing(table, keep);
            && Pagination.Storable(table) && Walks.Walkable(d, limit)
            && var met := Walks.Rows(Walks.WholeWalk(d, limit));
               && IdOrder.Descending(met)
               && forall r :: r in met <==> keep(r) && exists k :: k in db.bundles && k.0 == Fold(app) && db.bundles[k] == r
  {
    var db, d := StoreRuns.Replay(StoreRuns.EMPTY, rs, fromText), Pagination.Listing(table, keep);
    StoreRuns.ReachableStoresAreOk(rs, fromText);
    StoredTable(db, app, table);
    Pagination.ListingFacts(table, keep);
    Walks.ForwardWalkTiles(table, keep, limit);
  }

  // ----- patches -----

  datatype Storage = Storage(
    read: string -> Read, presign: string -> Option<string>, parseUrl: string -> Option<Url>)

  function RowAt(db: Db, app: string, id: string): Option<BundleRow> {
    if KeyOf(app, id) in db.bundles then Some(db.bundles[KeyOf(app, id)]) else None
  }

  /** The bundle the device says it runs, looked up within the app; the nil id is no bundle. */
  function CurrentBundle(db: Db, app: string, id: string): Option<BundleRow> {
    if id == Decision.NIL_UUID then None else RowAt(db, app, id)
  }

  function ReadManifest(s: Storage, uri: Option<string>): Read {
    if Artifacts.Given(uri) then s.read(uri.value) else Read.Absent
  }

  function Record(p: PatchRow): PatchRecord {
    PatchRecord(p.baseBundleId, p.baseFileHash, p.patchFileHash, p.patchStorageUri)
  }

  function Records(rows: seq<PatchRow>): seq<PatchRecord> {
    seq(|rows|, i requires 0 <= i < |rows| => Record(rows[i]))
  }

  /** rows holds the patches stored for one bundle, in any order. */
  ghost predicate PatchesFor(db: Db, k: Key, rows: seq<PatchRow>) {
    forall p :: p in rows <==> exists x :: x in db.patches && db.patches[x] == p && Owner(p) == k
  }

  /** What the resolution finds for a target bundle and a device on bundle id. */
  function WorldOf(db: Db, s: Storage, app: string, id: string, target: BundleRow, rows: seq<PatchRow>): World {
    var current := CurrentBundle(db, app, id);
    World(target.manifestStorageUri, ReadManifest(s, target.manifestStorageUri),
          if current.Some? then Some(ReadManifest(s, current.value.manifestStorageUri)) else None,
          target.manifestFileHash, target.assetBaseStorageUri,
          if current.Some? then Some(current.value.id) else None, Records(rows), s.parseUrl, s.presign)
  }

  /** The stored patch x leads from the device's bundle to the target and is complete. */
  ghost predicate Fits(db: Db, app: string, id: string, target: BundleRow, x: Key) {
    && x in db.patches && CurrentBundle(db, app, id).Some?
    && Owner(db.patches[x]) == KeyOf(app, target.id)
    && db.patches[x].baseBundleId == CurrentBundle(db, app, id).value.id
    && db.patches[x].patchStorageUri != "" && db.patches[x].patchFileHash != "" && db.patches[x].baseFileHash != ""
  }

  lemma PatchStays(db: Db, x: Key)
    requires PatchesOk(db) && x in db.patches
    ensures x.0 == Fold(db.patches[x].app) == Owner(db.patches[x]).0 == Base(db.patches[x]).0
  {
    assert PatchOk(x, db.patches[x]);
  }

  /** Two patches of one bundle whose base is spelled the same are one. */
  lemma SameBaseSamePatch(db: Db, k: Key, x: Key, y: Key)
    requires StoreOk(db) && x in db.patches && y in db.patches
    requires Owner(db.patches[x]) == k == Owner(db.patches[y])
    requires db.patches[x].baseBundleId == db.patches[y].baseBundleId
    ensures x == y
  {
    PatchStays(db, x);
    PatchStays(db, y);
    OnePatchPerPair(db, x, y);
  }

  lemma RecordsAreStored(db: Db, k: Key, rows: seq<PatchRow>)
    requires PatchesFor(db, k, rows)
    ensures forall r :: r in Records(rows) <==> exists x :: StoredAs(db, k, x, r)
  {
    forall r
      ensures r in Records(rows) <==> exists x :: StoredAs(db, k, x, r)
    {
      if r in Records(rows) {
        var i :| 0 <= i < |rows| && Records(rows)[i] == r;
        assert rows[i] in rows;
        var x :| x in db.patches && db.patches[x] == rows[i] && Owner(rows[i]) == k;
        assert StoredAs(db, k, x, r);
      }
      if x :| StoredAs(db, k, x, r) {
        assert db.patches[x] in rows;
        var i :| 0 <= i < |rows| && rows[i] == db.patches[x];
        assert Records(rows)[i] == r;
      }
    }
  }

  ghost predicate StoredAs(db: Db, k: Key, x: Key, r: PatchRecord) {
    x in db.patches && Owner(db.patches[x]) == k && Record(db.patches[x]) == r
  }

  /** Only the nil id folds to the nil id. */
  lemma NilHasOneSpelling(id: string)
    requires Fold(id) == Fold(Decision.NIL_UUID)
    ensures id == Decision.NIL_UUID
  {
    var nil := Decision.NIL_UUID;
    assert forall i :: 0 <= i < |nil| ==> nil[i] == '0' || nil[i] == '-';
    forall i | 0 <= i < |id|
      ensures id[i] == nil[i]
    {
      assert Fold(id)[i] == Fold(nil)[i];
    }
  }

  /** Searching the query's rows finds a stored patch with that base, if there is one. */
  lemma FoundIsStored(db: Db, k: Key, rows: seq<PatchRow>, base: string)
    requires PatchesFor(db, k, rows)
    ensures match FindPatch(Records(rows), base)
            case Some(r) => r.baseBundleId == base && exists x :: StoredAs(db, k, x, r)
            case None => forall x :: x in db.patches && Owner(db.patches[x]) == k ==> db.patches[x].baseBundleId != base
  {
    var records := Records(rows);
    FindPatchIsFirst(records, base);
    RecordsAreStored(db, k, rows);
    match FindPatch(records, base)
    case Some(r) =>
      assert r in records;
    case None =>
      forall x | x in db.patches && Owner(db.patches[x]) == k
        ensures db.patches[x].baseBundleId != base
      {
        assert StoredAs(db, k, x, Record(db.patches[x]));
      }
  }

  lemma CurrentIsNotNil(db: Db, app: string, id: string)
    requires RowsOk(db) && CurrentBundle(db, app, id).Some?
    ensures CurrentBundle(db, app, id).value.id != Decision.NIL_UUID
  {
    assert RowOk(KeyOf(app, id), CurrentBundle(db, app, id).value);
    if CurrentBundle(db, app, id).value.id == Decision.NIL_UUID {
      NilHasOneSpelling(id);
    }
  }

  /** The record a plan may use is that of the patch that leads from the device's own bundle to the target,
      and there is none exactly when no complete such patch is stored. */
  lemma CandidateFits(db: Db, s: Storage, app: string, id: string, target: BundleRow, rows: seq<PatchRow>, manifest: Manifest)
    requires StoreOk(db) && PatchesFor(db, KeyOf(app, target.id), rows)
    ensures match Candidate(InputOf(WorldOf(db, s, app, id, target, rows), manifest))
            case Some(record) => exists x :: Fits(db, app, id, target, x) && Record(db.patches[x]) == record
            case None => !exists x :: Fits(db, app, id, target, x)
  {
    var k := KeyOf(app, target.id);
    if CurrentBundle(db, app, id).Some? {
      var base := CurrentBundle(db, app, id).value.id;
      CurrentIsNotNil(db, app, id);
      FoundIsStored(db, k, rows, base);
      if FindPatch(Records(rows), base).Some? {
        FoundFits(db, app, id, target, FindPatch(Records(rows), base).value);
      }
    }
  }

  lemma FoundFits(db: Db, app: string, id: string, target: BundleRow, record: PatchRecord)
    requires StoreOk(db) && CurrentBundle(db, app, id).Some?
    requires record.baseBundleId == CurrentBundle(db, app, id).value.id
    requires exists x :: StoredAs(db, KeyOf(app, target.id), x, record)
    ensures if Usable(record) then exists x :: Fits(db, app, id, target, x) && Record(db.patches[x]) == record
            else !exists x :: Fits(db, app, id, target, x)
  {
    var x :| StoredAs(db, KeyOf(app, target.id), x, record);
    if Usable(record) {
      assert Fits(db, app, id, target, x);
    } else {
      forall y | Fits(db, app, id, target, y)
        ensures y == x
      {
        SameBaseSamePatch(db, KeyOf(app, target.id), x, y);
      }
    }
  }

  /** At most one patch fits, so the order in which the query lists them does not matter. */
  lemma FitIsUnique(db: Db, app: string, id: string, target: BundleRow, x: Key, y: Key)
    requires StoreOk(db) && Fits(db, app, id, target, x) && Fits(db, app, id, target, y)
    ensures x == y
  {
    SameBaseSamePatch(db, KeyOf(app, target.id), x, y);
  }

  lemma RightPatchOfPlan(q: PlanInput, plan: ArtifactPlan)
    requires RightPlan(q, Some(plan))
    ensures RightPatch(q, plan.patch)
  {
  }

  /** A patch record and the asset it lands on, against what is stored. */
  ghost predicate PatchFits(db: Db, app: string, id: string, target: BundleRow, manifest: Manifest, patch: Option<PlannedPatch>) {
    match patch
    case Some(p) =>
      OnlyBundle(manifest, p.assetPath) && exists x :: Fits(db, app, id, target, x) && Record(db.patches[x]) == p.record
    case None => !((exists x :: Fits(db, app, id, target, x)) && exists path :: OnlyBundle(manifest, path))
  }

  lemma RightPatchFits(db: Db, app: string, id: string, target: BundleRow, q: PlanInput, patch: Option<PlannedPatch>)
    requires RightPatch(q, patch)
    requires match Candidate(q)
             case Some(record) => exists x :: Fits(db, app, id, target, x) && Record(db.patches[x]) == record
             case None => !exists x :: Fits(db, app, id, target, x)
    ensures PatchFits(db, app, id, target, q.target, patch)
  {
  }

  /** The patch of a right plan: it is planned exactly when one is stored that leads from the device's own
      bundle to the target and the target has one `.bundle` asset, and it is that patch on that asset. */
  lemma PlannedPatchFits(
    db: Db, s: Storage, app: string, id: string, target: BundleRow, rows: seq<PatchRow>, manifest: Manifest, plan: ArtifactPlan)
    requires StoreOk(db) && PatchesFor(db, KeyOf(app, target.id), rows)
    requires RightPlan(InputOf(WorldOf(db, s, app, id, target, rows), manifest), Some(plan))
    ensures PatchFits(db, app, id, target, manifest, plan.patch)
  {
    var q := InputOf(WorldOf(db, s, app, id, target, rows), manifest);
    RightPatchOfPlan(q, plan);
    CandidateFits(db, s, app, id, target, rows, manifest);
    RightPatchFits(db, app, id, target, q, plan.patch);
  }

  /** The records a check finds for a bundle just published are the JSON items sent with it, field by field. */
  lemma RecordsAreWhatWasSent(db: Db, app: string, b: CliBundle, list: seq<CliPatch>, rows: seq<PatchRow>)
    requires StoreOk(db) && Create(db, app, [b]).0 == Created && Spells(b.patches, list) && DistinctBases(list)
    requires ListView.Answers(Create(db, app, [b]).1, {KeyOf(app, b.id)}, rows)
    ensures PatchesFor(Create(db, app, [b]).1, KeyOf(app, b.id), rows) && |Records(rows)| == |list|
    ensures forall i :: 0 <= i < |list| ==>
              var item, r := b.patches.value.items[i], Records(rows)[i];
              && HasText(item, "baseBundleId", r.baseBundleId) && HasText(item, "baseFileHash", r.baseFileHash)
              && HasText(item, "patchFileHash", r.patchFileHash) && HasText(item, "patchStorageUri", r.patchStorageUri)
  {
    ListView.PostedRow(db, app, b);
    ListView.SavedPatchesAreRead(Create(db, app, [b]).1, app, b, rows);
    SpelledListIsRead(b.patches, list);
    forall i | 0 <= i < |list|
      ensures Records(rows)[i] == PatchRecord(list[i].baseBundleId, list[i].baseFileHash, list[i].patchFileHash, list[i].patchStorageUri)
              && Describes(b.patches.value.items[i], list[i])
    {
      assert rows[i] == PatchRowOf(app, b.id, list[i], i);
    }
  }

  // ----- responses -----

  /** What the server finds during one check of a device on bundle id; query gives the patches of a bundle. */
  function MomentOf(db: Db, s: Storage, app: string, id: string, query: string -> seq<PatchRow>): Moment {
    Moment(
      b => match RowAt(db, app, b)
           case Some(row) => Details(row.storageUri, row.shouldForceUpdate, row.fileHash, row.message)
           case None => Details("", false, "", None),
      b => match RowAt(db, app, b)
           case Some(row) => WorldOf(db, s, app, id, row, query(b))
           case None => World(None, Read.Absent, None, None, None, None, [], s.parseUrl, s.presign))
  }

  /** Every patch of a response can be applied: it starts from the very bundle the device runs, as stored, and
      is the one stored patch from there to the bundle the response names. */
  lemma ServedPatchesApply(
    db: Db, s: Storage, app: string, id: string, query: string -> seq<PatchRow>, q: Decision.Request, info: UpdateInfo, path: string)
    requires StoreOk(db) && RightCheck(q, MomentOf(db, s, app, id, query), id, Ok(Some(info)))
    requires RowAt(db, app, info.id).Some? && PatchesFor(db, KeyOf(app, RowAt(db, app, info.id).value.id), query(info.id))
    requires info.artifacts.Some? && path in info.artifacts.value.changedAssets
    requires info.artifacts.value.changedAssets[path].patch.Some?
    ensures exists x :: Fits(db, app, id, RowAt(db, app, info.id).value, x)
              && Record(db.patches[x]) == info.artifacts.value.changedAssets[path].patch.value.record
  {
    var target := RowAt(db, app, info.id).value;
    var w := WorldOf(db, s, app, id, target, query(info.id));
    assert RightAnswer(w, Ok(info.artifacts));
    DeliveredPatchIsPlanned(w, info.artifacts.value, path);
    var plan :| RightPlan(InputOf(w, w.targetRead.manifest), Some(plan)) && plan.patch.Some?
      && plan.patch.value.record == info.artifacts.value.changedAssets[path].patch.value.record;
    PlannedPatchFits(db, s, app, id, target, query(info.id), w.targetRead.manifest, plan);
  }

  lemma DeliveredPatchIsPlanned(w: World, m: ManifestArtifacts, path: string)
    requires RightAnswer(w, Ok(Some(m))) && path in m.changedAssets && m.changedAssets[path].patch.Some?
    ensures w.targetRead.Parsed?
    ensures exists plan :: RightPlan(InputOf(w, w.targetRead.manifest), Some(plan)) && plan.patch.Some?
              && plan.patch.value.record == m.changedAssets[path].patch.value.record
  {
    var plan := PlanExists(InputOf(w, w.targetRead.manifest));
    assert Answers(w, plan, Ok(Some(m)));
    var k :| 0 <= k < |plan.assets| && plan.assets[k].assetPath == path;
    assert SignedOne(w, plan, plan.assets[k], m.changedAssets);
  }

  // ----- what a response shows -----

  /** An answer that is not the reset shows the stored columns of the bundle it names, and the signed URL of its
      archive; a rollback is forced. */
  lemma ResponseShowsRow(
    db: Db, s: Storage, app: string, id: string, query: string -> seq<PatchRow>, q: Decision.Request, info: UpdateInfo)
    requires RightCheck(q, MomentOf(db, s, app, id, query), id, Ok(Some(info))) && info.fileUrl.Some?
    requires KeyOf(app, info.id) in db.bundles
    ensures var row := db.bundles[KeyOf(app, info.id)];
            && info.fileHash == Some(row.fileHash) && info.message == row.message
            && info.fileUrl == s.presign(row.storageUri)
            && (info.shouldForceUpdate <==> info.status == ROLLBACK || row.shouldForceUpdate)
  {
    AnswerShowsDetails(q, MomentOf(db, s, app, id, query), id, info);
    DetailsAreColumns(db, s, app, id, query, info.id);
  }

  lemma DetailsAreColumns(db: Db, s: Storage, app: string, id: string, query: string -> seq<PatchRow>, b: string)
    requires KeyOf(app, b) in db.bundles
    ensures var d, row := MomentOf(db, s, app, id, query).details(b), db.bundles[KeyOf(app, b)];
            && d.storageUri == row.storageUri && d.shouldForceUpdate == row.shouldForceUpdate
            && d.fileHash == row.fileHash && d.message == row.message
    ensures MomentOf(db, s, app, id, query).world(b) == WorldOf(db, s, app, id, db.bundles[KeyOf(app, b)], query(b))
  {
  }

  /** The device's own bundle is stored and its manifest has the asset with this hash. */
  predicate DeviceHas(db: Db, s: Storage, app: string, id: string, path: string, hash: string) {
    && id != Decision.NIL_UUID && KeyOf(app, id) in db.bundles
    && var uri := db.bundles[KeyOf(app, id)].manifestStorageUri;
       && uri.Some? && uri.value != "" && s.read(uri.value).Parsed?
       && path in s.read(uri.value).manifest && s.read(uri.value).manifest[path] == hash
  }

  lemma ResponseResolves(
    db: Db, s: Storage, app: string, id: string, query: string -> seq<PatchRow>, q: Decision.Request, info: UpdateInfo)
    requires RightCheck(q, MomentOf(db, s, app, id, query), id, Ok(Some(info))) && info.fileUrl.Some?
    requires KeyOf(app, info.id) in db.bundles
    ensures RightAnswer(WorldOf(db, s, app, id, db.bundles[KeyOf(app, info.id)], query(info.id)), Ok(info.artifacts))
  {
  }

  lemma WorldHasWhatDeviceHas(
    db: Db, s: Storage, app: string, id: string, target: BundleRow, rows: seq<PatchRow>, path: string, hash: string)
    ensures Has(WorldOf(db, s, app, id, target, rows), path, hash) <==> DeviceHas(db, s, app, id, path, hash)
  {
  }

  /** Its artifacts are those of the stored target: the manifest behind the row's URI, signed, with the row's hash;
      and one entry, with the manifest's hash, for exactly the assets that the manifest of the device's own row
      does not have. */
  lemma ResponseShowsDifference(
    db: Db, s: Storage, app: string, id: string, query: string -> seq<PatchRow>, q: Decision.Request, info: UpdateInfo)
    requires RightCheck(q, MomentOf(db, s, app, id, query), id, Ok(Some(info))) && info.fileUrl.Some?
    requires KeyOf(app, info.id) in db.bundles && info.artifacts.Some?
    ensures var row, m := db.bundles[KeyOf(app, info.id)], info.artifacts.value;
            && row.manifestStorageUri.Some? && s.presign(row.manifestStorageUri.value) == Some(m.manifestUrl)
            && row.manifestFileHash == Some(m.manifestFileHash) && s.read(row.manifestStorageUri.value).Parsed?
            && var target := s.read(row.manifestStorageUri.value).manifest;
               && (forall path :: path in m.changedAssets <==>
                     path in target && !DeviceHas(db, s, app, id, path, target[path]))
               && (forall path :: path in m.changedAssets ==> m.changedAssets[path].fileHash == target[path])
  {
    var row := db.bundles[KeyOf(app, info.id)];
    var w := WorldOf(db, s, app, id, row, query(info.id));
    ResponseResolves(db, s, app, id, query, q, info);
    AnswerIsDifference(w, info.artifacts.value);
    forall path, hash
      ensures Has(w, path, hash) <==> DeviceHas(db, s, app, id, path, hash)
    {
      WorldHasWhatDeviceHas(db, s, app, id, row, query(info.id), path, hash);
    }
  }

  /** ... and every file of an entry is the signed object that the storage layout puts below the row's asset base. */
  lemma ResponseShowsFiles(
    db: Db, s: Storage, app: string, id: string, query: string -> seq<PatchRow>, q: Decision.Request, info: UpdateInfo,
    path: string) returns (a: PlannedAsset)
    requires RightCheck(q, MomentOf(db, s, app, id, query), id, Ok(Some(info))) && info.fileUrl.Some?
    requires KeyOf(app, info.id) in db.bundles && info.artifacts.Some? && path in info.artifacts.value.changedAssets
    ensures var row, c := db.bundles[KeyOf(app, info.id)], info.artifacts.value.changedAssets[path];
            && row.manifestStorageUri.Some? && s.read(row.manifestStorageUri.value).Parsed?
            && row.assetBaseStorageUri.Some? && s.parseUrl(row.assetBaseStorageUri.value).Some?
            && a.assetPath == path
            && StoredRight(s.read(row.manifestStorageUri.value).manifest, s.parseUrl(row.assetBaseStorageUri.value).value, a)
            && (c.file.Some? ==> s.presign(a.storageUri) == Some(c.file.value.url) && c.file.value.compressed == a.compressed)
            && (c.file.None? ==> s.presign(a.storageUri) == None && c.patch.Some?)
  {
    var row := db.bundles[KeyOf(app, info.id)];
    ResponseResolves(db, s, app, id, query, q, info);
    a := EntriesOffer(WorldOf(db, s, app, id, row, query(info.id)), info.artifacts.value, path);
  }
}
