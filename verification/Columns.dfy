/** Which columns a PATCH sets: how PATCH relates to POST and to other PATCHes, column by column. */
module Columns {
  import opened Wrappers
  import opened Text
  import opened Json
  import opened Store
  import opened StoreInvariant
  import opened StoreIdempotence

  const NOTHING: Payload :=
    Payload(Absent, Absent, Absent, Absent, Absent, Absent, Absent, Absent, Absent, Absent, Absent, Absent, Absent,
            Absent, Absent, Absent, Absent)

  /** A PATCH body that names every field of b; what b leaves out is sent as null, or as its default
      where null is refused. */
  function Everything(b: CliBundle): Payload {
    Payload(
      Given(Some(b.platform)), Given(Some(GetOr(b.shouldForceUpdate, false))), Given(Some(GetOr(b.enabled, true))),
      Given(Some(b.fileHash)), Given(b.gitCommitHash), Given(b.message), Given(Some(GetOr(b.channel, "production"))),
      Given(Some(b.storageUri)), Given(b.targetAppVersion), Given(b.fingerprintHash), Given(b.metadata),
      Given(b.rolloutCohortCount), Given(b.targetCohorts), Given(b.manifestStorageUri), Given(b.manifestFileHash),
      Given(b.assetBaseStorageUri), Given(b.patches))
  }

  /** A PATCH that names everything writes the row a POST would write, except that metadata is merged into
      what is stored and that an absent cohort list becomes the JSON null instead of the SQL one. */
  lemma PatchOfEverythingIsPost(r: BundleRow, b: CliBundle, fromText: string -> Option<Json>)
    ensures var u := UpdatedRow(r, Everything(b), fromText);
            && u == RowOf(r.app, b).(id := r.id, metadata := u.metadata, targetCohorts := u.targetCohorts)
            && u.metadata == Some(match b.metadata
                                  case None => Object(map[])
                                  case Some(m) => PatchedMetadata(r.metadata, m, fromText))
            && u.targetCohorts == Some(if b.targetCohorts.None? then Null else CohortsToJson(b.targetCohorts.value))
            && ParseTargetCohorts(u.targetCohorts, fromText) == b.targetCohorts
  {
    if b.targetCohorts.Some? {
      CohortsRoundTrip(b.targetCohorts.value, fromText);
    }
  }

  // ----- two PATCHes as one -----

  /** Of two bodies, the fields of the later one where it names them. */
  function Later<T>(first: Field<T>, second: Field<T>): Field<T> {
    if second.Absent? then first else second
  }

  /** Two metadata fields as one: the second merged into what is read back of the first. */
  function Joined(first: Field<Json>, second: Field<Json>, fromText: string -> Option<Json>): Field<Json> {
    match (first, second)
    case (Given(p), Given(Some(q))) => Given(Some(PatchedMetadata(p, q, fromText)))
    case _ => Later(first, second)
  }

  function Combined(p: Payload, q: Payload, fromText: string -> Option<Json>): Payload {
    Payload(
      Later(p.platform, q.platform), Later(p.shouldForceUpdate, q.shouldForceUpdate), Later(p.enabled, q.enabled),
      Later(p.fileHash, q.fileHash), Later(p.gitCommitHash, q.gitCommitHash), Later(p.message, q.message),
      Later(p.channel, q.channel), Later(p.storageUri, q.storageUri), Later(p.targetAppVersion, q.targetAppVersion),
      Later(p.fingerprintHash, q.fingerprintHash), Joined(p.metadata, q.metadata, fromText),
      Later(p.rolloutCohortCount, q.rolloutCohortCount), Later(p.targetCohorts, q.targetCohorts),
      Later(p.manifestStorageUri, q.manifestStorageUri), Later(p.manifestFileHash, q.manifestFileHash),
      Later(p.assetBaseStorageUri, q.assetBaseStorageUri), Later(p.patches, q.patches))
  }

  /** When the metadata of two bodies can be sent as one. There is something to check only if both name it,
      the second does not clear it, and an object is stored. If the first sends an object, the three values
      must combine; otherwise the first discards what is stored, and the joined value must do so too. */
  predicate MetadataCombines(stored: Option<Json>, first: Field<Json>, second: Field<Json>, fromText: string -> Option<Json>) {
    match (ParseBundleMetadata(stored, fromText), first, second)
    case (Some(c), Given(p), Given(Some(q))) =>
      if p.Some? && p.value.Object? then Combines(c, p.value, q) else Erases(c, PatchedMetadata(p, q, fromText))
    case _ => true
  }

  lemma MetadataCombinesExactly(stored: Option<Json>, first: Field<Json>, second: Field<Json>, fromText: string -> Option<Json>)
    ensures MergedMetadata(second, MergedMetadata(first, stored, fromText), fromText)
            == MergedMetadata(Joined(first, second, fromText), stored, fromText)
            <==> MetadataCombines(stored, first, second, fromText)
  {
    match (ParseBundleMetadata(stored, fromText), first, second)
    case (Some(c), Given(Some(p)), Given(Some(q))) =>
      if p.Object? {
        CombinesExactly(c, p, q);
      } else {
        ErasesExactly(c, PatchedMetadata(Some(p), q, fromText));
      }
    case (Some(c), Given(None), Given(Some(q))) =>
      EmptyIsNeutral(q);
      ErasesExactly(c, q);
    case (None, Given(None), Given(Some(q))) =>
      EmptyIsNeutral(q);
    case _ =>
  }

  lemma {:induction false} EmptyIsNeutral(patch: Json)
    ensures Merge(Object(map[]), patch) == patch
  {
    if patch.Object? {
      assert Merge(Object(map[]), patch).fields == patch.fields;
    }
  }

  /** Exactly when two PATCHes in a row write the row of one combined PATCH; and a PATCH that names nothing
      changes nothing. */
  lemma PatchesCombine(r: BundleRow, p: Payload, q: Payload, fromText: string -> Option<Json>)
    requires NoForbiddenNull(q)
    ensures UpdatedRow(UpdatedRow(r, p, fromText), q, fromText) == UpdatedRow(r, Combined(p, q, fromText), fromText)
            <==> MetadataCombines(r.metadata, p.metadata, q.metadata, fromText)
    ensures UpdatedRow(r, NOTHING, fromText) == r
  {
    MetadataCombinesExactly(r.metadata, p.metadata, q.metadata, fromText);
  }

  /** Bodies whose metadata objects name different keys always combine. */
  lemma SeparateKeysCombine(
    r: BundleRow, p: Payload, q: Payload, f: map<string, Json>, g: map<string, Json>, fromText: string -> Option<Json>)
    requires NoForbiddenNull(q) && f.Keys !! g.Keys
    requires p.metadata == Given(Some(Object(f))) && q.metadata == Given(Some(Object(g)))
    ensures UpdatedRow(UpdatedRow(r, p, fromText), q, fromText) == UpdatedRow(r, Combined(p, q, fromText), fromText)
  {
    PatchesCombine(r, p, q, fromText);
  }

  /** A body that sends metadata and nothing else. */
  function OnlyMetadata(m: Json): Payload {
    NOTHING.(metadata := Given(Some(m)))
  }

  /** The condition can fail: a first PATCH that replaces the metadata by a number and a second one that sends
      an empty object leave nothing of what was stored, but the combined body leaves everything. */
  lemma MetadataDoesNotCombine(r: BundleRow, stored: map<string, Json>, fromText: string -> Option<Json>)
    requires ParseBundleMetadata(r.metadata, fromText) == Some(Object(stored)) && stored != map[]
    ensures var p, q := OnlyMetadata(Number(1.0)), OnlyMetadata(Object(map[]));
            && UpdatedRow(UpdatedRow(r, p, fromText), q, fromText).metadata == Some(Object(map[]))
            && UpdatedRow(r, Combined(p, q, fromText), fromText).metadata == Some(Object(stored))
  {
    MergeShape(Object(stored), Null);
  }

  // ----- ... in the store -----

  /** Of two lists for one bundle only the second counts. */
  lemma ExchangeAgain(db: Db, app: string, bundleId: string, first: seq<CliPatch>, second: seq<CliPatch>)
    requires PatchesOk(db) && ':' !in Fold(bundleId)
    ensures Exchanged(Exchanged(db.patches, app, bundleId, first), app, bundleId, second)
            == Exchanged(db.patches, app, bundleId, second)
  {
    var k, added := KeyOf(app, bundleId), PatchMap(app, bundleId, first, |first|);
    OwnersOfPatchMap(app, bundleId, first);
    forall x | x in added && x in db.patches
      ensures Owner(db.patches[x]) == k
    {
      WrittenKeysAreOwn(db, app, bundleId, first, x);
    }
    assert Without(Exchanged(db.patches, app, bundleId, first), k) == Without(db.patches, k);
  }

  lemma CombinedIsAcceptable(b: BundleRow, p: Payload, q: Payload, fromText: string -> Option<Json>)
    requires ValidPayload(p) && Acceptable(b, p, fromText)
    requires ValidPayload(q) && Acceptable(UpdatedRow(b, p, fromText), q, fromText)
    requires MetadataCombines(b.metadata, p.metadata, q.metadata, fromText)
    ensures ValidPayload(Combined(p, q, fromText)) && Acceptable(b, Combined(p, q, fromText), fromText)
  {
    PatchesCombine(b, p, q, fromText);
  }

  lemma PatchTablesCombine(db: Db, app: string, id: string, p: Field<Json>, q: Field<Json>)
    requires PatchesOk(db) && ':' !in Fold(id)
    ensures var once := if p.Given? then Exchanged(db.patches, app, id, PatchesOf(p.value)) else db.patches;
            (if q.Given? then Exchanged(once, app, id, PatchesOf(q.value)) else once)
            == if Later(p, q).Given? then Exchanged(db.patches, app, id, PatchesOf(Later(p, q).value)) else db.patches
  {
    if p.Given? && q.Given? {
      ExchangeAgain(db, app, id, PatchesOf(p.value), PatchesOf(q.value));
    }
  }

  lemma StoredIdHasNoColon(db: Db, app: string, id: string)
    requires RowsOk(db) && KeyOf(app, id) in db.bundles
    ensures ':' !in Fold(id)
  {
    var b := db.bundles[KeyOf(app, id)];
    assert RowOk(KeyOf(app, id), b);
    ValidIdHasNoColon(b.id);
  }

  lemma CombinedUpdates(db: Db, app: string, id: string, p: Payload, q: Payload, fromText: string -> Option<Json>)
    requires PatchesOk(db) && ':' !in Fold(id) && KeyOf(app, id) in db.bundles && NoForbiddenNull(q)
    ensures Updated(Updated(db, app, id, p, fromText), app, id, q, fromText)
            == Updated(db, app, id, Combined(p, q, fromText), fromText)
            <==> MetadataCombines(db.bundles[KeyOf(app, id)].metadata, p.metadata, q.metadata, fromText)
  {
    var k := KeyOf(app, id);
    var b := db.bundles[k];
    PatchesCombine(b, p, q, fromText);
    PatchTablesCombine(db, app, id, p.patches, q.patches);
    TwoWrites(db.bundles, k, UpdatedRow(b, p, fromText), UpdatedRow(UpdatedRow(b, p, fromText), q, fromText),
              UpdatedRow(b, Combined(p, q, fromText), fromText));
  }

  lemma TwoWrites(bundles: map<Key, BundleRow>, k: Key, first: BundleRow, second: BundleRow, combined: BundleRow)
    ensures bundles[k := first][k := second] == bundles[k := combined] <==> second == combined
  {
    assert bundles[k := first][k := second] == bundles[k := second];
    assert bundles[k := second][k] == second && bundles[k := combined][k] == combined;
  }

  lemma AcceptedUpdate(db: Db, app: string, id: string, p: Payload, fromText: string -> Option<Json>)
    requires StoreOk(db)
    ensures Update(db, app, id, p, fromText).0 == Success <==>
              ValidPayload(p) && KeyOf(app, id) in db.bundles
              && Acceptable(db.bundles[KeyOf(app, id)], p, fromText) && ListOwned(db, app, p)
    ensures Update(db, app, id, p, fromText).0 == Success ==>
              Update(db, app, id, p, fromText).1 == Updated(db, app, id, p, fromText)
              && StoreOk(Updated(db, app, id, p, fromText))
  {
    UpdateExactly(db, app, id, p, fromText);
  }

  /** Two accepted PATCHes have the answer and the effect of one combined PATCH exactly when their metadata
      combines: nothing else in the rows, the patches or the checks can tell them apart. */
  lemma TwoPatchesAreOne(db: Db, app: string, id: string, p: Payload, q: Payload, fromText: string -> Option<Json>)
    requires StoreOk(db) && Update(db, app, id, p, fromText).0 == Success
    requires Update(Update(db, app, id, p, fromText).1, app, id, q, fromText).0 == Success
    ensures KeyOf(app, id) in db.bundles
    ensures Update(Update(db, app, id, p, fromText).1, app, id, q, fromText)
            == Update(db, app, id, Combined(p, q, fromText), fromText)
            <==> MetadataCombines(db.bundles[KeyOf(app, id)].metadata, p.metadata, q.metadata, fromText)
  {
    var k, d, pq := KeyOf(app, id), Updated(db, app, id, p, fromText), Combined(p, q, fromText);
    AcceptedUpdate(db, app, id, p, fromText);
    AcceptedUpdate(d, app, id, q, fromText);
    AcceptedUpdate(db, app, id, pq, fromText);
    StoredIdHasNoColon(db, app, id);
    CombinedUpdates(db, app, id, p, q, fromText);
    if MetadataCombines(db.bundles[k].metadata, p.metadata, q.metadata, fromText) {
      CombinedIsAcceptable(db.bundles[k], p, q, fromText);
      CombinedIsOwned(db, d, app, p, q, fromText);
    }
  }

  lemma CombinedIsOwned(db: Db, d: Db, app: string, p: Payload, q: Payload, fromText: string -> Option<Json>)
    requires ListOwned(db, app, p) && ListOwned(d, app, q) && d.bundles.Keys == db.bundles.Keys
    ensures ListOwned(db, app, Combined(p, q, fromText))
  {
  }
}
