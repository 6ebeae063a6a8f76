/** What every request keeps: keys, foreign keys, constraints; and what each request does exactly. */
module StoreInvariant {
  import opened Wrappers
  import opened Text
  import opened Json
  import opened Eligibility
  import opened Store

  // ----- patch lists -----

  predicate DistinctBases(patches: seq<CliPatch>) {
    forall i, j :: 0 <= i < j < |patches| ==> !SameBase(patches[i], patches[j])
  }

  /** The list read from a request has one entry per base, every entry is one of the well-formed items,
      and every well-formed item's base is in the list, represented by its first occurrence. */
  lemma FirstPerBaseIsRight(items: seq<Json>)
    ensures DistinctBases(FirstPerBase(items))
    ensures forall p :: p in FirstPerBase(items) ==>
              exists i :: FirstWithBase(items, i, p)
    ensures forall i :: 0 <= i < |items| && ReadPatch(items[i]).Some? ==>
              exists p :: p in FirstPerBase(items) && SameBase(p, ReadPatch(items[i]).value)
  {
    BasesAreDistinct(items);
    EntriesComeFirst(items);
    EveryBaseIsListed(items);
  }

  lemma {:induction false} BasesAreDistinct(items: seq<Json>)
    ensures DistinctBases(FirstPerBase(items))
  {
    if items != [] {
      BasesAreDistinct(items[..|items| - 1]);
    }
  }

  lemma {:induction false} EntriesComeFirst(items: seq<Json>)
    ensures forall p :: p in FirstPerBase(items) ==>
              exists i :: FirstWithBase(items, i, p)
  {
    if items != [] {
      var n := |items| - 1;
      var rest, front, last := items[..n], FirstPerBase(items[..n]), ReadPatch(items[n]);
      EntriesComeFirst(rest);
      forall p | p in front
        ensures exists i :: FirstWithBase(items, i, p)
      {
        var i :| FirstWithBase(rest, i, p);
        assert FirstWithBase(items, i, p);
      }
      if last.Some? && !exists p :: p in front && SameBase(p, last.value) {
        NewBaseComesFirst(items, n);
      }
    }
  }

  lemma NewBaseComesFirst(items: seq<Json>, n: nat)
    requires n < |items| && ReadPatch(items[n]).Some?
    requires !exists p :: p in FirstPerBase(items[..n]) && SameBase(p, ReadPatch(items[n]).value)
    ensures FirstWithBase(items, n, ReadPatch(items[n]).value)
  {
    EveryBaseIsListed(items[..n]);
    forall j | 0 <= j < n && ReadPatch(items[j]).Some?
      ensures !SameBase(ReadPatch(items[j]).value, ReadPatch(items[n]).value)
    {
      assert items[..n][j] == items[j];
      var p :| p in FirstPerBase(items[..n]) && SameBase(p, ReadPatch(items[j]).value);
    }
  }

  lemma {:induction false} EveryBaseIsListed(items: seq<Json>)
    ensures forall i :: 0 <= i < |items| && ReadPatch(items[i]).Some? ==>
              exists p :: p in FirstPerBase(items) && SameBase(p, ReadPatch(items[i]).value)
  {
    if items != [] {
      var n := |items| - 1;
      var rest, front, last := items[..n], FirstPerBase(items[..n]), ReadPatch(items[n]);
      EveryBaseIsListed(rest);
      assert forall p :: p in front ==> p in FirstPerBase(items);
      if last.Some? && !exists p :: p in front && SameBase(p, last.value) {
        assert last.value in FirstPerBase(items);
      }
      forall i | 0 <= i < n && ReadPatch(items[i]).Some?
        ensures exists p :: p in FirstPerBase(items) && SameBase(p, ReadPatch(items[i]).value)
      {
        var p :| p in front && SameBase(p, ReadPatch(rest[i]).value);
        assert p in FirstPerBase(items);
      }
    }
  }

  /** Item i reads as p, and no earlier item names p's base. */
  ghost predicate FirstWithBase(items: seq<Json>, i: int, p: CliPatch) {
    && 0 <= i < |items|
    && ReadPatch(items[i]) == Some(p)
    && forall j :: 0 <= j < i && ReadPatch(items[j]).Some? ==> !SameBase(ReadPatch(items[j]).value, p)
  }

  lemma PatchesOfIsDistinct(patches: Option<Json>)
    ensures DistinctBases(PatchesOf(patches))
  {
    if patches.Some? && patches.value.Array? {
      FirstPerBaseIsRight(patches.value.items);
    }
  }

  // ----- patch keys -----

  lemma ValidIdHasNoColon(id: string)
    requires ValidId(id)
    ensures ':' !in Fold(id)
  {
    forall i | 0 <= i < |id|
      ensures Fold(id)[i] != ':'
    {
      assert id[i] in id;
    }
  }

  lemma SplitAtColon(a: string, b: string, a': string, b': string)
    requires a + ":" + b == a' + ":" + b' && ':' !in a && ':' !in a'
    ensures a == a' && b == b'
  {
    var s := a + ":" + b;
    assert s[|a|] == ':' && s[|a'|] == ':';
    assert a == s[..|a|] && a' == s[..|a'|] && b == s[|a| + 1..] && b' == s[|a'| + 1..];
  }

  lemma FoldOfPatchId(bundleId: string, base: string)
    ensures Fold(bundleId + ":" + base) == Fold(bundleId) + ":" + Fold(base)
  {
  }

  /** "{bundle}:{base}" names one pair of bundles, since ids hold no colon. */
  lemma PatchKeyIsInjective(b: string, x: string, b': string, x': string)
    requires ':' !in Fold(b) && ':' !in Fold(b') && Fold(b + ":" + x) == Fold(b' + ":" + x')
    ensures Fold(b) == Fold(b') && Fold(x) == Fold(x')
  {
    FoldOfPatchId(b, x);
    FoldOfPatchId(b', x');
    SplitAtColon(Fold(b), Fold(x), Fold(b'), Fold(x'));
  }

  // ----- the invariant -----

  /** A stored cohort list is absent, the JSON null, or an array of valid cohorts. */
  predicate CohortColumnOk(column: Option<Json>) {
    match column
    case None => true
    case Some(Null) => true
    case Some(Array(items)) => |items| <= 1000 && forall c :: c in items ==> c.String? && IsValidCohort(c.s)
    case _ => false
  }

  /** Every text column fits, so the database never truncates one. */
  predicate ColumnsFit(b: BundleRow) {
    && TextFits(b.platform) && TextFits(b.fileHash) && TextFits(b.channel) && TextFits(b.storageUri)
    && OptionalTextFits(b.gitCommitHash) && OptionalTextFits(b.message)
    && OptionalTextFits(b.targetAppVersion) && OptionalTextFits(b.fingerprintHash)
    && OptionalTextFits(b.manifestStorageUri) && OptionalTextFits(b.manifestFileHash) && OptionalTextFits(b.assetBaseStorageUri)
  }

  predicate RowOk(k: Key, b: BundleRow) {
    && k == KeyOf(b.app, b.id)
    && ValidId(b.id)
    && (NonBlank(b.targetAppVersion) || NonBlank(b.fingerprintHash))
    && 0 <= b.rolloutCohortCount <= 1000
    && CohortColumnOk(b.targetCohorts)
    && ColumnsFit(b)
  }

  predicate PatchOk(k: Key, p: PatchRow) {
    && k == KeyOf(p.app, p.id)
    && p.id == p.bundleId + ":" + p.baseBundleId
    && ':' !in Fold(p.bundleId)
    && ValidPatch(CliPatch(p.baseBundleId, p.baseFileHash, p.patchFileHash, p.patchStorageUri))
  }

  predicate RowsOk(db: Db) {
    forall k :: k in db.bundles ==> RowOk(k, db.bundles[k])
  }

  predicate PatchesOk(db: Db) {
    forall k :: k in db.patches ==> PatchOk(k, db.patches[k])
  }

  predicate ForeignKeysOk(db: Db) {
    forall k :: k in db.patches ==> Owner(db.patches[k]) in db.bundles && Base(db.patches[k]) in db.bundles
  }

  predicate SamePosition(p: PatchRow, q: PatchRow) {
    Owner(p) == Owner(q) && p.orderIndex == q.orderIndex
  }

  /** No two patches of a bundle share a position. */
  predicate PositionsOk(db: Db) {
    forall j, k :: j in db.patches && k in db.patches && SamePosition(db.patches[j], db.patches[k]) ==> j == k
  }

  predicate StoreOk(db: Db) {
    RowsOk(db) && PatchesOk(db) && ForeignKeysOk(db) && PositionsOk(db)
  }

  /** At most one patch leads from one bundle to another. */
  lemma OnePatchPerPair(db: Db, j: Key, k: Key)
    requires StoreOk(db) && j in db.patches && k in db.patches
    requires Owner(db.patches[j]) == Owner(db.patches[k]) && Base(db.patches[j]) == Base(db.patches[k])
    ensures j == k
  {
    FoldOfPatchId(db.patches[j].bundleId, db.patches[j].baseBundleId);
    FoldOfPatchId(db.patches[k].bundleId, db.patches[k].baseBundleId);
  }

  /** The insert statement succeeds exactly when the key is free and both foreign keys then still hold. */
  lemma InsertGuardsKeys(db: Db, p: PatchRow)
    requires ForeignKeysOk(db)
    ensures var k := KeyOf(p.app, p.id); var d := db.(patches := db.patches[k := p]);
            InsertPatch(db, p) == if k !in db.patches && ForeignKeysOk(d) then Ok(d) else Err(ServerError)
  {
    var k := KeyOf(p.app, p.id);
    var d := db.(patches := db.patches[k := p]);
    assert k in d.patches && d.patches[k] == p;
  }

  // ----- replacing a bundle's patches, in closed form -----

  /** The rows written for the first n patches of a bundle. */
  function PatchMap(app: string, bundleId: string, patches: seq<CliPatch>, n: nat): map<Key, PatchRow>
    requires n <= |patches|
  {
    if n == 0 then map[]
    else
      var p := PatchRowOf(app, bundleId, patches[n - 1], n - 1);
      PatchMap(app, bundleId, patches, n - 1)[KeyOf(app, p.id) := p]
  }

  lemma {:induction false} PatchMapContents(app: string, bundleId: string, patches: seq<CliPatch>, n: nat, k: Key)
    requires n <= |patches| && k in PatchMap(app, bundleId, patches, n)
    ensures exists i :: 0 <= i < n
              && k == KeyOf(app, PatchRowOf(app, bundleId, patches[i], i).id)
              && PatchMap(app, bundleId, patches, n)[k] == PatchRowOf(app, bundleId, patches[i], i)
  {
    var p := PatchRowOf(app, bundleId, patches[n - 1], n - 1);
    if k != KeyOf(app, p.id) {
      PatchMapContents(app, bundleId, patches, n - 1, k);
    }
  }

  ghost predicate BasesOwned(db: Db, app: string, patches: seq<CliPatch>, n: nat)
    requires n <= |patches|
  {
    forall i :: 0 <= i < n ==> KeyOf(app, patches[i].baseBundleId) in db.bundles
  }

  /** The key of the next patch is taken neither by another bundle's patches nor by the earlier ones. */
  lemma {:induction false} NewPatchKeyIsFree(db: Db, app: string, bundleId: string, patches: seq<CliPatch>, n: nat)
    requires n < |patches| && DistinctBases(patches) && PatchesOk(db) && ':' !in Fold(bundleId)
    requires forall k :: k in db.patches ==> Owner(db.patches[k]) != KeyOf(app, bundleId)
    ensures var k := KeyOf(app, PatchRowOf(app, bundleId, patches[n], n).id);
            k !in db.patches && k !in PatchMap(app, bundleId, patches, n)
  {
    var p := PatchRowOf(app, bundleId, patches[n], n);
    var k := KeyOf(app, p.id);
    if k in db.patches {
      var q := db.patches[k];
      PatchKeyIsInjective(bundleId, p.baseBundleId, q.bundleId, q.baseBundleId);
    }
    if k in PatchMap(app, bundleId, patches, n) {
      PatchMapContents(app, bundleId, patches, n, k);
      var i :| 0 <= i < n && k == KeyOf(app, PatchRowOf(app, bundleId, patches[i], i).id);
      PatchKeyIsInjective(bundleId, p.baseBundleId, bundleId, patches[i].baseBundleId);
    }
  }

  /** Inserting into a store without patches of that bundle: it fails exactly on a base the app does not
      have, as the caller's mistake, and never for the database's reasons. */
  lemma {:induction false} InsertPatchesExactly(db: Db, app: string, bundleId: string, patches: seq<CliPatch>, n: nat)
    requires n <= |patches| && DistinctBases(patches) && PatchesOk(db)
    requires KeyOf(app, bundleId) in db.bundles && ':' !in Fold(bundleId)
    requires forall k :: k in db.patches ==> Owner(db.patches[k]) != KeyOf(app, bundleId)
    ensures InsertPatches(db, app, bundleId, patches, n) ==
            if BasesOwned(db, app, patches, n) then Ok(db.(patches := db.patches + PatchMap(app, bundleId, patches, n)))
            else Err(BadRequest)
  {
    if n == 0 {
      assert db.patches + map[] == db.patches;
    } else {
      InsertPatchesExactly(db, app, bundleId, patches, n - 1);
      if BasesOwned(db, app, patches, n - 1) {
        InsertLast(db, app, bundleId, patches, n, db.(patches := db.patches + PatchMap(app, bundleId, patches, n - 1)));
      }
      if BasesOwned(db, app, patches, n) {
        InsertNext(db, app, bundleId, patches, n - 1);
      }
    }
  }

  lemma InsertLast(db: Db, app: string, bundleId: string, patches: seq<CliPatch>, n: nat, d: Db)
    requires 0 < n <= |patches| && InsertPatches(db, app, bundleId, patches, n - 1) == Ok(d)
    ensures InsertPatches(db, app, bundleId, patches, n) ==
            if KeyOf(app, patches[n - 1].baseBundleId) in d.bundles
            then InsertPatch(d, PatchRowOf(app, bundleId, patches[n - 1], n - 1)) else Err(BadRequest)
  {
  }

  /** One more patch, after the first n have gone in. */
  lemma InsertNext(db: Db, app: string, bundleId: string, patches: seq<CliPatch>, n: nat)
    requires n < |patches| && DistinctBases(patches) && PatchesOk(db)
    requires KeyOf(app, bundleId) in db.bundles && ':' !in Fold(bundleId)
    requires forall k :: k in db.patches ==> Owner(db.patches[k]) != KeyOf(app, bundleId)
    requires KeyOf(app, patches[n].baseBundleId) in db.bundles
    ensures var d := db.(patches := db.patches + PatchMap(app, bundleId, patches, n));
            InsertPatch(d, PatchRowOf(app, bundleId, patches[n], n))
            == Ok(db.(patches := db.patches + PatchMap(app, bundleId, patches, n + 1)))
  {
    var p, before := PatchRowOf(app, bundleId, patches[n], n), PatchMap(app, bundleId, patches, n);
    NewPatchKeyIsFree(db, app, bundleId, patches, n);
    assert (db.patches + before)[KeyOf(app, p.id) := p] == db.patches + before[KeyOf(app, p.id) := p];
  }

  /** The patch table with the rows of one bundle exchanged. */
  function Exchanged(patches: map<Key, PatchRow>, app: string, bundleId: string, list: seq<CliPatch>): map<Key, PatchRow> {
    Without(patches, KeyOf(app, bundleId)) + PatchMap(app, bundleId, list, |list|)
  }

  lemma ReplacePatchesExactly(db: Db, app: string, bundleId: string, list: seq<CliPatch>)
    requires DistinctBases(list) && PatchesOk(db) && KeyOf(app, bundleId) in db.bundles && ':' !in Fold(bundleId)
    ensures ReplacePatches(db, app, bundleId, list) ==
            if BasesOwned(db, app, list, |list|) then Ok(db.(patches := Exchanged(db.patches, app, bundleId, list)))
            else Err(BadRequest)
  {
    InsertPatchesExactly(DeletePatches(db, KeyOf(app, bundleId)), app, bundleId, list, |list|);
  }

  lemma ExchangeKeepsStore(db: Db, app: string, bundleId: string, list: seq<CliPatch>)
    requires StoreOk(db) && KeyOf(app, bundleId) in db.bundles && ':' !in Fold(bundleId)
    requires BasesOwned(db, app, list, |list|) && forall x :: x in list ==> ValidPatch(x)
    ensures StoreOk(db.(patches := Exchanged(db.patches, app, bundleId, list)))
  {
    var added := PatchMap(app, bundleId, list, |list|);
    var d := db.(patches := Exchanged(db.patches, app, bundleId, list));
    forall k | k in d.patches
      ensures PatchOk(k, d.patches[k]) && Owner(d.patches[k]) in db.bundles && Base(d.patches[k]) in db.bundles
      ensures Owner(d.patches[k]) == KeyOf(app, bundleId) <==> k in added
    {
      if k in added {
        PatchMapContents(app, bundleId, list, |list|, k);
        var i :| 0 <= i < |list| && added[k] == PatchRowOf(app, bundleId, list[i], i);
        assert list[i] in list;
      }
    }
    forall j, k | j in d.patches && k in d.patches && SamePosition(d.patches[j], d.patches[k])
      ensures j == k
    {
      if k in added {
        PatchMapContents(app, bundleId, list, |list|, k);
        PatchMapContents(app, bundleId, list, |list|, j);
      }
    }
  }

  // ----- POST -----

  lemma CohortsColumn(cohorts: seq<string>)
    requires |cohorts| <= 1000 && forall c :: c in cohorts ==> IsValidCohort(c)
    ensures CohortColumnOk(Some(CohortsToJson(cohorts)))
  {
    forall c | c in CohortsToJson(cohorts).items
      ensures c.String? && IsValidCohort(c.s)
    {
      var i :| 0 <= i < |cohorts| && CohortsToJson(cohorts).items[i] == c;
      assert cohorts[i] in cohorts;
    }
  }

  /** The bundle table after an upsert. */
  function Upserted(bundles: map<Key, BundleRow>, app: string, b: CliBundle): map<Key, BundleRow> {
    var k := KeyOf(app, b.id);
    bundles[k := if k in bundles then Over(RowOf(app, b), bundles[k]) else RowOf(app, b)]
  }

  /** Saving a valid bundle: the row is upserted and its patches exchanged, or a base is missing. */
  lemma SaveBundleExactly(db: Db, app: string, b: CliBundle)
    requires StoreOk(db) && ValidBundle(b)
    ensures var d := Db(Upserted(db.bundles, app, b), Exchanged(db.patches, app, b.id, PatchesOf(b.patches)));
            var list := PatchesOf(b.patches);
            && SaveBundle(db, app, b) == (if BasesOwned(d, app, list, |list|) then Ok(d) else Err(BadRequest))
            && (SaveBundle(db, app, b).Ok? ==> StoreOk(d))
  {
    var u := Db(Upserted(db.bundles, app, b), db.patches);
    var list := PatchesOf(b.patches);
    assert Upsert(db, RowOf(app, b)) == Ok(u);
    UpsertKeepsStore(db, app, b);
    PatchesOfIsDistinct(b.patches);
    ValidIdHasNoColon(b.id);
    ReplacePatchesExactly(u, app, b.id, list);
    if BasesOwned(u, app, list, |list|) {
      ExchangeKeepsStore(u, app, b.id, list);
    }
  }

  lemma {:induction false} Utf8IsShort(s: string)
    ensures Utf8Length(s) <= 4 * |s|
  {
    if s != "" {
      Utf8IsShort(s[..|s| - 1]);
    }
  }

  lemma NewRowFits(app: string, b: CliBundle)
    requires ValidBundle(b)
    ensures ColumnsFit(RowOf(app, b))
  {
    Utf8IsShort("production");
  }

  lemma UpsertKeepsStore(db: Db, app: string, b: CliBundle)
    requires StoreOk(db) && ValidBundle(b)
    ensures StoreOk(Db(Upserted(db.bundles, app, b), db.patches))
  {
    if b.targetCohorts.Some? {
      CohortsColumn(b.targetCohorts.value);
    }
    var k := KeyOf(app, b.id);
    NewRowFits(app, b);
    if k in db.bundles {
      assert RowOk(k, db.bundles[k]);
    }
    assert RowOk(k, Upserted(db.bundles, app, b)[k]);
  }

  lemma {:induction false} SaveBundlesKeepsStore(db: Db, app: string, body: seq<CliBundle>, n: nat)
    requires StoreOk(db) && n <= |body| && forall b :: b in body ==> ValidBundle(b)
    ensures match SaveBundles(db, app, body, n)
            case Ok(d) => StoreOk(d) && db.bundles.Keys <= d.bundles.Keys
            case Err(s) => s == BadRequest
  {
    if n > 0 {
      SaveBundlesKeepsStore(db, app, body, n - 1);
      if SaveBundles(db, app, body, n - 1).Ok? {
        SaveBundleExactly(SaveBundles(db, app, body, n - 1).value, app, body[n - 1]);
      }
    }
  }

  // ----- PATCH -----

  lemma UpdatedRowFits(b: BundleRow, p: Payload, fromText: string -> Option<Json>)
    requires ColumnsFit(b) && ValidPayload(p)
    ensures ColumnsFit(UpdatedRow(b, p, fromText))
  {
  }

  lemma UpdatedRowIsOk(b: BundleRow, k: Key, p: Payload, fromText: string -> Option<Json>)
    requires RowOk(k, b) && ValidPayload(p) && Acceptable(b, p, fromText)
    ensures RowOk(k, UpdatedRow(b, p, fromText)) && ChecksHold(UpdatedRow(b, p, fromText))
  {
    UpdatedRowFits(b, p, fromText);
    match p.targetCohorts
    case Given(Some(cohorts)) => CohortsColumn(cohorts);
    case _ =>
  }

  /** A replacement list whose bases the app has, or no list at all. */
  ghost predicate ListOwned(db: Db, app: string, p: Payload) {
    p.patches.Given? ==> BasesOwned(db, app, PatchesOf(p.patches.value), |PatchesOf(p.patches.value)|)
  }

  /** The store after an accepted PATCH. */
  function Updated(db: Db, app: string, id: string, p: Payload, fromText: string -> Option<Json>): Db
    requires KeyOf(app, id) in db.bundles
  {
    var k := KeyOf(app, id);
    Db(db.bundles[k := UpdatedRow(db.bundles[k], p, fromText)],
       if p.patches.Given? then Exchanged(db.patches, app, id, PatchesOf(p.patches.value)) else db.patches)
  }

  /** What a PATCH does, without the statements: refused by a check that looks at the payload and the one
      row, or for a missing base, and otherwise exactly the merged row and the exchanged patches. */
  ghost function UpdateOutcome(db: Db, app: string, id: string, p: Payload, fromText: string -> Option<Json>): (Status, Db) {
    var k := KeyOf(app, id);
    if !ValidPayload(p) then (BadRequest, db)
    else if k !in db.bundles then (NotFound, db)
    else if !Acceptable(db.bundles[k], p, fromText) || !ListOwned(db, app, p) then (BadRequest, db)
    else (Success, Updated(db, app, id, p, fromText))
  }

  lemma UpdateExactly(db: Db, app: string, id: string, p: Payload, fromText: string -> Option<Json>)
    requires StoreOk(db)
    ensures Update(db, app, id, p, fromText) == UpdateOutcome(db, app, id, p, fromText)
    ensures StoreOk(Update(db, app, id, p, fromText).1)
  {
    var k := KeyOf(app, id);
    if ValidPayload(p) && k in db.bundles && Acceptable(db.bundles[k], p, fromText) {
      ColumnsExactly(db, k, p, fromText);
      if p.patches.Given? {
        var d := db.(bundles := db.bundles[k := UpdatedRow(db.bundles[k], p, fromText)]);
        ExchangeInUpdate(d, app, id, PatchesOf(p.patches.value));
        PatchesOfIsDistinct(p.patches.value);
        assert ListOwned(d, app, p) <==> ListOwned(db, app, p);
      }
    }
  }

  lemma ColumnsExactly(db: Db, k: Key, p: Payload, fromText: string -> Option<Json>)
    requires StoreOk(db) && ValidPayload(p) && k in db.bundles && Acceptable(db.bundles[k], p, fromText)
    ensures var d := db.(bundles := db.bundles[k := UpdatedRow(db.bundles[k], p, fromText)]);
            UpdateColumns(db, k, p, fromText) == Ok(d) && StoreOk(d)
  {
    UpdatedRowIsOk(db.bundles[k], k, p, fromText);
    if !SetsColumns(p) {
      assert UpdatedRow(db.bundles[k], p, fromText) == db.bundles[k];
      assert db.bundles[k := db.bundles[k]] == db.bundles;
    }
  }

  lemma ExchangeInUpdate(d: Db, app: string, id: string, list: seq<CliPatch>)
    requires StoreOk(d) && KeyOf(app, id) in d.bundles && forall x :: x in list ==> ValidPatch(x)
    ensures DistinctBases(list) ==>
              ReplacePatches(d, app, id, list) ==
                if BasesOwned(d, app, list, |list|) then Ok(d.(patches := Exchanged(d.patches, app, id, list)))
                else Err(BadRequest)
    ensures BasesOwned(d, app, list, |list|) ==> StoreOk(d.(patches := Exchanged(d.patches, app, id, list)))
  {
    assert RowOk(KeyOf(app, id), d.bundles[KeyOf(app, id)]);
    ValidIdHasNoColon(d.bundles[KeyOf(app, id)].id);
    if DistinctBases(list) {
      ReplacePatchesExactly(d, app, id, list);
    }
    if BasesOwned(d, app, list, |list|) {
      ExchangeKeepsStore(d, app, id, list);
    }
  }

  // ----- DELETE -----

  lemma DeleteKeepsStore(db: Db, k: Key)
    requires StoreOk(db)
    ensures StoreOk(DeleteBundle(db, k))
  {
  }
}
