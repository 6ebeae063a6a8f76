/** Repeating an accepted request leaves the store as the first time did; deleting undoes creating. */
module StoreIdempotence {
  import opened Wrappers
  import opened Text
  import opened Json
  import opened Store
  import opened StoreInvariant

  // ----- a store seen one bundle at a time -----

  /** The patches of one bundle. */
  function PatchesAt(patches: map<Key, PatchRow>, k: Key): map<Key, PatchRow> {
    map p | p in patches && Owner(patches[p]) == k :: patches[p]
  }

  lemma ViewsDetermine(d: Db, e: Db)
    requires ForeignKeysOk(d) && ForeignKeysOk(e) && d.bundles == e.bundles
    requires forall k :: k in d.bundles ==> PatchesAt(d.patches, k) == PatchesAt(e.patches, k)
    ensures d == e
  {
    forall p | p in d.patches
      ensures p in e.patches && e.patches[p] == d.patches[p]
    {
      assert p in PatchesAt(d.patches, Owner(d.patches[p]));
    }
    forall p | p in e.patches
      ensures p in d.patches
    {
      assert p in PatchesAt(e.patches, Owner(e.patches[p]));
    }
    assert d.patches == e.patches;
  }

  lemma {:induction false} OwnersOfPatchMap(app: string, bundleId: string, list: seq<CliPatch>)
    ensures forall p :: p in PatchMap(app, bundleId, list, |list|) ==>
              Owner(PatchMap(app, bundleId, list, |list|)[p]) == KeyOf(app, bundleId)
  {
    forall p | p in PatchMap(app, bundleId, list, |list|)
      ensures Owner(PatchMap(app, bundleId, list, |list|)[p]) == KeyOf(app, bundleId)
    {
      PatchMapContents(app, bundleId, list, |list|, p);
    }
  }

  /** A stored patch whose key a new list would write belongs to that list's bundle. */
  lemma {:induction false} WrittenKeysAreOwn(db: Db, app: string, bundleId: string, list: seq<CliPatch>, p: Key)
    requires PatchesOk(db) && ':' !in Fold(bundleId)
    requires p in db.patches && p in PatchMap(app, bundleId, list, |list|)
    ensures Owner(db.patches[p]) == KeyOf(app, bundleId)
  {
    PatchMapContents(app, bundleId, list, |list|, p);
    var i :| 0 <= i < |list| && p == KeyOf(app, PatchRowOf(app, bundleId, list[i], i).id);
    var q := db.patches[p];
    PatchKeyIsInjective(q.bundleId, q.baseBundleId, bundleId, list[i].baseBundleId);
  }

  /** Exchanging patches gives the bundle exactly the listed ones and leaves other bundles theirs. */
  lemma {:induction false} PatchesAfterExchange(db: Db, app: string, bundleId: string, list: seq<CliPatch>, k: Key)
    requires PatchesOk(db) && ':' !in Fold(bundleId)
    ensures PatchesAt(Exchanged(db.patches, app, bundleId, list), k)
            == if k == KeyOf(app, bundleId) then PatchMap(app, bundleId, list, |list|) else PatchesAt(db.patches, k)
  {
    var added := PatchMap(app, bundleId, list, |list|);
    OwnersOfPatchMap(app, bundleId, list);
    forall p | p in added && p in db.patches
      ensures Owner(db.patches[p]) == KeyOf(app, bundleId)
    {
      WrittenKeysAreOwn(db, app, bundleId, list, p);
    }
    PatchesOfExchange(db.patches, added, KeyOf(app, bundleId), k);
  }

  lemma PatchesOfExchange(patches: map<Key, PatchRow>, added: map<Key, PatchRow>, own: Key, k: Key)
    requires forall p :: p in added ==> Owner(added[p]) == own
    requires forall p :: p in added && p in patches ==> Owner(patches[p]) == own
    ensures PatchesAt(Without(patches, own) + added, k) == if k == own then added else PatchesAt(patches, k)
  {
  }

  // ----- POST -----

  /** The last of the first n bundles that writes to key k. */
  function LastFor(app: string, body: seq<CliBundle>, n: nat, k: Key): Option<CliBundle>
    requires n <= |body|
  {
    if n == 0 then None
    else if KeyOf(app, body[n - 1].id) == k then Some(body[n - 1])
    else LastFor(app, body, n - 1, k)
  }

  /** Key k of store d holds what bundle b says, under whatever spelling of the key. */
  ghost predicate Holds(d: Db, app: string, b: CliBundle, k: Key) {
    && k in d.bundles
    && d.bundles[k] == Over(RowOf(app, b), d.bundles[k])
    && PatchesAt(d.patches, k) == PatchMap(app, b.id, PatchesOf(b.patches), |PatchesOf(b.patches)|)
  }

  ghost predicate SameAt(d: Db, e: Db, k: Key) {
    && (k in d.bundles <==> k in e.bundles)
    && (k in d.bundles ==> d.bundles[k] == e.bundles[k])
    && PatchesAt(d.patches, k) == PatchesAt(e.patches, k)
  }

  lemma SavedOne(db: Db, app: string, b: CliBundle, k: Key)
    requires StoreOk(db) && ValidBundle(b) && SaveBundle(db, app, b).Ok?
    ensures var d := SaveBundle(db, app, b).value;
            && StoreOk(d)
            && (if KeyOf(app, b.id) == k then Holds(d, app, b, k) else SameAt(d, db, k))
            && (k in db.bundles ==> k in d.bundles && Over(d.bundles[k], db.bundles[k]) == d.bundles[k])
  {
    SaveBundleExactly(db, app, b);
    ValidIdHasNoColon(b.id);
    PatchesAfterExchange(db, app, b.id, PatchesOf(b.patches), k);
  }

  /** What POST leaves at every key: the last bundle sent for it, or what was there. */
  lemma {:induction false} SavedAll(db: Db, app: string, body: seq<CliBundle>, n: nat, k: Key)
    requires StoreOk(db) && n <= |body| && (forall b :: b in body ==> ValidBundle(b))
    requires SaveBundles(db, app, body, n).Ok?
    ensures var d := SaveBundles(db, app, body, n).value;
            && StoreOk(d)
            && (match LastFor(app, body, n, k) case None => SameAt(d, db, k) case Some(b) => Holds(d, app, b, k))
            && (k in db.bundles ==> k in d.bundles && Over(d.bundles[k], db.bundles[k]) == d.bundles[k])
  {
    if n > 0 {
      SavedAll(db, app, body, n - 1, k);
      SavedOne(SaveBundles(db, app, body, n - 1).value, app, body[n - 1], k);
    }
  }

  /** What went through once goes through on any store with at least the same bundles. */
  lemma {:induction false} SavesAgain(db: Db, e: Db, app: string, body: seq<CliBundle>, n: nat)
    requires StoreOk(db) && StoreOk(e) && db.bundles.Keys <= e.bundles.Keys
    requires n <= |body| && (forall b :: b in body ==> ValidBundle(b)) && SaveBundles(db, app, body, n).Ok?
    ensures SaveBundles(e, app, body, n).Ok?
    ensures SaveBundles(db, app, body, n).value.bundles.Keys <= SaveBundles(e, app, body, n).value.bundles.Keys
  {
    if n > 0 {
      SavesAgain(db, e, app, body, n - 1);
      SaveBundlesKeepsStore(db, app, body, n - 1);
      SaveBundlesKeepsStore(e, app, body, n - 1);
      SaveBundleExactly(SaveBundles(db, app, body, n - 1).value, app, body[n - 1]);
      SaveBundleExactly(SaveBundles(e, app, body, n - 1).value, app, body[n - 1]);
    }
  }

  /** POST is idempotent, also when one request names a bundle several times. */
  lemma PostTwice(db: Db, app: string, body: seq<CliBundle>)
    requires StoreOk(db) && Create(db, app, body).0 == Created
    ensures Create(Create(db, app, body).1, app, body) == Create(db, app, body)
  {
    var n := |body|;
    var d := Create(db, app, body).1;
    SaveBundlesKeepsStore(db, app, body, n);
    SavesAgain(db, d, app, body, n);
    SaveBundlesKeepsStore(d, app, body, n);
    var e := SaveBundles(d, app, body, n).value;
    forall k
      ensures SameAt(d, e, k)
    {
      SavedAll(db, app, body, n, k);
      SavedAll(d, app, body, n, k);
    }
    SameEverywhere(d, e);
  }

  lemma SameEverywhere(d: Db, e: Db)
    requires StoreOk(d) && StoreOk(e) && forall k :: SameAt(d, e, k)
    ensures d == e
  {
    forall k
      ensures (k in d.bundles <==> k in e.bundles) && (k in d.bundles ==> d.bundles[k] == e.bundles[k])
      ensures PatchesAt(d.patches, k) == PatchesAt(e.patches, k)
    {
      assert SameAt(d, e, k);
    }
    assert d.bundles == e.bundles;
    ViewsDetermine(d, e);
  }

  lemma PostOfOne(db: Db, app: string, b: CliBundle)
    requires StoreOk(db) && Create(db, app, [b]).0 == Created
    ensures ValidBundle(b) && SaveBundle(db, app, b) == Ok(Create(db, app, [b]).1)
  {
    var body := [b];
    assert b in body;
    SaveBundlesKeepsStore(db, app, body, |body|);
    assert SaveBundles(db, app, body, 0) == Ok(db);
    assert SaveBundles(db, app, body, |body|) == SaveBundle(db, app, body[0]);
  }

  // ----- PATCH -----

  lemma UpdatedRowTwice(b: BundleRow, p: Payload, fromText: string -> Option<Json>)
    ensures var u := UpdatedRow(b, p, fromText); UpdatedRow(u, p, fromText) == u
  {
    match p.metadata
    case Given(Some(patch)) => PatchMetadataTwice(b.metadata, patch, fromText);
    case _ =>
  }

  lemma ExchangeTwice(patches: map<Key, PatchRow>, app: string, bundleId: string, list: seq<CliPatch>)
    ensures var once := Exchanged(patches, app, bundleId, list); Exchanged(once, app, bundleId, list) == once
  {
    OwnersOfPatchMap(app, bundleId, list);
  }

  /** PATCH is idempotent. */
  lemma PatchTwice(db: Db, app: string, id: string, p: Payload, fromText: string -> Option<Json>)
    requires StoreOk(db) && Update(db, app, id, p, fromText).0 == Success
    ensures Update(Update(db, app, id, p, fromText).1, app, id, p, fromText) == Update(db, app, id, p, fromText)
  {
    var d := Update(db, app, id, p, fromText).1;
    UpdateExactly(db, app, id, p, fromText);
    UpdateExactly(d, app, id, p, fromText);
    AcceptedAgain(db.bundles[KeyOf(app, id)], p, fromText);
    assert ListOwned(d, app, p) <==> ListOwned(db, app, p);
    UpdatedAgain(db, app, id, p, fromText);
  }

  lemma AcceptedAgain(b: BundleRow, p: Payload, fromText: string -> Option<Json>)
    requires Acceptable(b, p, fromText)
    ensures Acceptable(UpdatedRow(b, p, fromText), p, fromText)
  {
    UpdatedRowTwice(b, p, fromText);
  }

  lemma UpdatedAgain(db: Db, app: string, id: string, p: Payload, fromText: string -> Option<Json>)
    requires KeyOf(app, id) in db.bundles
    ensures var d := Updated(db, app, id, p, fromText); Updated(d, app, id, p, fromText) == d
  {
    var k := KeyOf(app, id);
    UpdatedRowTwice(db.bundles[k], p, fromText);
    var bundles := Updated(db, app, id, p, fromText).bundles;
    assert bundles[k := bundles[k]] == bundles;
    if p.patches.Given? {
      ExchangeTwice(db.patches, app, id, PatchesOf(p.patches.value));
    }
  }

  // ----- DELETE -----

  /** Deleting removes the bundle and exactly the patches that belong to it or start from it. */
  lemma DeleteExactly(db: Db, app: string, id: string)
    ensures var k, d := KeyOf(app, id), Delete(db, app, id).1;
            && d.bundles == db.bundles - {k}
            && (forall p :: p in d.patches <==> p in db.patches && Owner(db.patches[p]) != k && Base(db.patches[p]) != k)
            && (forall p :: p in d.patches ==> d.patches[p] == db.patches[p])
            && Delete(d, app, id) == (Success, d)
  {
    var k := KeyOf(app, id);
    assert Cascade(Cascade(db.patches, k), k) == Cascade(db.patches, k);
    assert db.bundles - {k} - {k} == db.bundles - {k};
  }

  /** Publishing a bundle under a new id and deleting it again restores the store. */
  lemma DeleteUndoesPost(db: Db, app: string, b: CliBundle)
    requires StoreOk(db) && KeyOf(app, b.id) !in db.bundles && Create(db, app, [b]).0 == Created
    ensures Delete(Create(db, app, [b]).1, app, b.id) == (Success, db)
  {
    var k := KeyOf(app, b.id);
    PostOfOne(db, app, b);
    SaveBundleExactly(db, app, b);
    assert Upserted(db.bundles, app, b) - {k} == db.bundles;
    ValidIdHasNoColon(b.id);
    CascadeUndoesExchange(db, app, b.id, PatchesOf(b.patches));
  }

  lemma CascadeUndoesExchange(db: Db, app: string, bundleId: string, list: seq<CliPatch>)
    requires StoreOk(db) && KeyOf(app, bundleId) !in db.bundles && ':' !in Fold(bundleId)
    ensures Cascade(Exchanged(db.patches, app, bundleId, list), KeyOf(app, bundleId)) == db.patches
  {
    var k, added := KeyOf(app, bundleId), PatchMap(app, bundleId, list, |list|);
    OwnersOfPatchMap(app, bundleId, list);
    assert Without(db.patches, k) == db.patches;
    forall p | p in db.patches && p in added
      ensures false
    {
      WrittenKeysAreOwn(db, app, bundleId, list, p);
    }
    CascadeDropsOwn(db.patches, added, k);
  }

  lemma CascadeDropsOwn(others: map<Key, PatchRow>, own: map<Key, PatchRow>, k: Key)
    requires forall p :: p in others ==> Owner(others[p]) != k && Base(others[p]) != k && p !in own
    requires forall p :: p in own ==> Owner(own[p]) == k
    ensures Cascade(others + own, k) == others
  {
  }
}
