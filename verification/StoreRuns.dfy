/** Any sequence of requests: the invariant, and tenants that cannot tell each other is there. */
module StoreRuns {
  import opened Wrappers
  import opened Text
  import opened Json
  import opened Store
  import opened StoreInvariant
  import StoreIdempotence

  datatype StoreRequest =
    | Post(app: string, body: seq<CliBundle>)
    | Patch(app: string, id: string, payload: Payload)
    | Remove(app: string, id: string)

  function Perform(db: Db, r: StoreRequest, fromText: string -> Option<Json>): (Status, Db) {
    match r
    case Post(app, body) => Create(db, app, body)
    case Patch(app, id, payload) => Update(db, app, id, payload, fromText)
    case Remove(app, id) => Delete(db, app, id)
  }

  const EMPTY := Db(map[], map[])

  /** The store after the requests, in order. */
  function Replay(db: Db, rs: seq<StoreRequest>, fromText: string -> Option<Json>): Db {
    if rs == [] then db else Perform(Replay(db, rs[..|rs| - 1], fromText), rs[|rs| - 1], fromText).1
  }

  // ----- one request -----

  /** A request keeps the store consistent, fails only by refusing, and a refused request changes nothing. */
  lemma PerformIsSafe(db: Db, r: StoreRequest, fromText: string -> Option<Json>)
    requires StoreOk(db)
    ensures var (status, d) := Perform(db, r, fromText);
            && StoreOk(d)
            && status != ServerError
            && (status == BadRequest || status == NotFound ==> d == db)
  {
    match r
    case Post(app, body) =>
      if forall b :: b in body ==> ValidBundle(b) {
        SaveBundlesKeepsStore(db, app, body, |body|);
      }
    case Patch(app, id, payload) =>
      UpdateExactly(db, app, id, payload, fromText);
    case Remove(app, id) =>
      DeleteKeepsStore(db, KeyOf(app, id));
  }

  /** Every store reached from the empty one is consistent. */
  lemma {:induction false} ReachableStoresAreOk(rs: seq<StoreRequest>, fromText: string -> Option<Json>)
    ensures StoreOk(Replay(EMPTY, rs, fromText))
  {
    if rs != [] {
      ReachableStoresAreOk(rs[..|rs| - 1], fromText);
      PerformIsSafe(Replay(EMPTY, rs[..|rs| - 1], fromText), rs[|rs| - 1], fromText);
    }
  }

  ghost predicate SameSpelling(db: Db, d: Db, k: Key)
    requires k in db.bundles
  {
    k in d.bundles && d.bundles[k].app == db.bundles[k].app && d.bundles[k].id == db.bundles[k].id
  }

  lemma PostKeepsSpelling(db: Db, app: string, body: seq<CliBundle>, k: Key)
    requires StoreOk(db) && k in db.bundles
    ensures SameSpelling(db, Create(db, app, body).1, k)
  {
    if Create(db, app, body).1 != db {
      StoreIdempotence.SavedAll(db, app, body, |body|, k);
    }
  }

  lemma UpdatedRowKeepsSpelling(b: BundleRow, p: Payload, fromText: string -> Option<Json>)
    ensures UpdatedRow(b, p, fromText).app == b.app && UpdatedRow(b, p, fromText).id == b.id
  {
  }

  lemma PatchKeepsSpelling(db: Db, app: string, id: string, p: Payload, fromText: string -> Option<Json>, k: Key)
    requires StoreOk(db) && k in db.bundles
    ensures SameSpelling(db, Update(db, app, id, p, fromText).1, k)
  {
    UpdateExactly(db, app, id, p, fromText);
    if KeyOf(app, id) in db.bundles {
      UpdatedRowKeepsSpelling(db.bundles[KeyOf(app, id)], p, fromText);
      var d := Updated(db, app, id, p, fromText);
      assert SameSpelling(db, d, k);
    }
  }

  /** A stored bundle keeps the spelling of its app and id until it is removed, whatever spelling requests use. */
  lemma SpellingStays(db: Db, r: StoreRequest, fromText: string -> Option<Json>, k: Key)
    requires StoreOk(db) && k in db.bundles
    ensures SameSpelling(db, Perform(db, r, fromText).1, k)
            || (r.Remove? && k == KeyOf(r.app, r.id) && k !in Perform(db, r, fromText).1.bundles)
  {
    match r
    case Post(app, body) => PostKeepsSpelling(db, app, body, k);
    case Patch(app, id, payload) => PatchKeepsSpelling(db, app, id, payload, fromText, k);
    case Remove(app, id) =>
  }

  // ----- tenants -----

  /** The rows of one app. */
  function Own<V>(table: map<Key, V>, app: string): map<Key, V> {
    map k | k in table && k.0 == Fold(app) :: table[k]
  }

  function Of(db: Db, app: string): Db {
    Db(Own(db.bundles, app), Own(db.patches, app))
  }

  lemma OwnAfterWrite<V>(table: map<Key, V>, k: Key, v: V, app: string)
    ensures Own(table[k := v], app) == if k.0 == Fold(app) then Own(table, app)[k := v] else Own(table, app)
  {
  }

  lemma OwnAfterRemoval<V>(table: map<Key, V>, k: Key, app: string)
    ensures Own(table - {k}, app) == if k.0 == Fold(app) then Own(table, app) - {k} else Own(table, app)
  {
  }

  /** A patch lies within one app. */
  lemma PatchStaysHome(k: Key, p: PatchRow)
    requires PatchOk(k, p)
    ensures Owner(p).0 == k.0 && Base(p).0 == k.0
  {
  }

  lemma OfKeepsStore(db: Db, app: string)
    requires StoreOk(db)
    ensures StoreOk(Of(db, app))
  {
    var d := Of(db, app);
    forall k | k in d.patches
      ensures Owner(d.patches[k]) in d.bundles && Base(d.patches[k]) in d.bundles
    {
      PatchStaysHome(k, db.patches[k]);
    }
  }

  lemma OwnOfSum<V>(s: map<Key, V>, t: map<Key, V>, app: string)
    ensures Own(s + t, app) == Own(s, app) + Own(t, app)
  {
  }

  lemma WithoutIsLocal(patches: map<Key, PatchRow>, k: Key, other: string)
    requires forall p :: p in patches ==> PatchOk(p, patches[p])
    ensures Own(Without(patches, k), other) == if k.0 == Fold(other) then Without(Own(patches, other), k) else Own(patches, other)
  {
    forall p | p in patches
      ensures Owner(patches[p]).0 == p.0
    {
      PatchStaysHome(p, patches[p]);
    }
  }

  lemma ExchangeIsLocal(patches: map<Key, PatchRow>, app: string, bundleId: string, list: seq<CliPatch>, other: string)
    requires forall k :: k in patches ==> PatchOk(k, patches[k])
    ensures Own(Exchanged(patches, app, bundleId, list), other)
            == if Fold(app) == Fold(other) then Exchanged(Own(patches, other), app, bundleId, list) else Own(patches, other)
  {
    var k, added := KeyOf(app, bundleId), PatchMap(app, bundleId, list, |list|);
    forall x | x in added
      ensures x.0 == Fold(app)
    {
      PatchMapContents(app, bundleId, list, |list|, x);
    }
    OwnOfSum(Without(patches, k), added, other);
    WithoutIsLocal(patches, k, other);
    assert Own(added, other) == if Fold(app) == Fold(other) then added else map[];
  }

  lemma CascadeIsLocal(patches: map<Key, PatchRow>, k: Key, other: string)
    requires forall p :: p in patches ==> PatchOk(p, patches[p])
    ensures Own(Cascade(patches, k), other) == if k.0 == Fold(other) then Cascade(Own(patches, other), k) else Own(patches, other)
  {
    forall p | p in patches
      ensures Owner(patches[p]).0 == p.0 && Base(patches[p]).0 == p.0
    {
      PatchStaysHome(p, patches[p]);
    }
  }

  /** The outcome of a write for one app on the whole store, against its outcome on the app's rows alone:
      another app's rows stay, and the app's own rows go where they would go alone. */
  ghost predicate Local(db: Db, app: string, other: string, all: Result<Db, Status>, own: Result<Db, Status>) {
    match (all, own)
    case (Ok(d), Ok(e)) => StoreOk(d) && e == Of(d, app) && (Fold(other) != Fold(app) ==> Of(d, other) == Of(db, other))
    case (Err(s), Err(t)) => s == t
    case _ => false
  }

  lemma {:induction false} SaveIsLocal(db: Db, app: string, body: seq<CliBundle>, n: nat, other: string)
    requires StoreOk(db) && n <= |body| && forall b :: b in body ==> ValidBundle(b)
    ensures Local(db, app, other, SaveBundles(db, app, body, n), SaveBundles(Of(db, app), app, body, n))
  {
    if n > 0 {
      SaveIsLocal(db, app, body, n - 1, other);
      var before := SaveBundles(db, app, body, n - 1);
      if before.Ok? {
        LocalStep(db, before.value, app, body[n - 1], other);
      }
    }
  }

  lemma LocalStep(db: Db, d: Db, app: string, b: CliBundle, other: string)
    requires ValidBundle(b) && Local(db, app, other, Ok(d), Ok(Of(d, app)))
    ensures Local(db, app, other, SaveBundle(d, app, b), SaveBundle(Of(d, app), app, b))
  {
    SaveOneIsLocal(d, app, b, other);
  }

  lemma SaveOneIsLocal(db: Db, app: string, b: CliBundle, other: string)
    requires StoreOk(db) && ValidBundle(b)
    ensures Local(db, app, other, SaveBundle(db, app, b), SaveBundle(Of(db, app), app, b))
  {
    var list := PatchesOf(b.patches);
    OfKeepsStore(db, app);
    SaveBundleExactly(db, app, b);
    SaveBundleExactly(Of(db, app), app, b);
    var k := KeyOf(app, b.id);
    OwnAfterWrite(db.bundles, k, Upserted(db.bundles, app, b)[k], app);
    OwnAfterWrite(db.bundles, k, Upserted(db.bundles, app, b)[k], other);
    ExchangeIsLocal(db.patches, app, b.id, list, app);
    ExchangeIsLocal(db.patches, app, b.id, list, other);
  }

  lemma UpdateIsLocal(db: Db, app: string, id: string, p: Payload, fromText: string -> Option<Json>, other: string)
    requires StoreOk(db)
    ensures var (status, d) := Update(db, app, id, p, fromText);
            && Update(Of(db, app), app, id, p, fromText) == (status, Of(d, app))
            && (Fold(other) != Fold(app) ==> Of(d, other) == Of(db, other))
  {
    var k, own := KeyOf(app, id), Of(db, app);
    OfKeepsStore(db, app);
    UpdateExactly(db, app, id, p, fromText);
    UpdateExactly(own, app, id, p, fromText);
    assert ListOwned(own, app, p) <==> ListOwned(db, app, p);
    if k in db.bundles {
      assert own.bundles[k] == db.bundles[k];
      UpdatedIsLocal(db, app, id, p, fromText, other);
    }
  }

  lemma UpdatedIsLocal(db: Db, app: string, id: string, p: Payload, fromText: string -> Option<Json>, other: string)
    requires StoreOk(db) && KeyOf(app, id) in db.bundles
    ensures var d := Updated(db, app, id, p, fromText);
            && Updated(Of(db, app), app, id, p, fromText) == Of(d, app)
            && (Fold(other) != Fold(app) ==> Of(d, other) == Of(db, other))
  {
    var k := KeyOf(app, id);
    var b := UpdatedRow(db.bundles[k], p, fromText);
    OwnAfterWrite(db.bundles, k, b, app);
    OwnAfterWrite(db.bundles, k, b, other);
    if p.patches.Given? {
      ExchangeIsLocal(db.patches, app, id, PatchesOf(p.patches.value), app);
      ExchangeIsLocal(db.patches, app, id, PatchesOf(p.patches.value), other);
    }
  }

  lemma DeleteIsLocal(db: Db, app: string, id: string, other: string)
    requires StoreOk(db)
    ensures var d := DeleteBundle(db, KeyOf(app, id));
            && DeleteBundle(Of(db, app), KeyOf(app, id)) == Of(d, app)
            && (Fold(other) != Fold(app) ==> Of(d, other) == Of(db, other))
  {
    var k := KeyOf(app, id);
    OwnAfterRemoval(db.bundles, k, app);
    OwnAfterRemoval(db.bundles, k, other);
    CascadeIsLocal(db.patches, k, app);
    CascadeIsLocal(db.patches, k, other);
  }

  /** One request: its answer and its effect depend on the app's own rows only, and it touches no others. */
  lemma PerformIsLocal(db: Db, r: StoreRequest, fromText: string -> Option<Json>, other: string)
    requires StoreOk(db)
    ensures var (status, d) := Perform(db, r, fromText);
            && Perform(Of(db, r.app), r, fromText) == (status, Of(d, r.app))
            && (Fold(other) != Fold(r.app) ==> Of(d, other) == Of(db, other))
  {
    match r
    case Post(app, body) =>
      if forall b :: b in body ==> ValidBundle(b) {
        SaveIsLocal(db, app, body, |body|, other);
      }
    case Patch(app, id, payload) => UpdateIsLocal(db, app, id, payload, fromText, other);
    case Remove(app, id) => DeleteIsLocal(db, app, id, other);
  }

  /** Names that differ in case only are one app: its rows are the same, and either name deletes them. */
  lemma CaseTwinsShareRows(db: Db, app: string, twin: string, id: string)
    requires Fold(app) == Fold(twin)
    ensures Of(db, app) == Of(db, twin) && Delete(db, app, id) == Delete(db, twin, id)
  {
  }

  /** The requests of one app, in order. */
  function RequestsOf(rs: seq<StoreRequest>, app: string): seq<StoreRequest> {
    if rs == [] then []
    else RequestsOf(rs[..|rs| - 1], app) + if Fold(rs[|rs| - 1].app) == Fold(app) then [rs[|rs| - 1]] else []
  }

  /** Non-interference: after any requests of any apps, each app's rows are what its own requests alone
      would have produced. */
  lemma {:induction false} TenantsAreAlone(rs: seq<StoreRequest>, app: string, fromText: string -> Option<Json>)
    ensures Of(Replay(EMPTY, rs, fromText), app) == Replay(EMPTY, RequestsOf(rs, app), fromText)
  {
    if rs != [] {
      var front, r := rs[..|rs| - 1], rs[|rs| - 1];
      var db := Replay(EMPTY, front, fromText);
      TenantsAreAlone(front, app, fromText);
      ReachableStoresAreOk(front, fromText);
      PerformIsLocal(db, r, fromText, app);
      if Fold(r.app) == Fold(app) {
        var own := RequestsOf(front, app);
        assert (own + [r])[..|own + [r]| - 1] == own;
      } else {
        assert RequestsOf(rs, app) == RequestsOf(front, app);
      }
    }
  }

  /** ... and so is every answer it gets. */
  lemma {:induction false} AnswersAreAlone(rs: seq<StoreRequest>, r: StoreRequest, fromText: string -> Option<Json>)
    ensures Perform(Replay(EMPTY, rs, fromText), r, fromText).0
            == Perform(Replay(EMPTY, RequestsOf(rs, r.app), fromText), r, fromText).0
  {
    TenantsAreAlone(rs, r.app, fromText);
    ReachableStoresAreOk(rs, fromText);
    PerformIsLocal(Replay(EMPTY, rs, fromText), r, fromText, r.app);
  }
}
