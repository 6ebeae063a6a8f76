/** The writing handlers as the program runs them: statement by statement inside a transaction. */
module StoreHandlers {
  import opened Wrappers
  import opened Text
  import opened Json
  import opened Store
  import opened StoreInvariant
  import opened StoreRuns
  import opened PatchLists

  method GetBundlePatches(patches: Option<Json>) returns (out: seq<CliPatch>)
    ensures out == PatchesOf(patches)
    ensures patches.None? || !patches.value.Array? ==> out == []
    ensures forall list :: Spells(patches, list) && DistinctBases(list) ==> out == list
  {
    forall list | Spells(patches, list) && DistinctBases(list)
      ensures PatchesOf(patches) == list
    {
      SpelledListIsRead(patches, list);
    }
    out := [];
    if patches.None? || !patches.value.Array? {
      return;
    }
    var items := patches.value.items;
    var seen: set<string> := {};
    for i := 0 to |items|
      invariant out == FirstPerBase(items[..i])
      invariant seen == set p | p in out :: Fold(p.baseBundleId)
    {
      assert items[..i + 1][..i] == items[..i];
      var item := ReadPatch(items[i]);
      if item.Some? && Fold(item.value.baseBundleId) !in seen {
        seen := seen + {Fold(item.value.baseBundleId)};
        out := out + [item.value];
      }
    }
    assert items[..|items|] == items;
  }

  method AllValid(body: seq<CliBundle>) returns (valid: bool)
    ensures valid <==> forall b :: b in body ==> ValidBundle(b)
  {
    for i := 0 to |body|
      invariant forall j :: 0 <= j < i ==> ValidBundle(body[j])
    {
      if !ValidBundle(body[i]) {
        return false;
      }
    }
    return true;
  }

  class Database {
    var bundles: map<Key, BundleRow>
    var patches: map<Key, PatchRow>
    const fromText: string -> Option<Json>

    function State(): Db
      reads this
    {
      Db(bundles, patches)
    }

    constructor (fromText: string -> Option<Json>)
      ensures State() == EMPTY && StoreOk(State()) && this.fromText == fromText
    {
      bundles, patches := map[], map[];
      this.fromText := fromText;
    }

    // ----- statements -----

    method ExecuteUpsert(b: BundleRow) returns (r: Result<(), Status>)
      modifies this
      ensures match Upsert(old(State()), b)
              case Ok(d) => r.Ok? && State() == d
              case Err(s) => r == Err(s) && State() == old(State())
    {
      var k := KeyOf(b.app, b.id);
      if !ChecksHold(b) {
        return Err(ServerError);
      }
      var row := b;
      if k in bundles {
        row := Over(row, bundles[k]);
      }
      bundles := bundles[k := row];
      return Ok(());
    }

    method ExecuteDeletePatches(k: Key)
      modifies this
      ensures State() == DeletePatches(old(State()), k)
    {
      patches := Without(patches, k);
    }

    method ExecuteInsertPatch(p: PatchRow) returns (r: Result<(), Status>)
      modifies this
      ensures match InsertPatch(old(State()), p)
              case Ok(d) => r.Ok? && State() == d
              case Err(s) => r == Err(s) && State() == old(State())
    {
      var k := KeyOf(p.app, p.id);
      if k in patches || Owner(p) !in bundles || Base(p) !in bundles {
        return Err(ServerError);
      }
      patches := patches[k := p];
      return Ok(());
    }

    // ----- handlers -----

    /** Deletes the bundle's patches and inserts the given ones; on an error the transaction is half done. */
    method SavePatches(app: string, bundleId: string, list: seq<CliPatch>) returns (r: Result<(), Status>)
      modifies this
      ensures match ReplacePatches(old(State()), app, bundleId, list)
              case Ok(d) => r.Ok? && State() == d
              case Err(s) => r == Err(s)
    {
      ExecuteDeletePatches(KeyOf(app, bundleId));
      ghost var start := State();
      for index := 0 to |list|
        invariant InsertPatches(start, app, bundleId, list, index) == Ok(State())
      {
        if KeyOf(app, list[index].baseBundleId) !in bundles {
          FailureIsFinal(start, app, bundleId, list, index + 1);
          return Err(BadRequest);
        }
        r := ExecuteInsertPatch(PatchRowOf(app, bundleId, list[index], index));
        if r.Err? {
          FailureIsFinal(start, app, bundleId, list, index + 1);
          return r;
        }
      }
      return Ok(());
    }

    /** One turn of the publishing loop. */
    method SaveOne(app: string, b: CliBundle) returns (r: Result<(), Status>)
      modifies this
      ensures match SaveBundle(old(State()), app, b)
              case Ok(d) => r.Ok? && State() == d
              case Err(s) => r == Err(s)
    {
      var list := GetBundlePatches(b.patches);
      r := ExecuteUpsert(RowOf(app, b));
      if r.Ok? {
        r := SavePatches(app, b.id, list);
      }
    }

    /** The publishing loop; on an error the transaction is half done. */
    method SaveAll(app: string, body: seq<CliBundle>) returns (r: Result<(), Status>)
      modifies this
      ensures match SaveBundles(old(State()), app, body, |body|)
              case Ok(d) => r.Ok? && State() == d
              case Err(s) => r == Err(s)
    {
      ghost var start := State();
      for i := 0 to |body|
        invariant SaveBundles(start, app, body, i) == Ok(State())
      {
        ghost var before := State();
        r := SaveOne(app, body[i]);
        SaveStep(start, app, body, i, before);
        if r.Err? {
          SaveFailureIsFinal(start, app, body, i + 1);
          return r;
        }
      }
      return Ok(());
    }

    method CreateBundles(app: string, body: seq<CliBundle>) returns (status: Status)
      modifies this
      ensures (status, State()) == Create(old(State()), app, body)
    {
      if |body| > 1000 {
        return BadRequest;
      }
      var valid := AllValid(body);
      if !valid {
        return BadRequest;
      }
      var savedBundles, savedPatches := bundles, patches;
      var r := SaveAll(app, body);
      if r.Err? {
        bundles, patches := savedBundles, savedPatches;
        return r.error;
      }
      return Created;
    }

    method UpdateBundle(app: string, id: string, payload: Payload) returns (status: Status)
      modifies this
      ensures (status, State()) == Update(old(State()), app, id, payload, fromText)
    {
      if !ValidPayload(payload) {
        return BadRequest;
      }
      var k := KeyOf(app, id);
      if k !in bundles {
        return NotFound;
      }
      var current := bundles[k];
      if !Acceptable(current, payload, fromText) {
        return BadRequest;
      }
      if !SetsColumns(payload) && payload.patches.Absent? {
        return Success;
      }
      var savedBundles, savedPatches := bundles, patches;
      if SetsColumns(payload) {
        var row := UpdatedRow(current, payload, fromText);
        if !ChecksHold(row) {
          return ServerError;
        }
        bundles := bundles[k := row];
      }
      if payload.patches.Given? {
        var list := GetBundlePatches(payload.patches.value);
        var r := SavePatches(app, id, list);
        if r.Err? {
          bundles, patches := savedBundles, savedPatches;
          return r.error;
        }
      }
      return Success;
    }

    method DeleteOne(app: string, id: string) returns (status: Status)
      modifies this
      ensures (status, State()) == Delete(old(State()), app, id)
    {
      bundles := bundles - {KeyOf(app, id)};
      patches := Cascade(patches, KeyOf(app, id));
      return Success;
    }

    /** Serving a request keeps the store consistent, and a refused one changes nothing. */
    method Serve(r: StoreRequest) returns (status: Status)
      requires StoreOk(State())
      modifies this
      ensures (status, State()) == Perform(old(State()), r, fromText)
      ensures StoreOk(State()) && status != ServerError
      ensures status != Created && status != Success ==> State() == old(State())
    {
      PerformIsSafe(State(), r, fromText);
      match r
      case Post(app, body) => status := CreateBundles(app, body);
      case Patch(app, id, payload) => status := UpdateBundle(app, id, payload);
      case Remove(app, id) => status := DeleteOne(app, id);
    }
  }

  /** Once an insertion has failed, later ones do not matter. */
  lemma {:induction false} FailureIsFinal(db: Db, app: string, bundleId: string, list: seq<CliPatch>, n: nat)
    requires n <= |list| && InsertPatches(db, app, bundleId, list, n).Err?
    ensures InsertPatches(db, app, bundleId, list, |list|) == InsertPatches(db, app, bundleId, list, n)
    decreases |list| - n
  {
    if n < |list| {
      FailureIsFinal(db, app, bundleId, list, n + 1);
    }
  }

  lemma SaveStep(db: Db, app: string, body: seq<CliBundle>, n: nat, d: Db)
    requires n < |body| && SaveBundles(db, app, body, n) == Ok(d)
    ensures SaveBundles(db, app, body, n + 1) == SaveBundle(d, app, body[n])
  {
  }

  lemma {:induction false} SaveFailureIsFinal(db: Db, app: string, body: seq<CliBundle>, n: nat)
    requires n <= |body| && SaveBundles(db, app, body, n).Err?
    ensures SaveBundles(db, app, body, |body|) == SaveBundles(db, app, body, n)
    decreases |body| - n
  {
    if n < |body| {
      SaveFailureIsFinal(db, app, body, n + 1);
    }
  }
}
