/** Turning a plan into download URLs, with storage as an oracle: which failures deny the update. */
module Resolution {
  import opened Wrappers
  import opened Text
  import opened Artifacts

  /** Reading a manifest: the read fails, the object is absent, the text is no manifest, or it is one. */
  datatype Read = Failed | Absent | Malformed | Parsed(manifest: Manifest)

  /** Everything the database and the storage answer; a presign that fails is None. */
  datatype World = World(
    manifestUri: Option<string>, targetRead: Read, currentRead: Option<Read>,
    manifestFileHash: Option<string>, assetBaseStorageUri: Option<string>,
    currentBundleId: Option<string>, patches: seq<PatchRecord>, parseUrl: string -> Option<Url>,
    presign: string -> Option<string>)

  datatype AssetFile = AssetFile(url: string, compressed: bool)

  datatype AssetPatch = AssetPatch(record: PatchRecord, url: string)

  datatype ChangedAsset = ChangedAsset(file: Option<AssetFile>, fileHash: string, patch: Option<AssetPatch>)

  datatype ManifestArtifacts = ManifestArtifacts(
    manifestUrl: string, manifestFileHash: string, changedAssets: map<string, ChangedAsset>)

  function CurrentManifest(w: World): Option<Manifest> {
    match w.currentRead
    case Some(Parsed(m)) => Some(m)
    case _ => None
  }

  function InputOf(w: World, target: Manifest): PlanInput {
    PlanInput(w.manifestFileHash, w.assetBaseStorageUri, target, CurrentManifest(w), w.currentBundleId, w.patches, w.parseUrl)
  }

  /** The entry a planned asset becomes. */
  function Entry(w: World, a: PlannedAsset, patch: Option<AssetPatch>): ChangedAsset {
    ChangedAsset(match w.presign(a.storageUri)
                 case Some(url) => Some(AssetFile(url, a.compressed))
                 case None => None,
                 a.fileHash, patch)
  }

  /** The patch covers the asset. */
  predicate Covered(plan: ArtifactPlan, path: string) {
    plan.patch.Some? && plan.patch.value.assetPath == path
  }

  /** Storage lets the plan through: the patch can be signed, and so can every asset the patch does not cover. */
  predicate Deliverable(w: World, plan: ArtifactPlan) {
    && (plan.patch.Some? ==> w.presign(plan.patch.value.record.patchStorageUri).Some?)
    && forall a :: a in plan.assets ==> w.presign(a.storageUri).Some? || Covered(plan, a.assetPath)
  }

  /** What the resolution must answer. An absent or malformed target manifest means no artifacts; a failed
      read, or anything undeliverable, denies the update; otherwise all three fields come together. */
  ghost predicate RightAnswer(w: World, r: Result<Option<ManifestArtifacts>, ()>) {
    if !Given(w.manifestUri) then r == Ok(None)
    else
      match w.targetRead
      case Failed => r == Err(())
      case Absent | Malformed => r == Ok(None)
      case Parsed(target) =>
        if w.presign(w.manifestUri.value).None? || w.currentRead == Some(Failed) then r == Err(())
        else if !Plannable(InputOf(w, target)) then r == Ok(None)
        else forall plan :: RightPlan(InputOf(w, target), Some(plan)) ==> Answers(w, plan, r)
  }

  ghost predicate Answers(w: World, plan: ArtifactPlan, r: Result<Option<ManifestArtifacts>, ()>) {
    if Deliverable(w, plan) then r.Ok? && r.value.Some? && Delivers(w, plan, r.value.value) else r == Err(())
  }

  /** The response delivers the plan: the signed manifest, its hash, and one entry per planned asset, each
      with its file, its patch, or both. */
  ghost predicate Delivers(w: World, plan: ArtifactPlan, m: ManifestArtifacts) {
    && w.manifestUri.Some? && w.presign(w.manifestUri.value) == Some(m.manifestUrl)
    && m.manifestFileHash == plan.manifestFileHash
    && Signed(w, plan, |plan.assets|, m.changedAssets)
  }

  /** The first n planned assets have become entries, and nothing else has. */
  ghost predicate Signed(w: World, plan: ArtifactPlan, n: nat, assets: map<string, ChangedAsset>)
    requires n <= |plan.assets|
  {
    && (forall path :: path in assets ==> exists k :: 0 <= k < n && plan.assets[k].assetPath == path)
    && (forall k :: 0 <= k < n ==> SignedOne(w, plan, plan.assets[k], assets))
  }

  ghost predicate SignedOne(w: World, plan: ArtifactPlan, a: PlannedAsset, assets: map<string, ChangedAsset>) {
    a.assetPath in assets && EntryOk(w, plan, a, assets[a.assetPath])
  }

  ghost predicate EntryOk(w: World, plan: ArtifactPlan, a: PlannedAsset, c: ChangedAsset) {
    && c.fileHash == a.fileHash
    && (c.file.Some? <==> w.presign(a.storageUri).Some?)
    && (c.file.Some? ==> Some(c.file.value.url) == w.presign(a.storageUri) && c.file.value.compressed == a.compressed)
    && (c.patch.Some? <==> Covered(plan, a.assetPath))
    && (c.patch.Some? ==> c.patch.value.record == plan.patch.value.record
                          && Some(c.patch.value.url) == w.presign(plan.patch.value.record.patchStorageUri))
    && (c.file.Some? || c.patch.Some?)
  }

  method ResolveManifestArtifacts(w: World, order: seq<string>) returns (r: Result<Option<ManifestArtifacts>, ()>)
    requires w.targetRead.Parsed? ==> Enumerates(order, w.targetRead.manifest)
    ensures RightAnswer(w, r)
  {
    if !Given(w.manifestUri) {
      return Ok(None);
    }
    match w.targetRead {
      case Failed => return Err(());
      case Absent => return Ok(None);
      case Malformed => return Ok(None);
      case Parsed(target) =>
        var manifestUrl := w.presign(w.manifestUri.value);
        if manifestUrl.None? {
          return Err(());
        }
        if w.currentRead == Some(Failed) {
          return Err(());
        }
        var q := InputOf(w, target);
        var plan := PlanManifestArtifacts(q, order);
        forall p | RightPlan(q, Some(p))
          ensures Some(p) == plan
        {
          PlanIsUnique(q, Some(p), plan);
        }
        if plan.None? {
          return Ok(None);
        }
        var assets := SignAssets(w, plan.value);
        if assets.None? {
          return Err(());
        }
        return Ok(Some(ManifestArtifacts(manifestUrl.value, plan.value.manifestFileHash, assets.value)));
    }
  }

  lemma SignedOneMore(w: World, plan: ArtifactPlan, n: nat, assets: map<string, ChangedAsset>, c: ChangedAsset)
    requires SortedByPath(plan.assets) && n < |plan.assets| && Signed(w, plan, n, assets)
    requires EntryOk(w, plan, plan.assets[n], c)
    ensures Signed(w, plan, n + 1, assets[plan.assets[n].assetPath := c])
  {
    var a := plan.assets[n];
    LessIsIrreflexive(a.assetPath);
    forall k | 0 <= k < n
      ensures SignedOne(w, plan, plan.assets[k], assets[a.assetPath := c])
    {
      assert SignedOne(w, plan, plan.assets[k], assets);
    }
  }

  /** Signs the patch and then every asset; only an asset the patch covers may go without its file. */
  method SignAssets(w: World, plan: ArtifactPlan) returns (r: Option<map<string, ChangedAsset>>)
    requires SortedByPath(plan.assets)
    ensures r.None? <==> !Deliverable(w, plan)
    ensures r.Some? ==> Signed(w, plan, |plan.assets|, r.value)
  {
    var patchUrl: Option<string> := None;
    if plan.patch.Some? {
      patchUrl := w.presign(plan.patch.value.record.patchStorageUri);
      if patchUrl.None? {
        return None;
      }
    }
    var assets: map<string, ChangedAsset> := map[];
    for i := 0 to |plan.assets|
      invariant forall k :: 0 <= k < i ==> w.presign(plan.assets[k].storageUri).Some? || Covered(plan, plan.assets[k].assetPath)
      invariant Signed(w, plan, i, assets)
    {
      var a := plan.assets[i];
      var patch := if Covered(plan, a.assetPath) then Some(AssetPatch(plan.patch.value.record, patchUrl.value)) else None;
      if w.presign(a.storageUri).None? && patch.None? {
        assert a in plan.assets;
        return None;
      }
      SignedOneMore(w, plan, i, assets, Entry(w, a, patch));
      assets := assets[a.assetPath := Entry(w, a, patch)];
    }
    return Some(assets);
  }
}
