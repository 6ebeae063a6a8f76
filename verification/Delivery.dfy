/** What a device finds in an answer with artifacts, said from what the database and the storage hold. */
module Delivery {
  import opened Wrappers
  import opened Artifacts
  import opened Layout
  import opened Resolution
  import Decision

  /** The device's manifest could be read and has the asset with this hash. */
  predicate Has(w: World, path: string, hash: string) {
    && w.currentRead.Some? && w.currentRead.value.Parsed?
    && path in w.currentRead.value.manifest && w.currentRead.value.manifest[path] == hash
  }

  /** The entries of the answer laid over those assets of the device that the target still names. */
  function Overlaid(w: World, target: Manifest, entries: map<string, ChangedAsset>): Manifest {
    var own := if w.currentRead.Some? && w.currentRead.value.Parsed? then w.currentRead.value.manifest else map[];
    (map p | p in own && p in target :: own[p]) + (map p | p in entries :: entries[p].fileHash)
  }

  lemma AnswerDelivers(w: World, m: ManifestArtifacts) returns (plan: ArtifactPlan)
    requires RightAnswer(w, Ok(Some(m)))
    ensures w.targetRead.Parsed? && RightPlan(InputOf(w, w.targetRead.manifest), Some(plan))
    ensures Deliverable(w, plan) && Delivers(w, plan, m)
  {
    plan := PlanExists(InputOf(w, w.targetRead.manifest));
    assert Answers(w, plan, Ok(Some(m)));
  }

  lemma PlanCoversDiff(w: World, target: Manifest, plan: ArtifactPlan, path: string)
    requires RightPlan(InputOf(w, target), Some(plan))
    ensures (exists a :: a in plan.assets && a.assetPath == path) <==> path in target && !Has(w, path, target[path])
  {
    var q := InputOf(w, target);
    assert path in Changed(q) <==> path in target && !Has(w, path, target[path]);
  }

  lemma SignedPaths(w: World, plan: ArtifactPlan, entries: map<string, ChangedAsset>, path: string)
    requires Signed(w, plan, |plan.assets|, entries)
    ensures path in entries <==> exists a :: a in plan.assets && a.assetPath == path
  {
    if a :| a in plan.assets && a.assetPath == path {
      var k :| 0 <= k < |plan.assets| && plan.assets[k] == a;
      assert SignedOne(w, plan, plan.assets[k], entries);
    }
    if path in entries {
      var k :| 0 <= k < |plan.assets| && plan.assets[k].assetPath == path;
      assert plan.assets[k] in plan.assets;
    }
  }

  lemma EntryOfPath(w: World, plan: ArtifactPlan, entries: map<string, ChangedAsset>, path: string)
    returns (a: PlannedAsset)
    requires Signed(w, plan, |plan.assets|, entries) && path in entries
    ensures a in plan.assets && a.assetPath == path && EntryOk(w, plan, a, entries[path])
  {
    var k :| 0 <= k < |plan.assets| && plan.assets[k].assetPath == path;
    a := plan.assets[k];
    assert SignedOne(w, plan, a, entries);
  }

  /** The answer is the difference between the target's manifest and the device's own: an entry, with the target's
      hash, for exactly the assets the device does not have. Laid over the device's assets it gives the target. */
  lemma AnswerIsDifference(w: World, m: ManifestArtifacts)
    requires RightAnswer(w, Ok(Some(m)))
    ensures w.targetRead.Parsed?
    ensures var target := w.targetRead.manifest;
            && (forall path :: path in m.changedAssets <==> path in target && !Has(w, path, target[path]))
            && (forall path :: path in m.changedAssets ==> m.changedAssets[path].fileHash == target[path])
            && Overlaid(w, target, m.changedAssets) == target
    ensures w.manifestFileHash == Some(m.manifestFileHash) && m.manifestFileHash != ""
    ensures w.manifestUri.Some? && w.presign(w.manifestUri.value) == Some(m.manifestUrl)
  {
    var plan := AnswerDelivers(w, m);
    var target := w.targetRead.manifest;
    forall path
      ensures path in m.changedAssets <==> path in target && !Has(w, path, target[path])
      ensures path in m.changedAssets ==> m.changedAssets[path].fileHash == target[path]
    {
      PlanCoversDiff(w, target, plan, path);
      SignedPaths(w, plan, m.changedAssets, path);
      if path in m.changedAssets {
        var a := EntryOfPath(w, plan, m.changedAssets, path);
        PlannedAssetsAreStoredRight(InputOf(w, target), plan, a);
      }
    }
    DifferenceRebuilds(w, target, m.changedAssets);
  }

  lemma DifferenceRebuilds(w: World, target: Manifest, entries: map<string, ChangedAsset>)
    requires forall path :: path in entries <==> path in target && !Has(w, path, target[path])
    requires forall path :: path in entries ==> entries[path].fileHash == target[path]
    ensures Overlaid(w, target, entries) == target
  {
  }

  // ----- entries -----

  /** record is the first patch of the bundle that starts from the device's bundle, and it is complete. */
  ghost predicate IsPatchFor(w: World, record: PatchRecord) {
    && w.currentBundleId.Some? && w.currentBundleId.value != Decision.NIL_UUID
    && (exists i :: 0 <= i < |w.patches| && w.patches[i] == record && record.baseBundleId == w.currentBundleId.value
          && forall j :: 0 <= j < i ==> w.patches[j].baseBundleId != w.currentBundleId.value)
    && record.patchStorageUri != "" && record.patchFileHash != "" && record.baseFileHash != ""
  }

  /** The target has one asset whose name ends in `.bundle`, and it is this one. */
  ghost predicate IsTheBundle(target: Manifest, path: string) {
    && path in target && (exists front :: path == front + ".bundle")
    && forall p, front :: p in target && p == front + ".bundle" ==> p == path
  }

  lemma OnlyBundleMeans(target: Manifest, path: string)
    ensures OnlyBundle(target, path) <==> IsTheBundle(target, path)
  {
    forall p: string
      ensures EndsWith(p, ".bundle") <==> exists front :: p == front + ".bundle"
    {
      EndsWithMeans(p, ".bundle");
    }
  }

  lemma CandidateMeans(w: World, target: Manifest, record: PatchRecord)
    ensures Candidate(InputOf(w, target)) == Some(record) <==> IsPatchFor(w, record)
  {
    if w.currentBundleId.Some? {
      FindPatchIsFirst(w.patches, w.currentBundleId.value);
    }
  }

  lemma CoveredMeans(w: World, target: Manifest, plan: ArtifactPlan, path: string)
    requires RightPlan(InputOf(w, target), Some(plan))
    ensures Covered(plan, path) <==> IsTheBundle(target, path) && exists record :: IsPatchFor(w, record)
    ensures Covered(plan, path) ==> IsPatchFor(w, plan.patch.value.record)
  {
    var q := InputOf(w, target);
    OnlyBundleMeans(target, path);
    if Candidate(q).Some? {
      CandidateMeans(w, target, Candidate(q).value);
    }
    forall record | IsPatchFor(w, record)
      ensures Candidate(q) == Some(record)
    {
      CandidateMeans(w, target, record);
    }
  }

  /** Every entry offers its file, its patch, or both. The file is the signed object of the storage layout, left out
      only when it cannot be signed. A patch comes with the target's one `.bundle` asset exactly when one starts
      from the device's bundle. */
  lemma EntriesOffer(w: World, m: ManifestArtifacts, path: string) returns (a: PlannedAsset)
    requires RightAnswer(w, Ok(Some(m))) && path in m.changedAssets
    ensures w.targetRead.Parsed? && w.assetBaseStorageUri.Some? && w.parseUrl(w.assetBaseStorageUri.value).Some?
    ensures a.assetPath == path && StoredRight(w.targetRead.manifest, w.parseUrl(w.assetBaseStorageUri.value).value, a)
    ensures var c := m.changedAssets[path];
            && (c.file.Some? || c.patch.Some?)
            && (match c.file
                case Some(f) => w.presign(a.storageUri) == Some(f.url) && f.compressed == a.compressed
                case None => w.presign(a.storageUri) == None)
            && (c.patch.Some? <==> IsTheBundle(w.targetRead.manifest, path) && exists record :: IsPatchFor(w, record))
            && (c.patch.Some? ==>
                 && IsPatchFor(w, c.patch.value.record)
                 && w.presign(c.patch.value.record.patchStorageUri) == Some(c.patch.value.url))
  {
    var plan := AnswerDelivers(w, m);
    var target := w.targetRead.manifest;
    a := EntryOfPath(w, plan, m.changedAssets, path);
    PlannedAssetsAreStoredRight(InputOf(w, target), plan, a);
    CoveredMeans(w, target, plan, path);
  }

  // ----- no artifacts, and no answer -----

  predicate Blank(s: Option<string>) {
    s == None || s == Some("")
  }

  /** Everything could be read and signed that comes before planning. */
  predicate Reached(w: World) {
    && !Blank(w.manifestUri) && w.targetRead.Parsed? && w.presign(w.manifestUri.value).Some?
    && w.currentRead != Some(Failed)
  }

  /** Planning stops: a column is blank, or something changed and the asset base is no URL. */
  ghost predicate NothingPlanned(w: World)
    requires w.targetRead.Parsed?
  {
    || Blank(w.manifestFileHash) || Blank(w.assetBaseStorageUri)
    || (w.parseUrl(w.assetBaseStorageUri.value).None?
        && exists path :: path in w.targetRead.manifest && !Has(w, path, w.targetRead.manifest[path]))
  }

  lemma PlannableMeans(w: World)
    requires w.targetRead.Parsed?
    ensures Plannable(InputOf(w, w.targetRead.manifest)) <==> !NothingPlanned(w)
  {
    var target := w.targetRead.manifest;
    var q := InputOf(w, target);
    assert forall path :: path in Changed(q) <==> path in target && !Has(w, path, target[path]);
    if Changed(q) != {} {
      var path :| path in Changed(q);
    }
  }

  /** The update comes without artifacts exactly when no manifest is named, none is there, it is malformed, or,
      once everything was read and the manifest signed, planning stops. */
  lemma NoArtifactsExactly(w: World)
    ensures RightAnswer(w, Ok(None)) <==>
              || Blank(w.manifestUri) || w.targetRead == Absent || w.targetRead == Malformed
              || (Reached(w) && NothingPlanned(w))
  {
    if Reached(w) {
      PlannableMeans(w);
      if !NothingPlanned(w) {
        var plan := PlanExists(InputOf(w, w.targetRead.manifest));
        assert Answers(w, plan, Ok(None)) ==> false;
      }
    }
  }

  /** The plan's patch cannot be signed, or one of its assets that the patch does not cover. */
  ghost predicate CannotBeSigned(w: World, plan: ArtifactPlan) {
    || (plan.patch.Some? && w.presign(plan.patch.value.record.patchStorageUri) == None)
    || exists a :: a in plan.assets && w.presign(a.storageUri) == None
         && (plan.patch.Some? ==> plan.patch.value.assetPath != a.assetPath)
  }

  /** The check is denied exactly when a named manifest cannot be read or signed, the device's own cannot be read,
      or the plan holds a patch, or an asset no patch covers, that cannot be signed. */
  lemma DeniedExactly(w: World)
    ensures RightAnswer(w, Err(())) <==>
              && !Blank(w.manifestUri)
              && (|| w.targetRead == Failed
                  || (w.targetRead.Parsed? && !Reached(w))
                  || (Reached(w) && !NothingPlanned(w)
                      && exists plan :: RightPlan(InputOf(w, w.targetRead.manifest), Some(plan)) && CannotBeSigned(w, plan)))
  {
    if Reached(w) {
      PlannableMeans(w);
      if !NothingPlanned(w) {
        var q := InputOf(w, w.targetRead.manifest);
        var plan := PlanExists(q);
        forall p | RightPlan(q, Some(p))
          ensures p == plan
        {
          PlanIsUnique(q, Some(p), Some(plan));
        }
        assert Answers(w, plan, Err(())) <==> !Deliverable(w, plan);
      }
    }
  }
}
