/** Planning a manifest diff: which assets to send, where they are stored, and which binary patch applies. */
module Artifacts {
  import opened Wrappers
  import opened Text
  import opened Uri
  import Decision

  // ----- inputs and plans -----

  /** A manifest: the file hash of every asset path. */
  type Manifest = map<string, string>

  datatype PatchRecord = PatchRecord(baseBundleId: string, baseFileHash: string, patchFileHash: string, patchStorageUri: string)

  /** A parsed storage URI, as text before and after the path begins; parsing is a parameter. */
  datatype Url = Url(origin: string, path: string)

  datatype PlanInput = PlanInput(
    manifestFileHash: Option<string>, assetBaseStorageUri: Option<string>, target: Manifest, current: Option<Manifest>,
    currentBundleId: Option<string>, patches: seq<PatchRecord>, parseUrl: string -> Option<Url>)

  datatype PlannedAsset = PlannedAsset(assetPath: string, fileHash: string, storageUri: string, compressed: bool)

  datatype PlannedPatch = PlannedPatch(assetPath: string, record: PatchRecord)

  datatype ArtifactPlan = ArtifactPlan(manifestFileHash: string, assets: seq<PlannedAsset>, patch: Option<PlannedPatch>)

  // ----- storage layout -----

  predicate EndsWith(s: string, suffix: string) {
    |suffix| <= |s| && s[|s| - |suffix|..] == suffix
  }

  predicate StartsWith(s: string, prefix: string) {
    |prefix| <= |s| && s[..|prefix|] == prefix
  }

  /** The last index of a character, or -1. */
  function LastIndex(s: string, c: char): (i: int)
    ensures -1 <= i < |s|
    ensures i >= 0 ==> s[i] == c
    ensures forall k :: i < k < |s| ==> s[k] != c
  {
    if s == "" then -1 else if s[|s| - 1] == c then |s| - 1 else LastIndex(s[..|s| - 1], c)
  }

  /** What follows the last occurrence of a character, or everything. */
  function AfterLast(s: string, c: char): string {
    s[LastIndex(s, c) + 1..]
  }

  predicate UsesBrotli(path: string) {
    var component := AfterLast(path, '/');
    && StartsWith(component, "index.")
    && var rest := component[6..];
       EndsWith(rest, ".bundle") && |rest| > 7
  }

  function TrimEndSlashes(s: string): string {
    if s != "" && s[|s| - 1] == '/' then TrimEndSlashes(s[..|s| - 1]) else s
  }

  /** The extension a content-addressed object carries. */
  function Extension(path: string): string {
    if EndsWith(path, ".br") then ".br" else if '.' in path then "." + AfterLast(path, '.') else ""
  }

  function ContentPath(fileHash: string, extension: string): string {
    "sha256/" + Shard(fileHash) + "/" + fileHash + extension
  }

  function Shard(fileHash: string): string {
    fileHash[..if |fileHash| < 2 then |fileHash| else 2]
  }

  function ResolveAssetUri(url: Url, path: string, fileHash: string): string {
    var basePath := TrimEndSlashes(url.path);
    url.origin + JoinStorageUri(basePath,
      if EndsWith(basePath, "/assets") then ContentPath(fileHash, Extension(path)) else path)
  }

  /** The planned entry of one changed asset. */
  function AssetFor(q: PlanInput, url: Url, path: string): PlannedAsset
    requires path in q.target
  {
    var compressed := UsesBrotli(path);
    PlannedAsset(path, q.target[path],
                 ResolveAssetUri(url, if compressed then path + ".br" else path, q.target[path]), compressed)
  }

  // ----- what a plan must be -----

  /** The assets the device does not have. */
  function Changed(q: PlanInput): set<string> {
    set p | p in q.target && !(q.current.Some? && p in q.current.value && q.current.value[p] == q.target[p])
  }

  predicate Given(s: Option<string>) {
    s.Some? && s.value != ""
  }

  /** A plan exists when the two columns are filled in and, if anything changed, the asset base parses. */
  predicate Plannable(q: PlanInput) {
    && Given(q.manifestFileHash) && Given(q.assetBaseStorageUri)
    && (Changed(q) != {} ==> q.parseUrl(q.assetBaseStorageUri.value).Some?)
  }

  predicate SortedByPath(assets: seq<PlannedAsset>) {
    forall i, j :: 0 <= i < j < |assets| ==> Less(assets[i].assetPath, assets[j].assetPath)
  }

  /** The first record that names the base. */
  function FindPatch(patches: seq<PatchRecord>, base: string): Option<PatchRecord> {
    if patches == [] then None
    else if patches[0].baseBundleId == base then Some(patches[0])
    else FindPatch(patches[1..], base)
  }

  predicate Usable(p: PatchRecord) {
    p.patchStorageUri != "" && p.patchFileHash != "" && p.baseFileHash != ""
  }

  /** path is the only asset that ends in `.bundle`. */
  ghost predicate OnlyBundle(target: Manifest, path: string) {
    path in target && EndsWith(path, ".bundle") && forall p :: p in target && EndsWith(p, ".bundle") ==> p == path
  }

  /** The record a patch may be taken from. */
  function Candidate(q: PlanInput): Option<PatchRecord> {
    if q.currentBundleId.None? || q.currentBundleId.value == Decision.NIL_UUID then None
    else
      match FindPatch(q.patches, q.currentBundleId.value)
      case Some(p) => if Usable(p) then Some(p) else None
      case None => None
  }

  ghost predicate RightPatch(q: PlanInput, patch: Option<PlannedPatch>) {
    match patch
    case Some(p) => Candidate(q) == Some(p.record) && OnlyBundle(q.target, p.assetPath)
    case None => Candidate(q) == None || !exists path :: OnlyBundle(q.target, path)
  }

  ghost predicate RightPlan(q: PlanInput, plan: Option<ArtifactPlan>) {
    match plan
    case None => !Plannable(q)
    case Some(p) =>
      && Plannable(q)
      && Some(p.manifestFileHash) == q.manifestFileHash
      && SortedByPath(p.assets)
      && (forall path :: path in Changed(q) <==> exists a :: a in p.assets && a.assetPath == path)
      && (forall a :: a in p.assets ==>
           && a.assetPath in q.target
           && var url := q.parseUrl(q.assetBaseStorageUri.value);
              url.Some? && a == AssetFor(q, url.value, a.assetPath))
      && RightPatch(q, p.patch)
  }

  // ----- the program -----

  /** `sort_by`: stable, by path. */
  function SortByPath(assets: seq<PlannedAsset>): seq<PlannedAsset> {
    if assets == [] then [] else InsertByPath(assets[0], SortByPath(assets[1..]))
  }

  function InsertByPath(a: PlannedAsset, sorted: seq<PlannedAsset>): seq<PlannedAsset> {
    if sorted == [] || !Less(sorted[0].assetPath, a.assetPath) then [a] + sorted
    else [sorted[0]] + InsertByPath(a, sorted[1..])
  }

  function BundlePaths(paths: seq<string>): seq<string> {
    if paths == [] then [] else (if EndsWith(paths[0], ".bundle") then [paths[0]] else []) + BundlePaths(paths[1..])
  }

  /** An enumeration of the manifest's paths, each once, in whatever order the hash map yields. */
  ghost predicate Enumerates(order: seq<string>, target: Manifest) {
    (forall p :: p in order <==> p in target) && forall i, j :: 0 <= i < j < |order| ==> order[i] != order[j]
  }

  method PlanManifestArtifacts(q: PlanInput, order: seq<string>) returns (plan: Option<ArtifactPlan>)
    requires Enumerates(order, q.target)
    ensures RightPlan(q, plan)
  {
    if !Given(q.manifestFileHash) || !Given(q.assetBaseStorageUri) {
      return None;
    }
    var patch := SelectPatch(q, order);
    var assets := CollectAssets(q, q.parseUrl(q.assetBaseStorageUri.value), order);
    if assets.None? {
      return None;
    }
    SortedFacts(assets.value);
    return Some(ArtifactPlan(q.manifestFileHash.value, SortByPath(assets.value), patch));
  }

  /** The entries collected from the paths seen so far: one for each changed path, none for others. */
  ghost predicate Collected(q: PlanInput, url: Option<Url>, seen: seq<string>, assets: seq<PlannedAsset>) {
    && (forall a :: a in assets ==>
         a.assetPath in seen && a.assetPath in Changed(q) && url.Some? && a == AssetFor(q, url.value, a.assetPath))
    && (forall p :: p in seen && p in Changed(q) ==> exists a :: a in assets && a.assetPath == p)
    && (forall j, k :: 0 <= j < k < |assets| ==> assets[j].assetPath != assets[k].assetPath)
  }

  lemma SkippedOneMore(q: PlanInput, url: Option<Url>, seen: seq<string>, assets: seq<PlannedAsset>, path: string)
    requires Collected(q, url, seen, assets) && path !in Changed(q)
    ensures Collected(q, url, seen + [path], assets)
  {
  }

  lemma CollectedOneMore(q: PlanInput, url: Url, seen: seq<string>, assets: seq<PlannedAsset>, path: string)
    requires Collected(q, Some(url), seen, assets) && path !in seen && path in Changed(q)
    ensures Collected(q, Some(url), seen + [path], assets + [AssetFor(q, url, path)])
  {
    var more := assets + [AssetFor(q, url, path)];
    assert more[|assets|] in more;
    forall p | p in seen + [path] && p in Changed(q)
      ensures exists a :: a in more && a.assetPath == p
    {
      if p in seen {
        var a :| a in assets && a.assetPath == p;
        assert a in more;
      }
    }
  }

  method CollectAssets(q: PlanInput, url: Option<Url>, order: seq<string>) returns (r: Option<seq<PlannedAsset>>)
    requires Enumerates(order, q.target)
    ensures r.None? <==> Changed(q) != {} && url.None?
    ensures r.Some? ==> Collected(q, url, order, r.value)
  {
    var assets: seq<PlannedAsset> := [];
    for i := 0 to |order|
      invariant Collected(q, url, order[..i], assets)
      invariant url.None? ==> forall p :: p in order[..i] ==> p !in Changed(q)
    {
      var path := order[i];
      assert path in order && path !in order[..i] && order[..i + 1] == order[..i] + [path];
      if q.current.Some? && path in q.current.value && q.current.value[path] == q.target[path] {
        SkippedOneMore(q, url, order[..i], assets, path);
        continue;
      }
      assert path in Changed(q);
      if url.None? {
        return None;
      }
      CollectedOneMore(q, url.value, order[..i], assets, path);
      assets := assets + [AssetFor(q, url.value, path)];
    }
    assert order[..|order|] == order;
    return Some(assets);
  }

  method SelectPatch(q: PlanInput, order: seq<string>) returns (patch: Option<PlannedPatch>)
    requires Enumerates(order, q.target)
    ensures RightPatch(q, patch)
  {
    var record := Candidate(q);
    var bundles := BundlePaths(order);
    OnlyBundleIsAlone(order, q.target);
    if record.Some? && |bundles| == 1 {
      return Some(PlannedPatch(bundles[0], record.value));
    }
    return None;
  }

  lemma {:induction false} OnlyBundleIsAlone(order: seq<string>, target: Manifest)
    requires Enumerates(order, target)
    ensures (exists path :: OnlyBundle(target, path)) <==> |BundlePaths(order)| == 1
    ensures |BundlePaths(order)| == 1 ==> OnlyBundle(target, BundlePaths(order)[0])
  {
    var bundles := BundlePaths(order);
    BundlePathsAre(order);
    if path :| OnlyBundle(target, path) {
      assert path in bundles;
      forall k | 0 <= k < |bundles|
        ensures bundles[k] == path
      {
        assert bundles[k] in bundles;
      }
      var first, last := bundles[0], bundles[|bundles| - 1];
      assert first == last == path;
    }
    if |bundles| == 1 {
      assert bundles[0] in bundles;
      assert OnlyBundle(target, bundles[0]);
    }
  }

  lemma {:induction false} BundlePathsAre(paths: seq<string>)
    requires forall i, j :: 0 <= i < j < |paths| ==> paths[i] != paths[j]
    ensures forall p :: p in BundlePaths(paths) <==> p in paths && EndsWith(p, ".bundle")
    ensures forall i, j :: 0 <= i < j < |BundlePaths(paths)| ==> BundlePaths(paths)[i] != BundlePaths(paths)[j]
  {
    if paths != [] {
      BundlePathsAre(paths[1..]);
      assert paths[0] !in paths[1..];
    }
  }

  lemma {:induction false} InsertFacts(a: PlannedAsset, sorted: seq<PlannedAsset>)
    requires SortedByPath(sorted) && forall x :: x in sorted ==> x.assetPath != a.assetPath
    ensures SortedByPath(InsertByPath(a, sorted))
    ensures forall x :: x in InsertByPath(a, sorted) <==> x == a || x in sorted
  {
    if sorted == [] {
    } else if !Less(sorted[0].assetPath, a.assetPath) {
      LessIsTotal(sorted[0].assetPath, a.assetPath);
      forall i | 0 < i < |sorted|
        ensures Less(a.assetPath, sorted[i].assetPath)
      {
        LessIsTransitive(a.assetPath, sorted[0].assetPath, sorted[i].assetPath);
      }
    } else {
      InsertFacts(a, sorted[1..]);
      forall x | x in InsertByPath(a, sorted[1..])
        ensures Less(sorted[0].assetPath, x.assetPath)
      {
        if x != a {
          var i :| 0 <= i < |sorted| - 1 && sorted[1..][i] == x;
          assert sorted[i + 1] == x;
        }
      }
    }
  }

  lemma {:induction false} SortedFacts(assets: seq<PlannedAsset>)
    requires forall i, j :: 0 <= i < j < |assets| ==> assets[i].assetPath != assets[j].assetPath
    ensures SortedByPath(SortByPath(assets))
    ensures forall x :: x in SortByPath(assets) <==> x in assets
  {
    if assets != [] {
      SortedFacts(assets[1..]);
      InsertFacts(assets[0], SortByPath(assets[1..]));
    }
  }

  // ----- properties of the right plan -----

  /** Every finite set can be enumerated. */
  lemma {:induction false} Enumeration(s: set<string>) returns (order: seq<string>)
    ensures forall p :: p in order <==> p in s
    ensures forall i, j :: 0 <= i < j < |order| ==> order[i] != order[j]
    decreases s
  {
    if s == {} {
      order := [];
    } else {
      var p :| p in s;
      var rest := Enumeration(s - {p});
      assert p !in rest;
      order := rest + [p];
    }
  }

  /** Sorting what was collected from all the changed paths gives a right plan. */
  lemma PlanOfCollected(q: PlanInput, order: seq<string>, assets: seq<PlannedAsset>, patch: Option<PlannedPatch>)
    requires Plannable(q) && (forall p :: p in Changed(q) ==> p in order)
    requires Collected(q, q.parseUrl(q.assetBaseStorageUri.value), order, assets) && RightPatch(q, patch)
    ensures RightPlan(q, Some(ArtifactPlan(q.manifestFileHash.value, SortByPath(assets), patch)))
  {
    SortedFacts(assets);
  }

  /** The entries of the given paths, in their order. */
  function Entries(q: PlanInput, url: Url, order: seq<string>): (assets: seq<PlannedAsset>)
    requires forall p :: p in order ==> p in q.target
    ensures |assets| == |order| && forall i :: 0 <= i < |order| ==> assets[i] == AssetFor(q, url, order[i])
  {
    seq(|order|, i requires 0 <= i < |order| => assert order[i] in order; AssetFor(q, url, order[i]))
  }

  lemma EntriesAreCollected(q: PlanInput, url: Url, order: seq<string>)
    requires forall p :: p in order ==> p in q.target && p in Changed(q)
    requires forall i, j :: 0 <= i < j < |order| ==> order[i] != order[j]
    ensures Collected(q, Some(url), order, Entries(q, url, order))
  {
    var assets := Entries(q, url, order);
    forall a | a in assets
      ensures a.assetPath in order && a == AssetFor(q, url, a.assetPath)
    {
      var i :| 0 <= i < |order| && assets[i] == a;
      assert a.assetPath == order[i];
    }
    forall p | p in order
      ensures exists a :: a in assets && a.assetPath == p
    {
      var i :| 0 <= i < |order| && order[i] == p;
      assert assets[i] in assets;
    }
  }

  /** A right plan exists whenever planning is possible. */
  lemma PlanExists(q: PlanInput) returns (p: ArtifactPlan)
    requires Plannable(q)
    ensures RightPlan(q, Some(p))
  {
    var order := Enumeration(Changed(q));
    assert forall p :: p in Changed(q) ==> p in q.target;
    var url := q.parseUrl(q.assetBaseStorageUri.value);
    var patch := PatchExists(q);
    var assets := if url.Some? then Entries(q, url.value, order) else [];
    if url.Some? {
      EntriesAreCollected(q, url.value, order);
    }
    PlanOfCollected(q, order, assets, patch);
    p := ArtifactPlan(q.manifestFileHash.value, SortByPath(assets), patch);
  }

  lemma PatchExists(q: PlanInput) returns (patch: Option<PlannedPatch>)
    ensures RightPatch(q, patch)
  {
    patch := None;
    if Candidate(q).Some? && exists path :: OnlyBundle(q.target, path) {
      var path :| OnlyBundle(q.target, path);
      patch := Some(PlannedPatch(path, Candidate(q).value));
    }
  }

  /** Two right plans are the same: the iteration order of the hash map does not show. */
  lemma PlanIsUnique(q: PlanInput, p: Option<ArtifactPlan>, p': Option<ArtifactPlan>)
    requires RightPlan(q, p) && RightPlan(q, p')
    ensures p == p'
  {
    if p.Some? {
      SameAssets(q, p.value, p'.value);
      SameAssets(q, p'.value, p.value);
      SortedIsUnique(p.value.assets, p'.value.assets);
      SamePatch(q, p.value.patch, p'.value.patch);
    }
  }

  lemma SamePatch(q: PlanInput, p: Option<PlannedPatch>, p': Option<PlannedPatch>)
    requires RightPatch(q, p) && RightPatch(q, p')
    ensures p == p'
  {
  }

  lemma SameAssets(q: PlanInput, p: ArtifactPlan, p': ArtifactPlan)
    requires RightPlan(q, Some(p)) && RightPlan(q, Some(p'))
    ensures forall x :: x in p.assets ==> x in p'.assets
  {
    forall x | x in p.assets
      ensures x in p'.assets
    {
      assert x.assetPath in Changed(q);
      var y :| y in p'.assets && y.assetPath == x.assetPath;
    }
  }

  lemma {:induction false} SortedIsUnique(a: seq<PlannedAsset>, b: seq<PlannedAsset>)
    requires SortedByPath(a) && SortedByPath(b) && forall x :: x in a <==> x in b
    ensures a == b
  {
    assert b != [] ==> b[0] in a;
    if a != [] {
      assert a[0] in b;
      var i :| 0 <= i < |b| && b[i] == a[0];
      var j :| 0 <= j < |a| && a[j] == b[0];
      if i > 0 && j > 0 {
        LessIsTransitive(a[0].assetPath, b[0].assetPath, a[0].assetPath);
        LessIsIrreflexive(a[0].assetPath);
      }
      assert a[0] == b[0];
      TailAssets(a, b);
      TailAssets(b, a);
      SortedIsUnique(a[1..], b[1..]);
    }
  }

  lemma TailAssets(a: seq<PlannedAsset>, b: seq<PlannedAsset>)
    requires SortedByPath(a) && a != [] && b != [] && a[0] == b[0] && forall x :: x in a ==> x in b
    ensures forall x :: x in a[1..] ==> x in b[1..]
  {
    forall x | x in a[1..]
      ensures x in b[1..]
    {
      var i :| 1 <= i < |a| && a[i] == x;
      LessIsIrreflexive(x.assetPath);
      assert a[i] in a;
      var j :| 0 <= j < |b| && b[j] == x;
      assert b[1..][j - 1] == x;
    }
  }

  /** What the device has after the update: the planned assets laid over those of its own that the
      target still names. */
  function Overlay(current: Option<Manifest>, target: Manifest, assets: seq<PlannedAsset>): Manifest {
    var kept := if current.Some? then current.value else map[];
    Laid(map p | p in kept && p in target :: kept[p], assets)
  }

  function Laid(base: Manifest, assets: seq<PlannedAsset>): Manifest {
    if assets == [] then base
    else Laid(base, assets[..|assets| - 1])[assets[|assets| - 1].assetPath := assets[|assets| - 1].fileHash]
  }

  lemma {:induction false} LaidContents(base: Manifest, assets: seq<PlannedAsset>, path: string)
    requires SortedByPath(assets)
    ensures path in Laid(base, assets) <==> path in base || exists a :: a in assets && a.assetPath == path
    ensures forall a :: a in assets && a.assetPath == path ==> Laid(base, assets)[path] == a.fileHash
    ensures path in base && (forall a :: a in assets ==> a.assetPath != path) ==> Laid(base, assets)[path] == base[path]
  {
    if assets != [] {
      var front, last := assets[..|assets| - 1], assets[|assets| - 1];
      LaidContents(base, front, path);
      assert assets == front + [last];
      forall a | a in front
        ensures a.assetPath != last.assetPath
      {
        LessIsIrreflexive(last.assetPath);
      }
    }
  }

  /** The plan rebuilds the target: overlaying it on the current manifest gives the target manifest. */
  lemma PlanRebuildsTarget(q: PlanInput, plan: ArtifactPlan)
    requires RightPlan(q, Some(plan))
    ensures Overlay(q.current, q.target, plan.assets) == q.target
  {
    var kept := if q.current.Some? then q.current.value else map[];
    var base := map p | p in kept && p in q.target :: kept[p];
    forall path
      ensures path in Laid(base, plan.assets) <==> path in q.target
      ensures path in q.target ==> Laid(base, plan.assets)[path] == q.target[path]
    {
      LaidContents(base, plan.assets, path);
      if path in Changed(q) {
        var a :| a in plan.assets && a.assetPath == path;
      }
    }
  }

  /** ... and is minimal: without any one of its assets it does not. */
  lemma NoAssetIsSpare(q: PlanInput, plan: ArtifactPlan, i: nat)
    requires RightPlan(q, Some(plan)) && i < |plan.assets|
    ensures Overlay(q.current, q.target, Dropped(plan.assets, i)) != q.target
  {
    var path := plan.assets[i].assetPath;
    var kept := if q.current.Some? then q.current.value else map[];
    var base := map p | p in kept && p in q.target :: kept[p];
    assert plan.assets[i] in plan.assets;
    assert path in Changed(q);
    DroppedFacts(plan.assets, i);
    LaidContents(base, Dropped(plan.assets, i), path);
  }

  /** The assets without the i-th. */
  function Dropped(assets: seq<PlannedAsset>, i: nat): (fewer: seq<PlannedAsset>)
    requires i < |assets|
    ensures |fewer| == |assets| - 1
    ensures forall k :: 0 <= k < |fewer| ==> fewer[k] == assets[if k < i then k else k + 1]
  {
    assets[..i] + assets[i + 1..]
  }

  lemma DroppedFacts(assets: seq<PlannedAsset>, i: nat)
    requires SortedByPath(assets) && i < |assets|
    ensures SortedByPath(Dropped(assets, i))
    ensures forall a :: a in Dropped(assets, i) ==> a.assetPath != assets[i].assetPath
  {
    LessIsIrreflexive(assets[i].assetPath);
  }

  /** The record chosen is the first that names the device's bundle. */
  lemma {:induction false} FindPatchIsFirst(patches: seq<PatchRecord>, base: string)
    ensures match FindPatch(patches, base)
            case None => forall p :: p in patches ==> p.baseBundleId != base
            case Some(p) => exists i :: 0 <= i < |patches| && patches[i] == p && p.baseBundleId == base
                              && forall j :: 0 <= j < i ==> patches[j].baseBundleId != base
  {
    if patches != [] && patches[0].baseBundleId != base {
      FindPatchIsFirst(patches[1..], base);
      if FindPatch(patches[1..], base).Some? {
        var p := FindPatch(patches[1..], base).value;
        var i :| 0 <= i < |patches| - 1 && patches[1..][i] == p
          && forall j :: 0 <= j < i ==> patches[1..][j].baseBundleId != base;
        assert patches[i + 1] == p;
        assert forall j :: 0 < j < i + 1 ==> patches[j] == patches[1..][j - 1];
      }
    }
  }

  // ----- properties of the layout -----

  /** The brotli rule is the regular expression (^|/)index\.[^/]+\.bundle$. */
  lemma BrotliRule(path: string)
    ensures UsesBrotli(path) <==> exists before, middle :: BrotliMatch(path, before, middle)
  {
    if UsesBrotli(path) {
      BrotliFound(path);
    }
    if before, middle :| BrotliMatch(path, before, middle) {
      BrotliRecognised(path, before, middle);
    }
  }

  lemma BrotliFound(path: string)
    requires UsesBrotli(path)
    ensures exists before, middle :: BrotliMatch(path, before, middle)
  {
    var component := AfterLast(path, '/');
    var before, middle := path[..LastIndex(path, '/') + 1], component[6..|component| - 7];
    AfterLastIsLast(path, '/');
    BrotliComponent(component, middle);
    assert forall k :: 0 <= k < |middle| ==> middle[k] == component[6 + k];
    assert BrotliMatch(path, before, middle);
  }

  lemma AfterLastIsLast(s: string, c: char)
    ensures var before := s[..LastIndex(s, c) + 1];
            && s == before + AfterLast(s, c) && c !in AfterLast(s, c)
            && (before == "" || before[|before| - 1] == c)
  {
  }

  lemma BrotliRecognised(path: string, before: string, middle: string)
    requires BrotliMatch(path, before, middle)
    ensures UsesBrotli(path)
  {
    var c := BrotliName(middle);
    assert '/' !in c;
    AfterLastOf(before, c, '/');
    BrotliComponent(c, middle);
  }

  lemma AfterLastOf(before: string, rest: string, c: char)
    requires c !in rest && (before == "" || before[|before| - 1] == c)
    ensures AfterLast(before + rest, c) == rest
  {
    var s := before + rest;
    assert forall k :: 0 <= k < |rest| ==> s[|before| + k] == rest[k] && rest[k] in rest;
    assert before != "" ==> s[|before| - 1] == c;
    assert LastIndex(s, c) == |before| - 1;
    assert s[|before|..] == rest;
  }

  function BrotliName(middle: string): string {
    "index." + (middle + ".bundle")
  }

  lemma BrotliComponent(component: string, middle: string)
    ensures component == BrotliName(middle) <==>
              && StartsWith(component, "index.") && EndsWith(component[6..], ".bundle")
              && component[6..|component| - 7] == middle
  {
    if component == BrotliName(middle) {
      assert component[6..] == middle + ".bundle";
    } else if StartsWith(component, "index.") && EndsWith(component[6..], ".bundle") {
      var rest := component[6..];
      assert component == "index." + rest && rest == rest[..|rest| - 7] + ".bundle";
      assert rest[..|rest| - 7] == component[6..|component| - 7];
    }
  }

  /** path reads as before, "index.", middle and ".bundle", the match starting a path component. */
  predicate BrotliMatch(path: string, before: string, middle: string) {
    && path == before + BrotliName(middle)
    && middle != "" && '/' !in middle
    && (before == "" || before[|before| - 1] == '/')
  }

  predicate SlashFree(s: string) {
    '/' !in s && '\\' !in s
  }

  lemma {:induction false} SlashesOfJoin(a: string, b: string)
    ensures Slashes(a + ['/'] + b) == Slashes(a) + ['/'] + Slashes(b)
  {
    if a == "" {
      assert a + ['/'] + b == ['/'] + b && (['/'] + b)[1..] == b;
    } else {
      SlashesOfJoin(a[1..], b);
      assert (a + ['/'] + b)[1..] == a[1..] + ['/'] + b;
    }
  }

  lemma SplitStep<T>(x: T, t: seq<T>, c: T)
    ensures Split([x] + t, c) ==
            if x == c then [[]] + Split(t, c) else [[x] + Split(t, c)[0]] + Split(t, c)[1..]
  {
    assert ([x] + t)[1..] == t;
  }

  /** Putting x before a first part, with more parts behind. */
  lemma BeforeFirst<T>(x: T, front: seq<seq<T>>, back: seq<seq<T>>)
    requires front != []
    ensures [[x] + (front + back)[0]] + (front + back)[1..] == ([[x] + front[0]] + front[1..]) + back
    ensures [[]] + (front + back) == ([[]] + front) + back
  {
  }

  lemma {:induction false} SplitOfJoin<T>(a: seq<T>, c: T, b: seq<T>)
    ensures Split(a + [c] + b, c) == Split(a, c) + Split(b, c)
  {
    if a == [] {
      assert a + [c] + b == [c] + b;
      SplitStep(c, b, c);
    } else {
      var x, t := a[0], a[1..];
      assert a == [x] + t && a + [c] + b == [x] + (t + [c] + b);
      SplitOfJoin(t, c, b);
      SplitStep(x, t, c);
      SplitStep(x, t + [c] + b, c);
      BeforeFirst(x, Split(t, c), Split(b, c));
    }
  }

  lemma NonEmptyStep<T>(part: seq<T>, rest: seq<seq<T>>)
    ensures NonEmpty([part] + rest) == (if part == [] then [] else [part]) + NonEmpty(rest)
  {
    assert ([part] + rest)[1..] == rest;
  }

  lemma {:induction false} NonEmptyOfSum<T>(p: seq<seq<T>>, q: seq<seq<T>>)
    ensures NonEmpty(p + q) == NonEmpty(p) + NonEmpty(q)
  {
    if p == [] {
      assert p + q == q;
    } else {
      var x, t := p[0], p[1..];
      assert p == [x] + t && p + q == [x] + (t + q);
      NonEmptyOfSum(t, q);
      NonEmptyStep(x, t);
      NonEmptyStep(x, t + q);
      assert [x] + (NonEmpty(t) + NonEmpty(q)) == ([x] + NonEmpty(t)) + NonEmpty(q);
    }
  }

  /** Joining paths joins their segments. */
  lemma SegmentsOfJoin(a: string, b: string)
    ensures Segments(a + ['/'] + b) == Segments(a) + Segments(b)
  {
    SlashesOfJoin(a, b);
    SplitOfJoin(Slashes(a), '/', Slashes(b));
    NonEmptyOfSum(Split(Slashes(a), '/'), Split(Slashes(b), '/'));
  }

  lemma {:induction false} SlashesKeep(s: string)
    requires SlashFree(s)
    ensures Slashes(s) == s
  {
    if s != "" {
      assert s[0] in s;
      SlashesKeep(s[1..]);
    }
  }

  lemma OneSegment(s: string)
    requires SlashFree(s) && s != ""
    ensures Segments(s) == [s]
  {
    SlashesKeep(s);
    SplitWithout(s, '/');
    var parts := [s];
    assert parts[1..] == [] && NonEmpty(parts) == [s] + NonEmpty(parts[1..]);
  }

  /** A content-addressed object is stored under the fixed segment, the shard and the hashed name. */
  lemma ContentSegments(fileHash: string, extension: string)
    ensures Segments(ContentPath(fileHash, extension))
            == ["sha256"] + (Segments(Shard(fileHash)) + Segments(fileHash + extension))
  {
    var shard, name := Shard(fileHash), fileHash + extension;
    assert ContentPath(fileHash, extension) == "sha256" + ['/'] + (shard + ['/'] + name);
    SegmentsOfJoin("sha256", shard + ['/'] + name);
    SegmentsOfJoin(shard, name);
    OneSegment("sha256");
  }

  /** Two assets share a content-addressed object exactly when shard and hashed name have the same segments;
      for hashes and extensions without slashes that is, when shard and hashed name agree. */
  lemma ContentKeysAgree(h: string, e: string, h': string, e': string)
    ensures RelativeKey(ContentPath(h, e)) == RelativeKey(ContentPath(h', e')) <==>
              Segments(Shard(h)) + Segments(h + e) == Segments(Shard(h')) + Segments(h' + e')
    ensures h != "" && SlashFree(h) && SlashFree(e) && h' != "" && SlashFree(h') && SlashFree(e') ==>
              (RelativeKey(ContentPath(h, e)) == RelativeKey(ContentPath(h', e')) <==>
               h + e == h' + e' && Shard(h) == Shard(h'))
  {
    var tail, tail' := Segments(Shard(h)) + Segments(h + e), Segments(Shard(h')) + Segments(h' + e');
    ContentSegments(h, e);
    ContentSegments(h', e');
    SameKeySameSegments(ContentPath(h, e), ContentPath(h', e'));
    assert tail == (["sha256"] + tail)[1..] && tail' == (["sha256"] + tail')[1..];
    if h != "" && SlashFree(h) && SlashFree(e) && h' != "" && SlashFree(h') && SlashFree(e') {
      PlainContent(h, e);
      PlainContent(h', e');
      assert tail == [Shard(h), h + e] && tail' == [Shard(h'), h' + e'];
      assert tail == tail' <==> tail[0] == tail'[0] && tail[1] == tail'[1];
    }
  }

  lemma PlainContent(h: string, e: string)
    requires h != "" && SlashFree(h) && SlashFree(e)
    ensures Segments(Shard(h)) == [Shard(h)] && Segments(h + e) == [h + e]
  {
    assert forall c :: c in Shard(h) ==> c in h;
    OneSegment(Shard(h));
    OneSegment(h + e);
  }
}
