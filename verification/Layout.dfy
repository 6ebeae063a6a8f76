/** Where the assets of a plan are stored, said without the functions that compute it. */
module Layout {
  import opened Wrappers
  import opened Text
  import opened Uri
  import opened Artifacts

  // ----- segments -----

  lemma {:induction false} SlashesOfBackslash(a: string, b: string)
    ensures Slashes(a + ['\\'] + b) == Slashes(a + ['/'] + b)
  {
    if a == "" {
      assert a + ['\\'] + b == ['\\'] + b && a + ['/'] + b == ['/'] + b;
      assert (['\\'] + b)[1..] == b == (['/'] + b)[1..];
    } else {
      SlashesOfBackslash(a[1..], b);
      assert (a + ['\\'] + b)[1..] == a[1..] + ['\\'] + b && (a + ['/'] + b)[1..] == a[1..] + ['/'] + b;
    }
  }

  /** The segments of a path are its non-empty pieces between slashes of either kind. */
  lemma SegmentsPieceByPiece(a: string, c: char, b: string)
    ensures a == "" ==> Segments(a) == []
    ensures a != "" && '/' !in a && '\\' !in a ==> Segments(a) == [a]
    ensures c == '/' || c == '\\' ==> Segments(a + [c] + b) == Segments(a) + Segments(b)
  {
    if a == "" {
      assert [""][1..] == [] && NonEmpty([""]) == NonEmpty<char>([]);
    } else if '/' !in a && '\\' !in a {
      OneSegment(a);
    }
    SegmentsOfJoin(a, b);
    SlashesOfBackslash(a, b);
  }

  // ----- pieces of a storage URI -----

  /** base is the path without its trailing slashes. */
  ghost predicate WithoutTrailing(path: string, base: string) {
    && |base| <= |path| && path[..|base|] == base
    && (forall i :: |base| <= i < |path| ==> path[i] == '/')
    && (base != "" ==> base[|base| - 1] != '/')
  }

  lemma {:induction false} TrimEndSlashesTrims(path: string, base: string)
    ensures WithoutTrailing(path, base) <==> base == TrimEndSlashes(path)
  {
    if path != "" && path[|path| - 1] == '/' {
      TrimEndSlashesTrims(path[..|path| - 1], base);
    }
  }

  lemma EndsWithMeans(s: string, suffix: string)
    ensures EndsWith(s, suffix) <==> exists front :: s == front + suffix
  {
    if EndsWith(s, suffix) {
      assert s == s[..|s| - |suffix|] + suffix;
    }
  }

  /** `.br`, or the text from the last dot on, or nothing. */
  ghost predicate IsExtension(path: string, ext: string) {
    if exists front :: path == front + ".br" then ext == ".br"
    else if '.' in path then
      exists front, last :: path == front + last && ext == last && last != "" && last[0] == '.' && '.' !in last[1..]
    else ext == ""
  }

  lemma FromLastDot(path: string, ext: string)
    requires '.' in path
    ensures ext == "." + AfterLast(path, '.') <==>
              exists front, last :: path == front + last && ext == last && last != "" && last[0] == '.' && '.' !in last[1..]
  {
    var n := LastIndex(path, '.');
    assert n >= 0;
    var front, last := path[..n], path[n..];
    assert path == front + last && last[1..] == AfterLast(path, '.') && last == "." + AfterLast(path, '.');
    forall f, l | path == f + l && l != "" && l[0] == '.' && '.' !in l[1..]
      ensures l == last
    {
      assert path[|f|] == '.';
      assert forall k :: |f| < k < |path| ==> path[k] == l[1..][k - |f| - 1];
    }
  }

  lemma ExtensionIs(path: string, ext: string)
    ensures IsExtension(path, ext) <==> ext == Extension(path)
  {
    EndsWithMeans(path, ".br");
    if '.' in path {
      FromLastDot(path, ext);
    }
  }

  /** The path under which an asset's object is uploaded. */
  function UploadedAs(a: PlannedAsset): string {
    if a.compressed then a.assetPath + ".br" else a.assetPath
  }

  /** The segments below the base: content-addressed under a base that ends in `/assets`, else those of the path. */
  ghost predicate SegmentsBelow(a: PlannedAsset, base: string, segments: seq<string>) {
    if exists front :: base == front + "/assets" then
      exists ext :: IsExtension(UploadedAs(a), ext) &&
        segments == ["sha256"] + (Segments(a.fileHash[..if |a.fileHash| < 2 then |a.fileHash| else 2])
                                  + Segments(a.fileHash + ext))
    else segments == Segments(UploadedAs(a))
  }

  /** The object lies below the base, under the key of the segments. */
  ghost predicate LiesAt(url: Url, base: string, a: PlannedAsset, key: string, segments: seq<string>) {
    a.storageUri == url.origin + base + "/" + key && SegmentsBelow(a, base, segments) && IsKeyFor(key, segments)
  }

  /** The planned entry of an asset as the documentation of the storage layout has it. */
  ghost predicate StoredRight(target: Manifest, url: Url, a: PlannedAsset) {
    && a.assetPath in target && a.fileHash == target[a.assetPath]
    && (a.compressed <==> exists before, middle :: BrotliMatch(a.assetPath, before, middle))
    && forall base :: WithoutTrailing(url.path, base) ==>
         exists key, segments :: LiesAt(url, base, a, key, segments)
  }

  lemma ContentPathBelow(a: PlannedAsset, base: string)
    requires exists front :: base == front + "/assets"
    ensures SegmentsBelow(a, base, Segments(ContentPath(a.fileHash, Extension(UploadedAs(a)))))
  {
    var ext := Extension(UploadedAs(a));
    ExtensionIs(UploadedAs(a), ext);
    ContentSegments(a.fileHash, ext);
  }

  /** The relative path that is planned for the asset. */
  lemma PathBelow(a: PlannedAsset, base: string) returns (path: string)
    ensures path == if EndsWith(base, "/assets") then ContentPath(a.fileHash, Extension(UploadedAs(a))) else UploadedAs(a)
    ensures SegmentsBelow(a, base, Segments(path))
  {
    EndsWithMeans(base, "/assets");
    path := if EndsWith(base, "/assets") then ContentPath(a.fileHash, Extension(UploadedAs(a))) else UploadedAs(a);
    if EndsWith(base, "/assets") {
      ContentPathBelow(a, base);
    }
  }

  lemma UriOfPath(url: Url, base: string, path: string)
    ensures url.origin + JoinStorageUri(base, path) == url.origin + base + "/" + RelativeKey(path)
  {
  }

  lemma UriIsStoredRight(url: Url, base: string, a: PlannedAsset)
    requires WithoutTrailing(url.path, base) && a.storageUri == ResolveAssetUri(url, UploadedAs(a), a.fileHash)
    ensures exists key, segments :: LiesAt(url, base, a, key, segments)
  {
    TrimEndSlashesTrims(url.path, base);
    var path := PathBelow(a, base);
    UriOfPath(url, base, path);
    KeyReadsBack(path);
    assert LiesAt(url, base, a, RelativeKey(path), Segments(path));
  }

  /** Every asset of a right plan is stored right. */
  lemma PlannedAssetsAreStoredRight(q: PlanInput, plan: ArtifactPlan, a: PlannedAsset)
    requires RightPlan(q, Some(plan)) && a in plan.assets
    ensures q.parseUrl(q.assetBaseStorageUri.value).Some?
    ensures StoredRight(q.target, q.parseUrl(q.assetBaseStorageUri.value).value, a)
  {
    var url := q.parseUrl(q.assetBaseStorageUri.value).value;
    BrotliRule(a.assetPath);
    forall base | WithoutTrailing(url.path, base)
      ensures exists key, segments :: LiesAt(url, base, a, key, segments)
    {
      UriIsStoredRight(url, base, a);
    }
  }

  lemma ExtensionIsOne(path: string, ext: string)
    requires IsExtension(path, ext)
    ensures forall e :: IsExtension(path, e) ==> e == ext
  {
    forall e | IsExtension(path, e)
      ensures e == ext
    {
      ExtensionIs(path, e);
      ExtensionIs(path, ext);
    }
  }

  function Shorten(s: string): string {
    if |s| < 2 then s else s[..2]
  }

  lemma PlainSegmentsBelow(a: PlannedAsset, base: string, ext: string, segments: seq<string>)
    requires SegmentsBelow(a, base, segments) && exists front :: base == front + "/assets"
    requires IsExtension(UploadedAs(a), ext) && SlashFree(a.fileHash) && SlashFree(ext) && a.fileHash != ""
    ensures segments == ["sha256", Shorten(a.fileHash), a.fileHash + ext]
  {
    ExtensionIsOne(UploadedAs(a), ext);
    PlainContent(a.fileHash, ext);
    assert Shard(a.fileHash) == Shorten(a.fileHash);
    ThreeSegments("sha256", Shorten(a.fileHash), a.fileHash + ext);
  }

  lemma ThreeSegments(a: string, b: string, c: string)
    ensures [a] + ([b] + [c]) == [a, b, c]
  {
  }

  /** In the usual case, a hash and an extension without slashes: below a base that ends in `/assets` the object's
      key is exactly `sha256`, the first two characters of the hash, and the hash with the extension. */
  lemma ContentAddressed(q: PlanInput, plan: ArtifactPlan, a: PlannedAsset, url: Url, base: string, ext: string)
    returns (key: string)
    requires RightPlan(q, Some(plan)) && a in plan.assets && q.parseUrl(q.assetBaseStorageUri.value) == Some(url)
    requires WithoutTrailing(url.path, base) && exists front :: base == front + "/assets"
    requires IsExtension(UploadedAs(a), ext) && SlashFree(a.fileHash) && SlashFree(ext) && a.fileHash != ""
    ensures a.storageUri == url.origin + base + "/" + key
    ensures IsKeyFor(key, ["sha256", Shorten(a.fileHash), a.fileHash + ext])
  {
    PlannedAssetsAreStoredRight(q, plan, a);
    var segments: seq<string>;
    key, segments :| LiesAt(url, base, a, key, segments);
    PlainSegmentsBelow(a, base, ext, segments);
  }
}
