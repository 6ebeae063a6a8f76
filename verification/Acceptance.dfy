/** Which requests the store accepts, exactly: no ordinary body is refused, and nothing else gets in. */
module Acceptance {
  import opened Wrappers
  import opened Text
  import opened Json
  import opened Eligibility
  import opened Store
  import opened StoreInvariant
  import Uri

  // ----- texts and ids -----

  const DIGITS := "0123456789"

  predicate PlainIdChar(c: char) {
    c in UPPER || c in LOWER || c in DIGITS || c == '-' || c == '_'
  }

  /** One to 36 letters, digits, hyphens and underscores. */
  predicate PlainId(id: string) {
    1 <= |id| <= 36 && forall c :: c in id ==> PlainIdChar(c)
  }

  lemma DigitsInOrder()
    ensures |DIGITS| == 10 && forall k :: 0 <= k < 10 ==> DIGITS[k] as int == '0' as int + k
  {
  }

  lemma InOrderIsRange(c: char, all: string, first: char)
    requires |all| > 0 && forall k :: 0 <= k < |all| ==> all[k] as int == first as int + k
    ensures c in all <==> first <= c && c as int < first as int + |all|
  {
    if first <= c && c as int < first as int + |all| {
      assert all[c as int - first as int] == c;
    }
  }

  lemma PlainIdCharIs(c: char)
    ensures PlainIdChar(c) <==> IdChar(c)
  {
    AlphabetInOrder();
    DigitsInOrder();
    InOrderIsRange(c, UPPER, 'A');
    InOrderIsRange(c, LOWER, 'a');
    InOrderIsRange(c, DIGITS, '0');
  }

  lemma ValidIdExactly(id: string)
    ensures ValidId(id) <==> PlainId(id)
  {
    forall c | c in id
      ensures PlainIdChar(c) <==> IdChar(c)
    {
      PlainIdCharIs(c);
    }
  }

  lemma {:induction false} Utf8OneMore(s: string, c: char)
    ensures |Uri.Utf8(s + [c])| == |Uri.Utf8(s)| + |Uri.Utf8Char(c)|
  {
    if s == "" {
      assert (s + [c])[1..] == "";
    } else {
      assert (s + [c])[1..] == s[1..] + [c];
      Utf8OneMore(s[1..], c);
    }
  }

  lemma {:induction false} Utf8LengthExactly(s: string)
    ensures Utf8Length(s) == |Uri.Utf8(s)|
  {
    if s != "" {
      var front, c := s[..|s| - 1], s[|s| - 1];
      Utf8LengthExactly(front);
      Utf8OneMore(front, c);
      assert s == front + [c];
    }
  }

  /** The text takes at most 65535 bytes in UTF-8, which is what a TEXT column holds. */
  predicate Short(s: Option<string>) {
    s.Some? ==> |Uri.Utf8(s.value)| <= 65535
  }

  lemma ShortExactly(s: Option<string>)
    ensures OptionalTextFits(s) <==> Short(s)
    ensures s.Some? ==> (TextFits(s.value) <==> Short(s))
  {
    if s.Some? {
      Utf8LengthExactly(s.value);
    }
  }

  lemma ShortEverywhere()
    ensures forall s :: OptionalTextFits(s) <==> Short(s)
    ensures forall s :: TextFits(s) <==> Short(Some(s))
  {
    forall s
      ensures OptionalTextFits(s) <==> Short(s)
    {
      ShortExactly(s);
    }
    forall s
      ensures TextFits(s) <==> Short(Some(s))
    {
      ShortExactly(Some(s));
    }
  }

  /** Some character is not white space. */
  predicate Inked(s: Option<string>) {
    s.Some? && exists c :: c in s.value && !IsSpace(c)
  }

  lemma {:induction false} TrimStartKeepsInk(s: string)
    ensures (exists c :: c in TrimStart(s) && !IsSpace(c)) <==> exists c :: c in s && !IsSpace(c)
  {
    if s != "" && IsSpace(s[0]) {
      TrimStartKeepsInk(s[1..]);
      assert s == [s[0]] + s[1..];
    }
  }

  lemma {:induction false} TrimEndKeepsInk(s: string)
    ensures (exists c :: c in TrimEnd(s) && !IsSpace(c)) <==> exists c :: c in s && !IsSpace(c)
  {
    if s != "" && IsSpace(s[|s| - 1]) {
      TrimEndKeepsInk(s[..|s| - 1]);
      assert s == s[..|s| - 1] + [s[|s| - 1]];
    }
  }

  lemma InkedExactly(s: Option<string>)
    ensures NonBlank(s) <==> Inked(s)
  {
    if s.Some? {
      TrimStartKeepsInk(s.value);
      TrimEndKeepsInk(TrimStart(s.value));
      TrimTrims(s.value);
      var t := Trim(s.value);
      if t != "" {
        assert t[0] in t;
      }
    }
  }

  // ----- the parts of a bundle -----

  predicate PlainPatch(p: CliPatch) {
    PlainId(p.baseBundleId) && Short(Some(p.baseFileHash)) && Short(Some(p.patchFileHash)) && Short(Some(p.patchStorageUri))
  }

  lemma ValidPatchExactly(p: CliPatch)
    ensures ValidPatch(p) <==> PlainPatch(p)
  {
    ValidIdExactly(p.baseBundleId);
    ShortEverywhere();
  }

  predicate PlainSlugChar(c: char) {
    c in LOWER || c in DIGITS || c == '-'
  }

  /** Once normal, a numeral of 1..1000 or a slug of at most 64 small letters, digits and hyphens. */
  ghost predicate PlainCohort(cohort: string) {
    var s := NormalizeCohort(cohort);
    || IsNumeral(s)
    || (0 < |s| <= 64 && !AllDigits(s) && forall c :: c in s ==> PlainSlugChar(c))
  }

  lemma PlainSlugCharIs(c: char)
    ensures PlainSlugChar(c) <==> 'a' <= c <= 'z' || IsDigit(c) || c == '-'
  {
    AlphabetInOrder();
    DigitsInOrder();
    InOrderIsRange(c, LOWER, 'a');
    InOrderIsRange(c, DIGITS, '0');
  }

  lemma SlugExactly(s: string)
    ensures (forall c :: c in s ==> 'a' <= c <= 'z' || IsDigit(c) || c == '-') <==> forall c :: c in s ==> PlainSlugChar(c)
  {
    forall c
      ensures PlainSlugChar(c) <==> 'a' <= c <= 'z' || IsDigit(c) || c == '-'
    {
      PlainSlugCharIs(c);
    }
  }

  lemma ValidCohortExactly(cohort: string)
    ensures IsValidCohort(cohort) <==> PlainCohort(cohort)
  {
    ValidCohortForms(cohort);
    SlugExactly(NormalizeCohort(cohort));
  }

  ghost predicate PlainCohorts(cohorts: seq<string>) {
    |cohorts| <= 1000 && forall c :: c in cohorts ==> PlainCohort(c)
  }

  /** Nothing but these limits is checked of a bundle. */
  ghost predicate PlainBundle(b: CliBundle) {
    && PlainId(b.id)
    && Short(Some(b.platform)) && Short(Some(b.fileHash)) && Short(Some(b.storageUri)) && Short(b.channel)
    && Short(b.gitCommitHash) && Short(b.message) && Short(b.targetAppVersion) && Short(b.fingerprintHash)
    && Short(b.manifestStorageUri) && Short(b.manifestFileHash) && Short(b.assetBaseStorageUri)
    && (Inked(b.targetAppVersion) || Inked(b.fingerprintHash))
    && (b.rolloutCohortCount.Some? ==> 0 <= b.rolloutCohortCount.value <= 1000)
    && (b.targetCohorts.Some? ==> PlainCohorts(b.targetCohorts.value))
    && forall p :: p in PatchesOf(b.patches) ==> PlainPatch(p)
  }

  lemma ValidBundleExactly(b: CliBundle)
    ensures ValidBundle(b) <==> PlainBundle(b)
  {
    ValidIdExactly(b.id);
    ShortEverywhere();
    InkedExactly(b.targetAppVersion);
    InkedExactly(b.fingerprintHash);
    forall c: string
      ensures IsValidCohort(c) <==> PlainCohort(c)
    {
      ValidCohortExactly(c);
    }
    forall p
      ensures ValidPatch(p) <==> PlainPatch(p)
    {
      ValidPatchExactly(p);
    }
  }

  // ----- POST -----

  /** The bundles the app has once the first n of the body are saved. */
  ghost function Known(db: Db, app: string, body: seq<CliBundle>, n: nat): set<Key>
    requires n <= |body|
  {
    db.bundles.Keys + set i | 0 <= i < n :: KeyOf(app, body[i].id)
  }

  /** Every patch of bundle i starts from a bundle the app has by then, that bundle included. */
  ghost predicate BasesKnown(db: Db, app: string, body: seq<CliBundle>, i: nat)
    requires i < |body|
  {
    forall p :: p in PatchesOf(body[i].patches) ==> KeyOf(app, p.baseBundleId) in Known(db, app, body, i + 1)
  }

  lemma KnownOneMore(db: Db, app: string, body: seq<CliBundle>, n: nat)
    requires n < |body|
    ensures Known(db, app, body, n + 1) == Known(db, app, body, n) + {KeyOf(app, body[n].id)}
  {
  }

  ghost predicate AllKnown(db: Db, app: string, body: seq<CliBundle>, n: nat)
    requires n <= |body|
  {
    forall i :: 0 <= i < n ==> BasesKnown(db, app, body, i)
  }

  /** The outcome of saving the first n bundles: it goes through as long as the bases are known. */
  ghost predicate SavedAsKnown(db: Db, app: string, body: seq<CliBundle>, n: nat, r: Result<Db, Status>)
    requires n <= |body|
  {
    (r.Ok? <==> AllKnown(db, app, body, n)) && (r.Ok? ==> r.value.bundles.Keys == Known(db, app, body, n))
  }

  lemma SavedNone(db: Db, app: string, body: seq<CliBundle>)
    ensures SavedAsKnown(db, app, body, 0, SaveBundles(db, app, body, 0))
  {
    assert SaveBundles(db, app, body, 0) == Ok(db);
    assert Known(db, app, body, 0) == db.bundles.Keys;
  }

  lemma {:induction false} SavedExactly(db: Db, app: string, body: seq<CliBundle>, n: nat, r: Result<Db, Status>)
    requires StoreOk(db) && n <= |body| && (forall b :: b in body ==> ValidBundle(b)) && r == SaveBundles(db, app, body, n)
    ensures SavedAsKnown(db, app, body, n, r)
    decreases n
  {
    if n == 0 {
      SavedNone(db, app, body);
    } else {
      var before := SaveBundles(db, app, body, n - 1);
      SavedExactly(db, app, body, n - 1, before);
      SaveBundlesKeepsStore(db, app, body, n - 1);
      SavedStep(db, app, body, n, before, r);
    }
  }

  lemma AllKnownOneMore(db: Db, app: string, body: seq<CliBundle>, n: nat)
    requires 0 < n <= |body|
    ensures AllKnown(db, app, body, n) <==> AllKnown(db, app, body, n - 1) && BasesKnown(db, app, body, n - 1)
  {
  }

  lemma SavedStep(db: Db, app: string, body: seq<CliBundle>, n: nat, before: Result<Db, Status>, r: Result<Db, Status>)
    requires 0 < n <= |body| && ValidBundle(body[n - 1]) && SavedAsKnown(db, app, body, n - 1, before)
    requires before.Ok? ==> StoreOk(before.value)
    requires r == match before case Err(s) => Err(s) case Ok(d) => SaveBundle(d, app, body[n - 1])
    ensures SavedAsKnown(db, app, body, n, r)
  {
    AllKnownOneMore(db, app, body, n);
    if before.Ok? {
      SavedNext(db, app, body, n - 1, before.value);
    }
  }

  lemma SavedNext(db: Db, app: string, body: seq<CliBundle>, n: nat, d: Db)
    requires n < |body| && StoreOk(d) && ValidBundle(body[n]) && d.bundles.Keys == Known(db, app, body, n)
    ensures SaveBundle(d, app, body[n]).Ok? <==> BasesKnown(db, app, body, n)
    ensures SaveBundle(d, app, body[n]).Ok? ==> SaveBundle(d, app, body[n]).value.bundles.Keys == Known(db, app, body, n + 1)
  {
    var b, list := body[n], PatchesOf(body[n].patches);
    SaveBundleExactly(d, app, b);
    KnownOneMore(db, app, body, n);
    assert Upserted(d.bundles, app, b).Keys == Known(db, app, body, n + 1);
    BasesOwnedMeans(Db(Upserted(d.bundles, app, b), Exchanged(d.patches, app, b.id, list)), app, list);
  }

  lemma BasesOwnedMeans(db: Db, app: string, list: seq<CliPatch>)
    ensures BasesOwned(db, app, list, |list|) <==> forall p :: p in list ==> KeyOf(app, p.baseBundleId) in db.bundles
  {
    if forall p :: p in list ==> KeyOf(app, p.baseBundleId) in db.bundles {
      assert forall i :: 0 <= i < |list| ==> list[i] in list;
    }
  }

  /** POST is accepted exactly when the body holds at most a thousand bundles, each within the limits, whose
      patches start from bundles the app has by then. Otherwise it is a bad request and changes nothing. */
  lemma CreatedExactly(db: Db, app: string, body: seq<CliBundle>)
    requires StoreOk(db)
    ensures Create(db, app, body).0 == Created <==>
              |body| <= 1000 && (forall b :: b in body ==> PlainBundle(b))
              && AllKnown(db, app, body, |body|)
    ensures Create(db, app, body).0 != Created ==> Create(db, app, body) == (BadRequest, db)
  {
    forall b | b in body
      ensures ValidBundle(b) <==> PlainBundle(b)
    {
      ValidBundleExactly(b);
    }
    if forall b :: b in body ==> ValidBundle(b) {
      SavedExactly(db, app, body, |body|, SaveBundles(db, app, body, |body|));
      SaveBundlesKeepsStore(db, app, body, |body|);
    }
  }

  // ----- PATCH -----

  predicate ShortField(f: Field<string>) {
    f.Given? ==> Short(f.value)
  }

  /** What a PATCH body must keep to whatever is stored: text widths, the list's length, and no null for a column
      that needs a value. */
  predicate PlainPayload(p: Payload) {
    && ShortField(p.platform) && ShortField(p.fileHash) && ShortField(p.storageUri) && ShortField(p.channel)
    && ShortField(p.gitCommitHash) && ShortField(p.message) && ShortField(p.targetAppVersion)
    && ShortField(p.fingerprintHash) && ShortField(p.manifestStorageUri) && ShortField(p.manifestFileHash)
    && ShortField(p.assetBaseStorageUri)
    && (p.targetCohorts.Given? && p.targetCohorts.value.Some? ==> |p.targetCohorts.value.value| <= 1000)
    && p.platform != Given(None) && p.fileHash != Given(None) && p.storageUri != Given(None)
    && p.channel != Given(None) && p.shouldForceUpdate != Given(None) && p.enabled != Given(None)
  }

  lemma ValidPayloadExactly(p: Payload)
    ensures ValidPayload(p) <==> PlainPayload(p)
  {
    ShortEverywhere();
  }

  /** What it must keep to given the row: the merged row still has a target, and what is sent is within limits. */
  ghost predicate KeepsRow(b: BundleRow, p: Payload) {
    && (|| Inked(if p.targetAppVersion.Given? then p.targetAppVersion.value else b.targetAppVersion)
        || Inked(if p.fingerprintHash.Given? then p.fingerprintHash.value else b.fingerprintHash))
    && (p.rolloutCohortCount.Given? && p.rolloutCohortCount.value.Some? ==> 0 <= p.rolloutCohortCount.value.value <= 1000)
    && (p.targetCohorts.Given? && p.targetCohorts.value.Some? ==>
         forall c :: c in p.targetCohorts.value.value ==> PlainCohort(c))
    && (p.patches.Given? ==> forall x :: x in PatchesOf(p.patches.value) ==> PlainPatch(x))
  }

  lemma {:induction false} OnlyStringsAreItems(items: seq<Json>)
    ensures forall s :: s in OnlyStrings(items) ==> String(s) in items
  {
    if items != [] {
      OnlyStringsAreItems(items[1..]);
    }
  }

  /** The cohorts read from a consistent row are valid. */
  lemma StoredCohortsAreValid(column: Option<Json>, fromText: string -> Option<Json>)
    requires CohortColumnOk(column) && ParseTargetCohorts(column, fromText).Some?
    ensures forall c :: c in ParseTargetCohorts(column, fromText).value ==> IsValidCohort(c)
  {
    OnlyStringsAreItems(column.value.items);
    forall c | c in ParseTargetCohorts(column, fromText).value
      ensures IsValidCohort(c)
    {
      assert String(c) in column.value.items;
    }
  }

  lemma CohortsExactly(cohorts: seq<string>)
    ensures (forall c :: c in cohorts ==> IsValidCohort(c)) <==> forall c :: c in cohorts ==> PlainCohort(c)
  {
    forall c: string
      ensures IsValidCohort(c) <==> PlainCohort(c)
    {
      ValidCohortExactly(c);
    }
  }

  lemma AcceptableExactly(k: Key, b: BundleRow, p: Payload, fromText: string -> Option<Json>)
    requires RowOk(k, b)
    ensures Acceptable(b, p, fromText) <==> KeepsRow(b, p)
  {
    var u := UpdatedRow(b, p, fromText);
    InkedExactly(u.targetAppVersion);
    InkedExactly(u.fingerprintHash);
    if p.targetCohorts.Absent? {
      if ParseTargetCohorts(b.targetCohorts, fromText).Some? {
        StoredCohortsAreValid(b.targetCohorts, fromText);
      }
    } else if p.targetCohorts.value.Some? {
      CohortsExactly(p.targetCohorts.value.value);
    }
    forall x
      ensures ValidPatch(x) <==> PlainPatch(x)
    {
      ValidPatchExactly(x);
    }
  }

  /** Every replacement patch starts from a bundle of the app. */
  predicate BasesStored(db: Db, app: string, p: Payload) {
    p.patches.Given? ==> forall x :: x in PatchesOf(p.patches.value) ==> KeyOf(app, x.baseBundleId) in db.bundles
  }

  /** PATCH is accepted exactly when the body is within the limits, the bundle exists, the merged row keeps to
      them, and the bases are stored. It is not found exactly when only the bundle is missing; anything else is a
      bad request; and only an accepted PATCH changes anything. */
  lemma PatchedExactly(db: Db, app: string, id: string, p: Payload, fromText: string -> Option<Json>)
    requires StoreOk(db)
    ensures var (status, d) := Update(db, app, id, p, fromText); var k := KeyOf(app, id);
            && (status == Success <==>
                 PlainPayload(p) && k in db.bundles && KeepsRow(db.bundles[k], p) && BasesStored(db, app, p))
            && (status == NotFound <==> PlainPayload(p) && k !in db.bundles)
            && (status == Success || status == NotFound || status == BadRequest)
            && (status != Success ==> d == db)
  {
    UpdateExactly(db, app, id, p, fromText);
    ValidPayloadExactly(p);
    if KeyOf(app, id) in db.bundles {
      AcceptableExactly(KeyOf(app, id), db.bundles[KeyOf(app, id)], p, fromText);
    }
    if p.patches.Given? {
      BasesOwnedMeans(db, app, PatchesOf(p.patches.value));
    }
  }

  /** A body that mentions nothing is accepted for every stored bundle, and changes nothing. */
  lemma EmptyPatchIsAccepted(db: Db, app: string, id: string, fromText: string -> Option<Json>)
    requires StoreOk(db) && KeyOf(app, id) in db.bundles
    ensures Update(db, app, id, NOTHING, fromText) == (Success, db)
  {
    var k := KeyOf(app, id);
    PatchedExactly(db, app, id, NOTHING, fromText);
    assert RowOk(k, db.bundles[k]);
    InkedExactly(db.bundles[k].targetAppVersion);
    InkedExactly(db.bundles[k].fingerprintHash);
    assert KeepsRow(db.bundles[k], NOTHING);
  }

  const NOTHING := Payload(
    Absent, Absent, Absent, Absent, Absent, Absent, Absent, Absent, Absent, Absent, Absent, Absent, Absent, Absent,
    Absent, Absent, Absent)
}
