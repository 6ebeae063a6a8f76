/** From publishing to devices: what the store's bundles mean for a device that checks for updates. */
module Deployment {
  import opened Wrappers
  import opened Text
  import opened Machine
  import opened Json
  import opened Eligibility
  import Semver
  import SemverSyntax
  import opened Store
  import opened StoreInvariant
  import opened StoreIdempotence
  import StoreRuns
  import opened Decision
  import opened Convergence
  import opened Fleet

  /** How a check selects bundles: by the client's version or by its fingerprint. */
  datatype Selector = ByVersion(version: Semver.Triple) | ByFingerprint(hash: string)

  /** An update check, without the device's current bundle. */
  datatype Check = Check(
    app: string, platform: string, channel: string, minBundleId: string, cohort: Option<string>, selector: Selector)

  /** An absent or empty target version matches no client, although an empty range would match all. */
  predicate MatchesTargetAppVersion(target: Option<string>, version: Semver.Triple) {
    target.Some? && target.value != "" && Semver.Satisfies(version, target.value)
  }

  predicate MatchesFingerprint(stored: Option<string>, requested: string) {
    stored.Some? && stored.value != "" && stored.value == requested
  }

  predicate Selects(s: Selector, b: BundleRow) {
    match s
    case ByVersion(v) => MatchesTargetAppVersion(b.targetAppVersion, v)
    case ByFingerprint(h) => MatchesFingerprint(b.fingerprintHash, h)
  }

  /** The query's WHERE clause and the filter behind it. */
  predicate IsCandidate(c: Check, b: BundleRow) {
    && Fold(b.app) == Fold(c.app) && Fold(b.platform) == Fold(c.platform) && Fold(b.channel) == Fold(c.channel)
    && b.enabled
    && !Less(Fold(b.id), Fold(c.minBundleId))
    && Selects(c.selector, b)
  }

  /** A row whose target version is a range in canonical text is selected for exactly the versions the
      range stands for. */
  lemma SelectedByRange(b: BundleRow, r: seq<SemverSyntax.Clause>, v: Semver.Triple)
    requires r != [] && forall c :: c in r ==> SemverSyntax.ClauseOk(c)
    requires b.targetAppVersion == Some(SemverSyntax.RangeText(r))
    ensures Selects(ByVersion(v), b) <==> SemverSyntax.Member(r, v)
  {
    SemverSyntax.SatisfiesMeansMember(r, v);
    SemverSyntax.RangeTextIsNotEmpty(r);
  }

  /** A row as the decision reads it. */
  function AsBundle(b: BundleRow, fromText: string -> Option<Json>): Bundle
    requires 0 <= b.rolloutCohortCount <= 1000
  {
    Bundle(b.id, b.rolloutCohortCount as i32, ParseTargetCohorts(b.targetCohorts, fromText))
  }

  /** keys lists the candidate rows of the store, each once, in whatever order the database returns them. */
  ghost predicate Lists(db: Db, c: Check, keys: seq<Key>) {
    && (forall k :: k in keys <==> k in db.bundles && IsCandidate(c, db.bundles[k]))
    && (forall i, j :: 0 <= i < j < |keys| ==> keys[i] != keys[j])
  }

  /** The request the decision is made on. */
  function RequestFor(db: Db, c: Check, keys: seq<Key>, fromText: string -> Option<Json>): Request
    requires StoreOk(db) && forall k :: k in keys ==> k in db.bundles
  {
    var candidates := seq(|keys|, i requires 0 <= i < |keys| =>
      var k := keys[i];
      assert k in keys && RowOk(k, db.bundles[k]);
      AsBundle(db.bundles[k], fromText));
    Request(candidates, c.cohort, c.minBundleId)
  }

  /** In a consistent store the candidates have distinct ids, which is all the decision relies on. */
  lemma CandidatesAreDistinct(db: Db, c: Check, keys: seq<Key>, fromText: string -> Option<Json>)
    requires StoreOk(db) && Lists(db, c, keys)
    ensures RequestFor(db, c, keys, fromText).Distinct()
  {
    forall i, j | 0 <= i < j < |keys|
      ensures db.bundles[keys[i]].id != db.bundles[keys[j]].id
    {
      assert keys[i] in keys && keys[j] in keys;
      assert RowOk(keys[i], db.bundles[keys[i]]) && RowOk(keys[j], db.bundles[keys[j]]);
    }
  }

  /** Whatever requests built the store, a device that keeps checking comes to rest at its destination after
      at most one changing answer per candidate plus one, and only its first answer can be UPDATE. */
  lemma {:induction false} EveryDeviceSettles(
    rs: seq<StoreRuns.StoreRequest>, c: Check, keys: seq<Key>, id: string, k: nat, fromText: string -> Option<Json>)
    requires Lists(StoreRuns.Replay(StoreRuns.EMPTY, rs, fromText), c, keys)
    ensures var db := StoreRuns.Replay(StoreRuns.EMPTY, rs, fromText);
            && StoreOk(db)
            && var q := RequestFor(db, c, keys, fromText);
               && (k > |keys| ==> Settled(q, Run(q, id, k)) && Run(q, id, k) == Destination(q, id))
               && (k > 0 ==> !Decide(q, Run(q, id, k)).Update?)
  {
    var db := StoreRuns.Replay(StoreRuns.EMPTY, rs, fromText);
    StoreRuns.ReachableStoresAreOk(rs, fromText);
    CandidatesAreDistinct(db, c, keys, fromText);
    var q := RequestFor(db, c, keys, fromText);
    if k > |keys| {
      EveryRunSettles(q, id, k);
      WhereRunsEnd(q, id, k);
    }
    if k > 0 {
      OnlyFirstAnswerUpdates(q, id, k);
    }
  }

  /** An id that may be published can be older than the nil id, and a fresh device is then caught on the
      built-in bundle for ever, although the bundle is on offer to it. */
  lemma {:induction false} FreshDeviceIsCaught(k: nat)
    ensures var b := Bundle("-", 1000, None); var q := Request([b], None, "-");
            && ValidId(b.id) && Best(q, Anything) == Some(b) && Run(q, NIL_UUID, k) == NIL_UUID
  {
    var b := Bundle("-", 1000, None);
    var q := Request([b], None, "-");
    assert b in q.candidates && q.Offers(b);
    BestIsGreatest(q, Anything);
    BestIsGreatest(q, Newer(NIL_UUID));
    SettledStays(q, NIL_UUID, k);
  }

  /** The device's cohort is absent or one of the numbers. */
  predicate OrdinaryCohort(cohort: Option<string>) {
    cohort.Some? ==> NumericCohort(NormalizeCohort(cohort.value)).Some?
  }

  /** The store once b is published into it. */
  ghost predicate Publishes(db: Db, b: CliBundle, app: string, d: Db) {
    && KeyOf(app, b.id) !in db.bundles
    && Create(db, app, [b]) == (Created, d)
  }

  /** b is newer than every bundle the check would otherwise see. */
  ghost predicate TopsCandidates(db: Db, b: CliBundle, c: Check) {
    && IsCandidate(c, RowOf(c.app, b))
    && forall k :: k in db.bundles && IsCandidate(c, db.bundles[k]) ==> AtMost(db.bundles[k].id, b.id)
  }

  lemma PublishingAddsOneRow(db: Db, b: CliBundle, app: string, d: Db)
    requires StoreOk(db) && Publishes(db, b, app, d)
    ensures StoreOk(d) && d.bundles == db.bundles[KeyOf(app, b.id) := RowOf(app, b)]
  {
    PostOfOne(db, app, b);
    SaveBundleExactly(db, app, b);
  }

  lemma NewRowIsNewest(
    db: Db, b: CliBundle, c: Check, d: Db, keys: seq<Key>, fromText: string -> Option<Json>)
    requires StoreOk(d) && d.bundles == db.bundles[KeyOf(c.app, b.id) := RowOf(c.app, b)]
    requires TopsCandidates(db, b, c) && Lists(d, c, keys)
    ensures forall x :: x in RequestFor(d, c, keys, fromText).candidates ==> AtMost(x.id, b.id)
  {
    var q := RequestFor(d, c, keys, fromText);
    forall x | x in q.candidates
      ensures AtMost(x.id, b.id)
    {
      var i :| 0 <= i < |keys| && q.candidates[i] == x;
      assert keys[i] in keys;
    }
  }

  /** A full rollout is on offer to every ordinary device, whatever its target cohorts. */
  lemma FullRolloutIsOffered(q: Request, b: Bundle)
    requires b.rolloutCohortCount == 1000 && OrdinaryCohort(q.cohort)
    ensures q.Offers(b)
  {
    if q.cohort.Some? {
      EligibilityByNormalForm(b.id, q.cohort.value, 1000, b.targetCohorts);
      NormalizeTwice(q.cohort.value);
    }
  }

  lemma NewRowIsListed(db: Db, b: CliBundle, c: Check, d: Db, keys: seq<Key>) returns (i: nat)
    requires d.bundles == db.bundles[KeyOf(c.app, b.id) := RowOf(c.app, b)]
    requires IsCandidate(c, RowOf(c.app, b)) && Lists(d, c, keys)
    ensures i < |keys| && keys[i] == KeyOf(c.app, b.id)
  {
    assert KeyOf(c.app, b.id) in keys;
    i :| 0 <= i < |keys| && keys[i] == KeyOf(c.app, b.id);
  }

  /** The published bundle is among the candidates, and a fully rolled out one is on offer. */
  lemma NewRowIsOffered(
    db: Db, b: CliBundle, c: Check, d: Db, keys: seq<Key>, fromText: string -> Option<Json>) returns (top: Bundle)
    requires StoreOk(d) && d.bundles == db.bundles[KeyOf(c.app, b.id) := RowOf(c.app, b)]
    requires IsCandidate(c, RowOf(c.app, b)) && Lists(d, c, keys)
    requires GetOr(b.rolloutCohortCount, 1000) == 1000 && OrdinaryCohort(c.cohort)
    ensures var q := RequestFor(d, c, keys, fromText); top in q.candidates && q.Offers(top) && top.id == b.id
  {
    var i := NewRowIsListed(db, b, c, d, keys);
    top := RequestFor(d, c, keys, fromText).candidates[i];
    FullRolloutIsOffered(RequestFor(d, c, keys, fromText), top);
  }

  lemma PublishedIsNewest(
    db: Db, b: CliBundle, c: Check, d: Db, keys: seq<Key>, fromText: string -> Option<Json>) returns (top: Bundle)
    requires StoreOk(db) && Publishes(db, b, c.app, d) && TopsCandidates(db, b, c) && Lists(d, c, keys)
    requires GetOr(b.rolloutCohortCount, 1000) == 1000 && OrdinaryCohort(c.cohort)
    ensures StoreOk(d)
    ensures var q := RequestFor(d, c, keys, fromText);
            q.Distinct() && IsNewest(q, top) && q.Offers(top) && top.id == b.id
  {
    PublishingAddsOneRow(db, b, c.app, d);
    CandidatesAreDistinct(d, c, keys, fromText);
    NewRowIsNewest(db, b, c, d, keys, fromText);
    top := NewRowIsOffered(db, b, c, d, keys, fromText);
  }

  /** A fully rolled out bundle that is published with the greatest id reaches every ordinary device: from any
      current bundle, repeated checks end on it. Only if its id is below the nil id, a fresh device stays on
      the built-in bundle. */
  lemma PublishedReachesEveryone(
    db: Db, b: CliBundle, c: Check, d: Db, keys: seq<Key>, id: string, fromText: string -> Option<Json>)
    requires StoreOk(db) && Publishes(db, b, c.app, d) && TopsCandidates(db, b, c) && Lists(d, c, keys)
    requires GetOr(b.rolloutCohortCount, 1000) == 1000 && OrdinaryCohort(c.cohort)
    ensures StoreOk(d)
    ensures var q := RequestFor(d, c, keys, fromText); var end := Run(q, id, |keys| + 1);
            Settled(q, end) && end == if Less(b.id, NIL_UUID) && id == NIL_UUID then NIL_UUID else b.id
  {
    var top := PublishedIsNewest(db, b, c, d, keys, fromText);
    OfferedNewestHolds(RequestFor(d, c, keys, fromText), top, id, |keys| + 1);
  }
}
