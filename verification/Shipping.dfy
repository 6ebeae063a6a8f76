/** From a POST to the devices: which stored row an answer names, and how many devices a published bundle gets. */
module Shipping {
  import opened Wrappers
  import opened Text
  import opened Machine
  import opened Json
  import opened Eligibility
  import opened Rollout
  import opened Store
  import opened StoreInvariant
  import opened Decision
  import opened Convergence
  import opened Entitlement
  import opened Fleet
  import opened Deployment
  import Decimal
  import Semver
  import Response
  import Serving

  // ----- which rows a check sees -----

  /** A row of the check's app, platform and channel that is enabled, not below the device's minimum, and meant
      for the device's version or fingerprint. */
  predicate Shown(c: Check, b: BundleRow) {
    && Fold(b.app) == Fold(c.app) && Fold(b.platform) == Fold(c.platform) && Fold(b.channel) == Fold(c.channel)
    && b.enabled && AtMost(Fold(c.minBundleId), Fold(b.id))
    && match c.selector
       case ByVersion(v) => b.targetAppVersion.Some? && b.targetAppVersion.value != "" && Semver.Satisfies(v, b.targetAppVersion.value)
       case ByFingerprint(h) => h != "" && b.fingerprintHash == Some(h)
  }

  /** Whether a row with this id, rollout and target cohorts is for the device. */
  ghost predicate IsFor(cohort: Option<string>, id: string, rollout: int, targets: Option<seq<string>>) {
    match cohort
    case None => rollout >= 1000
    case Some(c) =>
      || (targets.Some? && exists t :: t in targets.value && NormalizeCohort(t) == NormalizeCohort(c))
      || exists n :: 1 <= n <= 1000 && NormalizeCohort(c) == Decimal.Print(n) && Position(id, n) < rollout
  }

  ghost predicate RowIsFor(c: Check, b: BundleRow, fromText: string -> Option<Json>) {
    IsFor(c.cohort, b.id, b.rolloutCohortCount, ParseTargetCohorts(b.targetCohorts, fromText))
  }

  lemma ShownIsCandidate(c: Check, b: BundleRow)
    ensures Shown(c, b) <==> IsCandidate(c, b)
  {
    LessIsTotal(Fold(c.minBundleId), Fold(b.id));
    if AtMost(Fold(c.minBundleId), Fold(b.id)) && Less(Fold(b.id), Fold(c.minBundleId)) {
      NotBothWays(Fold(b.id), Fold(c.minBundleId));
    }
  }

  /** Row k is seen by the check. */
  ghost predicate Seen(db: Db, c: Check, k: Key) {
    k in db.bundles && Shown(c, db.bundles[k])
  }

  /** Every candidate of the request is a row the check sees, with that row's id, rollout and targets. */
  lemma CandidateIsSeen(db: Db, c: Check, keys: seq<Key>, fromText: string -> Option<Json>, x: Bundle) returns (k: Key)
    requires StoreOk(db) && Lists(db, c, keys) && x in RequestFor(db, c, keys, fromText).candidates
    ensures Seen(db, c, k) && db.bundles[k].id == x.id
    ensures Entitled(c.cohort, x) <==> RowIsFor(c, db.bundles[k], fromText)
  {
    var q := RequestFor(db, c, keys, fromText);
    var i :| 0 <= i < |keys| && q.candidates[i] == x;
    k := keys[i];
    assert k in keys;
    ShownIsCandidate(c, db.bundles[k]);
  }

  /** ... and the other way round. */
  lemma SeenIsCandidate(db: Db, c: Check, keys: seq<Key>, fromText: string -> Option<Json>, k: Key) returns (x: Bundle)
    requires StoreOk(db) && Lists(db, c, keys) && Seen(db, c, k)
    ensures x in RequestFor(db, c, keys, fromText).candidates && x.id == db.bundles[k].id
    ensures Entitled(c.cohort, x) <==> RowIsFor(c, db.bundles[k], fromText)
  {
    ShownIsCandidate(c, db.bundles[k]);
    assert k in keys;
    var i :| 0 <= i < |keys| && keys[i] == k;
    x := RequestFor(db, c, keys, fromText).candidates[i];
  }

  ghost predicate NewerFor(db: Db, c: Check, id: string, fromText: string -> Option<Json>, k: Key) {
    Seen(db, c, k) && Less(id, db.bundles[k].id) && RowIsFor(c, db.bundles[k], fromText)
  }

  /** An UPDATE is sent exactly when the check sees a newer row that is for the device, and it names the newest
      such row. */
  lemma UpdateNamesNewestRow(db: Db, c: Check, keys: seq<Key>, id: string, fromText: string -> Option<Json>)
    requires StoreOk(db) && Lists(db, c, keys)
    ensures var v := Decide(RequestFor(db, c, keys, fromText), id);
            && (v.Update? <==> exists k :: NewerFor(db, c, id, fromText, k))
            && (v.Update? ==>
                 && (exists k :: NewerFor(db, c, id, fromText, k) && db.bundles[k].id == v.bundle.id)
                 && forall k :: NewerFor(db, c, id, fromText, k) ==> AtMost(db.bundles[k].id, v.bundle.id))
  {
    var q := RequestFor(db, c, keys, fromText);
    var v := Decide(q, id);
    CandidatesAreDistinct(db, c, keys, fromText);
    DecideIsRight(q, id);
    forall k | NewerFor(db, c, id, fromText, k)
      ensures v.Update? && AtMost(db.bundles[k].id, v.bundle.id)
    {
      var x := SeenIsCandidate(db, c, keys, fromText, k);
      assert Available(q, x);
    }
    if v.Update? {
      var k := CandidateIsSeen(db, c, keys, fromText, v.bundle);
      assert NewerFor(db, c, id, fromText, k);
    }
  }

  ghost predicate OlderSeen(db: Db, c: Check, id: string, k: Key) {
    Seen(db, c, k) && Less(db.bundles[k].id, id)
  }

  /** The check sees no row for the device from the device's own bundle upwards. */
  ghost predicate NothingLeft(db: Db, c: Check, id: string, fromText: string -> Option<Json>) {
    forall k :: Seen(db, c, k) && AtMost(id, db.bundles[k].id) ==> !RowIsFor(c, db.bundles[k], fromText)
  }

  /** Unless the device is fresh or a row from its own bundle upwards is for it, it is sent back to the next older
      row the check sees; without one it is reset, if its bundle is above its minimum. */
  lemma RollbackNamesNextRow(db: Db, c: Check, keys: seq<Key>, id: string, fromText: string -> Option<Json>)
    requires StoreOk(db) && Lists(db, c, keys)
    ensures var v, stays := Decide(RequestFor(db, c, keys, fromText), id), id == NIL_UUID || !NothingLeft(db, c, id, fromText);
            && (v.Rollback? <==> !stays && exists k :: OlderSeen(db, c, id, k))
            && (v.InitRollback? <==> !stays && !(exists k :: OlderSeen(db, c, id, k)) && !AtMost(id, c.minBundleId))
            && (v.Rollback? ==>
                 && (exists k :: OlderSeen(db, c, id, k) && db.bundles[k].id == v.bundle.id)
                 && forall k :: OlderSeen(db, c, id, k) ==> AtMost(db.bundles[k].id, v.bundle.id))
  {
    var q := RequestFor(db, c, keys, fromText);
    CandidatesAreDistinct(db, c, keys, fromText);
    SentBackExactly(q, id);
    OlderMeansSeen(db, c, keys, id, fromText);
    LeftMeansSeen(db, c, keys, id, fromText);
    if Decide(q, id).Rollback? {
      NextOlderIsSeen(db, c, keys, id, Decide(q, id).bundle, fromText);
    }
  }

  lemma NextOlderIsSeen(db: Db, c: Check, keys: seq<Key>, id: string, r: Bundle, fromText: string -> Option<Json>)
    requires StoreOk(db) && Lists(db, c, keys) && IsNextOlder(RequestFor(db, c, keys, fromText), id, r)
    ensures exists k :: OlderSeen(db, c, id, k) && db.bundles[k].id == r.id
    ensures forall k :: OlderSeen(db, c, id, k) ==> AtMost(db.bundles[k].id, r.id)
  {
    var k := CandidateIsSeen(db, c, keys, fromText, r);
    assert OlderSeen(db, c, id, k);
    forall k | OlderSeen(db, c, id, k)
      ensures AtMost(db.bundles[k].id, r.id)
    {
      var x := SeenIsCandidate(db, c, keys, fromText, k);
    }
  }

  lemma OlderMeansSeen(db: Db, c: Check, keys: seq<Key>, id: string, fromText: string -> Option<Json>)
    requires StoreOk(db) && Lists(db, c, keys)
    ensures AnythingOlder(RequestFor(db, c, keys, fromText), id) <==> exists k :: OlderSeen(db, c, id, k)
  {
    var q := RequestFor(db, c, keys, fromText);
    if AnythingOlder(q, id) {
      var x :| x in q.candidates && Less(x.id, id);
      var k := CandidateIsSeen(db, c, keys, fromText, x);
      assert OlderSeen(db, c, id, k);
    }
    if k :| OlderSeen(db, c, id, k) {
      var x := SeenIsCandidate(db, c, keys, fromText, k);
      assert x in q.candidates && Less(x.id, id);
    }
  }

  lemma LeftMeansSeen(db: Db, c: Check, keys: seq<Key>, id: string, fromText: string -> Option<Json>)
    requires StoreOk(db) && Lists(db, c, keys)
    ensures AnythingLeft(RequestFor(db, c, keys, fromText), id) <==> !NothingLeft(db, c, id, fromText)
  {
    var q := RequestFor(db, c, keys, fromText);
    if AnythingLeft(q, id) {
      var x :| Available(q, x) && AtMost(id, x.id);
      var k := CandidateIsSeen(db, c, keys, fromText, x);
    }
    if !NothingLeft(db, c, id, fromText) {
      var k :| Seen(db, c, k) && AtMost(id, db.bundles[k].id) && RowIsFor(c, db.bundles[k], fromText);
      var x := SeenIsCandidate(db, c, keys, fromText, k);
      assert Available(q, x);
    }
  }

  // ----- publishing -----

  /** A check that sees a bundle as published, defaults filled in. */
  predicate SeesBundle(c: Check, b: CliBundle) {
    && Fold(b.platform) == Fold(c.platform) && Fold(GetOr(b.channel, "production")) == Fold(c.channel)
    && b.enabled != Some(false) && AtMost(Fold(c.minBundleId), Fold(b.id))
    && match c.selector
       case ByVersion(v) => b.targetAppVersion.Some? && b.targetAppVersion.value != "" && Semver.Satisfies(v, b.targetAppVersion.value)
       case ByFingerprint(h) => h != "" && b.fingerprintHash == Some(h)
  }

  /** b is published into db, giving d; a check of its app sees it, and sees nothing newer. */
  ghost predicate Ships(db: Db, b: CliBundle, c: Check, d: Db) {
    && StoreOk(db) && KeyOf(c.app, b.id) !in db.bundles && Create(db, c.app, [b]) == (Created, d)
    && SeesBundle(c, b) && forall k :: Seen(db, c, k) ==> AtMost(db.bundles[k].id, b.id)
  }

  lemma ShipsPublishes(db: Db, b: CliBundle, c: Check, d: Db)
    requires Ships(db, b, c, d)
    ensures Publishes(db, b, c.app, d) && TopsCandidates(db, b, c)
  {
    ShownIsCandidate(c, RowOf(c.app, b));
    forall k | k in db.bundles && IsCandidate(c, db.bundles[k])
      ensures AtMost(db.bundles[k].id, b.id)
    {
      ShownIsCandidate(c, db.bundles[k]);
      assert Seen(db, c, k);
    }
  }

  /** The bundle as the decision sees it: the published id, rollout and target cohorts. */
  function Shipped(b: CliBundle): Bundle
    requires 0 <= GetOr(b.rolloutCohortCount, 1000) <= 1000
  {
    Bundle(b.id, GetOr(b.rolloutCohortCount, 1000) as i32, b.targetCohorts)
  }

  lemma RowAsShipped(app: string, b: CliBundle, fromText: string -> Option<Json>)
    requires 0 <= GetOr(b.rolloutCohortCount, 1000) <= 1000
    ensures AsBundle(RowOf(app, b), fromText) == Shipped(b)
  {
    if b.targetCohorts.Some? {
      CohortsRoundTrip(b.targetCohorts.value, fromText);
    }
  }

  /** The published rollout and target cohorts reach the decision: the bundle is a candidate, the newest one. */
  lemma ShippedIsNewest(db: Db, b: CliBundle, c: Check, d: Db, keys: seq<Key>, fromText: string -> Option<Json>)
    requires Ships(db, b, c, d) && Lists(d, c, keys)
    ensures StoreOk(d) && 0 <= GetOr(b.rolloutCohortCount, 1000) <= 1000
    ensures var q := RequestFor(d, c, keys, fromText); q.Distinct() && IsNewest(q, Shipped(b)) && |q.candidates| == |keys|
  {
    ShipsPublishes(db, b, c, d);
    PublishingAddsOneRow(db, b, c.app, d);
    CandidatesAreDistinct(d, c, keys, fromText);
    NewRowIsNewest(db, b, c, d, keys, fromText);
    var i := NewRowIsListed(db, b, c, d, keys);
    assert RowOk(keys[i], d.bundles[keys[i]]);
    RowAsShipped(c.app, b, fromText);
    assert RequestFor(d, c, keys, fromText).candidates[i] == Shipped(b);
  }

  lemma NewestGoesToItsDevices(q: Request, top: Bundle, id: string, k: nat)
    requires q.Distinct() && IsNewest(q, top) && k > |q.candidates|
    ensures Less(id, top.id) ==> (Entitled(q.cohort, top) <==> Decide(q, id).Update? && Decide(q, id).bundle.id == top.id)
    ensures Entitled(q.cohort, top) ==>
              && Run(q, id, k) == (if Less(top.id, NIL_UUID) && id == NIL_UUID then NIL_UUID else top.id)
              && Decide(q, Run(q, id, k)) == NoUpdate
  {
    DecideIsRight(q, id);
    OffersMeansEntitled(q, top);
    if Entitled(q.cohort, top) {
      assert Available(q, top);
      OfferedNewestHolds(q, top, id, k);
      if Less(id, top.id) {
        AtMostBothWays(Decide(q, id).bundle.id, top.id);
      }
    } else if Decide(q, id).Update? && Decide(q, id).bundle.id == top.id {
      SameIdIsSame(q, top, Decide(q, id).bundle);
    }
  }

  /** An older device is sent the published bundle exactly when it is for that device, by rollout or by target
      cohort; a device it is for ends on it from anywhere, unless it is caught on the built-in bundle. */
  lemma ShippedGoesToItsDevices(
    db: Db, b: CliBundle, c: Check, d: Db, keys: seq<Key>, id: string, k: nat, fromText: string -> Option<Json>)
    requires Ships(db, b, c, d) && Lists(d, c, keys) && k > |keys|
    ensures StoreOk(d)
    ensures var q := RequestFor(d, c, keys, fromText);
            var isFor := IsFor(c.cohort, b.id, GetOr(b.rolloutCohortCount, 1000), b.targetCohorts);
            && (Less(id, b.id) ==> (isFor <==> Decide(q, id).Update? && Decide(q, id).bundle.id == b.id))
            && (isFor ==>
                 && Run(q, id, k) == (if Less(b.id, NIL_UUID) && id == NIL_UUID then NIL_UUID else b.id)
                 && Decide(q, Run(q, id, k)) == NoUpdate)
  {
    ShippedIsNewest(db, b, c, d, keys, fromText);
    NewestGoesToItsDevices(RequestFor(d, c, keys, fromText), Shipped(b), id, k);
  }

  /** In particular a device whose cohort has the normal form of a target cohort, at any rollout, even 0. */
  lemma TargetedDeviceIsServed(
    db: Db, b: CliBundle, c: Check, d: Db, keys: seq<Key>, id: string, t: string, fromText: string -> Option<Json>)
    requires Ships(db, b, c, d) && Lists(d, c, keys)
    requires c.cohort.Some? && b.targetCohorts.Some? && t in b.targetCohorts.value
    requires NormalizeCohort(t) == NormalizeCohort(c.cohort.value)
    ensures StoreOk(d)
    ensures var q := RequestFor(d, c, keys, fromText);
            && (Less(id, b.id) ==> Decide(q, id).Update? && Decide(q, id).bundle.id == b.id)
            && Run(q, id, |keys| + 1) == if Less(b.id, NIL_UUID) && id == NIL_UUID then NIL_UUID else b.id
  {
    ShippedGoesToItsDevices(db, b, c, d, keys, id, |keys| + 1, fromText);
    assert IsFor(c.cohort, b.id, GetOr(b.rolloutCohortCount, 1000), b.targetCohorts);
  }

  // ----- the fleet -----

  /** The numeric cohorts whose device, starting on start(x), ends on the published bundle. */
  ghost function EndingOn(
    d: Db, b: CliBundle, c: Check, keys: seq<Key>, start: int -> string, fromText: string -> Option<Json>): set<int>
    requires StoreOk(d) && forall k :: k in keys ==> k in d.bundles
  {
    set x | 1 <= x <= 1000
      && Run(RequestFor(d, c.(cohort := Some(Decimal.Print(x))), keys, fromText), start(x), |keys| + 1) == b.id
  }

  lemma EndingOnIsResting(
    d: Db, b: CliBundle, c: Check, keys: seq<Key>, start: int -> string, fromText: string -> Option<Json>)
    requires StoreOk(d) && (forall k :: k in keys ==> k in d.bundles) && 0 <= GetOr(b.rolloutCohortCount, 1000) <= 1000
    ensures EndingOn(d, b, c, keys, start, fromText) == RestingOn(RequestFor(d, c, keys, fromText), Shipped(b), start)
  {
    var q := RequestFor(d, c, keys, fromText);
    forall x | 1 <= x <= 1000
      ensures RequestFor(d, c.(cohort := Some(Decimal.Print(x))), keys, fromText) == ForCohort(q, x)
    {
    }
  }

  /** The fleet law from POST to device: a bundle published with the greatest id, no target cohorts and rollout n
      ends on the devices of n cohorts, plus those it holds beyond its rollout, minus those caught on the
      built-in bundle. */
  lemma StagedShare(
    db: Db, b: CliBundle, c: Check, d: Db, keys: seq<Key>, start: int -> string, fromText: string -> Option<Json>)
    requires Ships(db, b, c, d) && Lists(d, c, keys) && b.targetCohorts == None
    ensures StoreOk(d) && 0 <= GetOr(b.rolloutCohortCount, 1000) <= 1000
    ensures var q, top := RequestFor(d, c, keys, fromText), Shipped(b);
            |EndingOn(d, b, c, keys, start, fromText)| ==
            GetOr(b.rolloutCohortCount, 1000) + |HeldCohorts(q, top, start)| - |CaughtCohorts(top, start)|
  {
    ShippedIsNewest(db, b, c, d, keys, fromText);
    EndingOnIsResting(d, b, c, keys, start, fromText);
    FleetShare(RequestFor(d, c, keys, fromText), Shipped(b), start);
  }

  /** When every device starts below a bundle that is newer than the built-in one, the share is exact: n of the
      thousand cohorts get a bundle published with rollout n. */
  lemma StagedShareIsExact(
    db: Db, b: CliBundle, c: Check, d: Db, keys: seq<Key>, start: int -> string, fromText: string -> Option<Json>)
    requires Ships(db, b, c, d) && Lists(d, c, keys) && b.targetCohorts == None && Less(NIL_UUID, b.id)
    requires forall x :: 1 <= x <= 1000 ==> Less(start(x), b.id)
    ensures StoreOk(d) && |EndingOn(d, b, c, keys, start, fromText)| == GetOr(b.rolloutCohortCount, 1000)
  {
    ShippedIsNewest(db, b, c, d, keys, fromText);
    EndingOnIsResting(d, b, c, keys, start, fromText);
    FleetShareAboveNil(RequestFor(d, c, keys, fromText), Shipped(b), start);
    forall x | IsCohort(x)
      ensures !AtMost(b.id, start(x))
    {
      NotBothWays(start(x), b.id);
    }
  }

  /** The answer that sends the device to the published bundle shows it as it was sent. */
  lemma ShippedIsShown(
    db: Db, b: CliBundle, c: Check, d: Db, q: Request, s: Serving.Storage, id: string, query: string -> seq<PatchRow>,
    info: Response.UpdateInfo)
    requires Ships(db, b, c, d) && info.id == b.id && info.fileUrl.Some?
    requires Response.RightCheck(q, Serving.MomentOf(d, s, c.app, id, query), id, Ok(Some(info)))
    ensures info.fileHash == Some(b.fileHash) && info.message == b.message && info.fileUrl == s.presign(b.storageUri)
    ensures info.shouldForceUpdate <==> info.status == Response.ROLLBACK || b.shouldForceUpdate == Some(true)
    ensures info.artifacts.Some? ==>
              && b.manifestFileHash == Some(info.artifacts.value.manifestFileHash)
              && b.manifestStorageUri.Some?
              && s.presign(b.manifestStorageUri.value) == Some(info.artifacts.value.manifestUrl)
  {
    ShipsPublishes(db, b, c, d);
    PublishingAddsOneRow(db, b, c.app, d);
    Serving.ResponseShowsRow(d, s, c.app, id, query, q, info);
    if info.artifacts.Some? {
      Serving.ResponseShowsDifference(d, s, c.app, id, query, q, info);
    }
  }
}
