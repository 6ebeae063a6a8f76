/** Who may have which bundle, said without the program's test, and what decisions and runs make of it. */
module Entitlement {
  import opened Wrappers
  import opened Text
  import opened Eligibility
  import opened Rollout
  import opened Decision
  import opened Convergence
  import Decimal

  /** A device without a cohort may have what is fully rolled out. A device with one may have what is targeted
      at its cohort, and what is rolled out to its cohort's position. */
  ghost predicate Entitled(cohort: Option<string>, b: Bundle) {
    match cohort
    case None => b.rolloutCohortCount >= 1000
    case Some(c) =>
      || (&& b.targetCohorts.Some?
          && exists t :: t in b.targetCohorts.value && NormalizeCohort(t) == NormalizeCohort(c))
      || exists n :: 1 <= n <= 1000 && NormalizeCohort(c) == Decimal.Print(n)
           && Position(b.id, n) < b.rolloutCohortCount as int
  }

  lemma {:induction false} NormalNumber(cohort: string, n: int)
    ensures ParseNumericCohort(NormalizeCohort(cohort)) == Some(n)
            <==> 1 <= n <= 1000 && NormalizeCohort(cohort) == Decimal.Print(n)
  {
    if 1 <= n <= 1000 {
      NumeralIsItsOwnNormalForm(n);
    }
    if ParseNumericCohort(NormalizeCohort(cohort)) == Some(n) {
      var t := Fold(Trim(cohort));
      assert ParseNumericCohort(t).Some?;
      NumeralIsItsOwnNormalForm(ParseNumericCohort(t).value);
    }
  }

  /** The program's test admits exactly the entitled. */
  lemma {:induction false} OffersMeansEntitled(q: Request, b: Bundle)
    ensures q.Offers(b) <==> Entitled(q.cohort, b)
  {
    if q.cohort.Some? {
      var c := q.cohort.value;
      EligibilityByNormalForm(b.id, c, b.rolloutCohortCount, b.targetCohorts);
      forall n: int
        ensures ParseNumericCohort(NormalizeCohort(c)) == Some(n)
                <==> 1 <= n <= 1000 && NormalizeCohort(c) == Decimal.Print(n)
      {
        NormalNumber(c, n);
      }
    }
  }

  ghost predicate Available(q: Request, b: Bundle) {
    b in q.candidates && Entitled(q.cohort, b)
  }

  ghost predicate IsUpdateTo(q: Request, id: string, u: Bundle) {
    && Available(q, u) && Less(id, u.id)
    && forall b :: Available(q, b) && Less(id, b.id) ==> AtMost(b.id, u.id)
  }

  ghost predicate IsNextOlder(q: Request, id: string, r: Bundle) {
    && r in q.candidates && Less(r.id, id)
    && forall b :: b in q.candidates && Less(b.id, id) ==> AtMost(b.id, r.id)
  }

  /** The verdict as the documentation has it: the newest available bundle above the device's own; else nothing,
      for a fresh device and for one whose own bundle is available; else the next older bundle, available or
      not; else a reset, unless the device is at or below its minimum. */
  ghost predicate RightVerdict(q: Request, id: string, v: Verdict) {
    if exists b :: Available(q, b) && Less(id, b.id) then v.Update? && IsUpdateTo(q, id, v.bundle)
    else if id == NIL_UUID || exists b :: Available(q, b) && b.id == id then v == NoUpdate
    else if exists b :: b in q.candidates && Less(b.id, id) then v.Rollback? && IsNextOlder(q, id, v.bundle)
    else v == if AtMost(id, q.minBundleId) then NoUpdate else InitRollback
  }

  lemma NewerIsUpdate(q: Request, id: string)
    ensures match Best(q, Newer(id))
            case Some(u) => IsUpdateTo(q, id, u)
            case None => !exists b :: Available(q, b) && Less(id, b.id)
  {
    BestIsGreatest(q, Newer(id));
    forall b: Bundle
      ensures q.Offers(b) <==> Entitled(q.cohort, b)
    {
      OffersMeansEntitled(q, b);
    }
    assert forall b :: b in q.candidates ==> (Wants(q, Newer(id), b) <==> Available(q, b) && Less(id, b.id));
  }

  lemma OlderIsNext(q: Request, id: string)
    ensures match Best(q, Older(id))
            case Some(r) => IsNextOlder(q, id, r)
            case None => !exists b :: b in q.candidates && Less(b.id, id)
  {
    BestIsGreatest(q, Older(id));
    assert forall b :: b in q.candidates ==> (Wants(q, Older(id), b) <==> Less(b.id, id));
  }

  lemma OwnIsAvailable(q: Request, id: string)
    requires q.Distinct()
    ensures CurrentIsOffered(q, id) <==> exists b :: Available(q, b) && b.id == id
  {
    CurrentIsSound(q, id, 0);
    if Current(q, id, 0).Some? {
      OffersMeansEntitled(q, Current(q, id, 0).value);
      assert Available(q, Current(q, id, 0).value) <==> CurrentIsOffered(q, id);
    }
    forall b | Available(q, b) && b.id == id
      ensures CurrentIsOffered(q, id)
    {
      var k :| 0 <= k < |q.candidates| && q.candidates[k] == b;
      CurrentIsTheCandidate(q, b, 0, k);
      OffersMeansEntitled(q, b);
    }
  }

  lemma DecideIsRight(q: Request, id: string)
    requires q.Distinct()
    ensures RightVerdict(q, id, Decide(q, id))
  {
    NewerIsUpdate(q, id);
    OlderIsNext(q, id);
    OwnIsAvailable(q, id);
  }

  lemma SameIdIsSame(q: Request, x: Bundle, y: Bundle)
    requires q.Distinct() && x in q.candidates && y in q.candidates && AtMost(x.id, y.id) && AtMost(y.id, x.id)
    ensures x == y
  {
    AtMostBothWays(x.id, y.id);
    var i :| 0 <= i < |q.candidates| && q.candidates[i] == x;
    var j :| 0 <= j < |q.candidates| && q.candidates[j] == y;
  }

  /** The decision is the one right verdict. */
  lemma DecisionExactly(q: Request, id: string, v: Verdict)
    requires q.Distinct()
    ensures Decide(q, id) == v <==> RightVerdict(q, id, v)
  {
    DecideIsRight(q, id);
    var d := Decide(q, id);
    if RightVerdict(q, id, v) && (d.Update? || d.Rollback?) {
      SameIdIsSame(q, d.bundle, v.bundle);
    }
  }

  /** Something available is not older than the device's bundle. */
  ghost predicate AnythingLeft(q: Request, id: string) {
    exists b :: Available(q, b) && AtMost(id, b.id)
  }

  ghost predicate AnythingOlder(q: Request, id: string) {
    exists b :: b in q.candidates && Less(b.id, id)
  }

  /** When a device is sent back, and when it is reset. */
  lemma SentBackExactly(q: Request, id: string)
    requires q.Distinct()
    ensures Decide(q, id).Rollback? <==> id != NIL_UUID && !AnythingLeft(q, id) && AnythingOlder(q, id)
    ensures Decide(q, id).InitRollback? <==>
              id != NIL_UUID && !AnythingLeft(q, id) && !AnythingOlder(q, id) && !AtMost(id, q.minBundleId)
    ensures Decide(q, id).Rollback? ==> IsNextOlder(q, id, Decide(q, id).bundle)
  {
    DecideIsRight(q, id);
  }

  /** Without a cohort the answer is UPDATE exactly when a bundle above the device's own is rolled out to all
      thousand, and it names the greatest of these; target cohorts play no part. */
  lemma {:induction false} DecisionWithoutCohort(q: Request, id: string)
    requires q.cohort == None
    ensures Decide(q, id).Update? <==> exists b :: b in q.candidates && Less(id, b.id) && b.rolloutCohortCount >= 1000
    ensures Decide(q, id).Update? ==>
              var u := Decide(q, id).bundle;
              && u in q.candidates && Less(id, u.id) && u.rolloutCohortCount >= 1000
              && forall b :: b in q.candidates && Less(id, b.id) && b.rolloutCohortCount >= 1000 ==> AtMost(b.id, u.id)
  {
    NewerIsUpdate(q, id);
    assert forall b :: Available(q, b) <==> b in q.candidates && b.rolloutCohortCount >= 1000;
  }

  /** A device on id that should end on goal is stopped by the built-in bundle: it starts on it, or a bundle
      with its id lies on the way down. */
  ghost predicate StoppedByNil(q: Request, id: string, goal: string) {
    && Less(goal, NIL_UUID)
    && (id == NIL_UUID || (Less(NIL_UUID, id) && exists b :: b in q.candidates && b.id == NIL_UUID))
  }

  /** Where every run ends when something is available: on the newest such bundle, unless stopped. */
  lemma {:induction false} RunsEndOnNewest(q: Request, id: string, g: Bundle, k: nat)
    requires q.Distinct() && k > |q.candidates|
    requires Available(q, g) && forall b :: Available(q, b) ==> AtMost(b.id, g.id)
    ensures Run(q, id, k) == if StoppedByNil(q, id, g.id) then NIL_UUID else g.id
    ensures Decide(q, Run(q, id, k)) == NoUpdate
  {
    WhereRunsEnd(q, id, k);
    EveryRunSettles(q, id, k);
    BestIsGreatest(q, Anything);
    OffersMeansEntitled(q, g);
    assert Wants(q, Anything, g);
    var top := Best(q, Anything).value;
    OffersMeansEntitled(q, top);
    assert Available(q, top);
    AtMostBothWays(top.id, g.id);
  }

  /** ... and when nothing is: on the lowest id on the way down, if that is at or below the minimum and the
      built-in bundle is not on the way; otherwise on the built-in bundle. */
  lemma {:induction false} RunsEndBelow(q: Request, id: string, low: string, k: nat)
    requires q.Distinct() && k > |q.candidates| && !exists b :: Available(q, b)
    requires (low == id || exists b :: b in q.candidates && b.id == low)
    requires AtMost(low, id) && forall b :: b in q.candidates ==> AtMost(low, b.id)
    ensures Run(q, id, k) ==
            if AtMost(low, q.minBundleId) && id != NIL_UUID
               && !(Less(NIL_UUID, id) && exists b :: b in q.candidates && b.id == NIL_UUID)
            then low else NIL_UUID
    ensures Decide(q, Run(q, id, k)) == NoUpdate
  {
    WhereRunsEnd(q, id, k);
    EveryRunSettles(q, id, k);
    BestIsGreatest(q, Anything);
    if Best(q, Anything).Some? {
      OffersMeansEntitled(q, Best(q, Anything).value);
      assert Available(q, Best(q, Anything).value);
    }
    LowestIsTheOne(q, id, low);
  }

  lemma LowestIsTheOne(q: Request, id: string, low: string)
    requires (low == id || exists b :: b in q.candidates && b.id == low)
    requires AtMost(low, id) && forall b :: b in q.candidates ==> AtMost(low, b.id)
    ensures Lowest(q, id, |q.candidates|) == low
  {
    var found := Lowest(q, id, |q.candidates|);
    LowestIsLeast(q, id, |q.candidates|);
    assert AtMost(low, found);
    if b :| b in q.candidates && b.id == low {
      var i :| 0 <= i < |q.candidates| && q.candidates[i] == b;
      assert AtMost(found, q.candidates[i].id);
    }
    AtMostBothWays(low, found);
  }

  /** A device without a cohort ends on the newest fully rolled out bundle, if there is one. */
  lemma {:induction false} RunWithoutCohort(q: Request, id: string, g: Bundle, k: nat)
    requires q.Distinct() && q.cohort == None && k > |q.candidates|
    requires g in q.candidates && g.rolloutCohortCount >= 1000
    requires forall b :: b in q.candidates && b.rolloutCohortCount >= 1000 ==> AtMost(b.id, g.id)
    ensures Run(q, id, k) == if StoppedByNil(q, id, g.id) then NIL_UUID else g.id
    ensures Decide(q, Run(q, id, k)) == NoUpdate
  {
    RunsEndOnNewest(q, id, g, k);
  }
}
