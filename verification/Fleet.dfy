/** What a staged rollout does to the whole fleet: how many cohorts come to rest on the newest bundle. */
module Fleet {
  import opened Wrappers
  import opened Text
  import opened Machine
  import opened Eligibility
  import opened Rollout
  import opened Decision
  import opened Convergence
  import Decimal

  ghost predicate IsNewest(q: Request, b: Bundle) {
    b in q.candidates && forall x :: x in q.candidates ==> AtMost(x.id, b.id)
  }

  /** The bundle is the oldest candidate and not above the device's minimum id, so that a device
      already on it is never taken off. */
  ghost predicate IsFloor(q: Request, b: Bundle) {
    AtMost(b.id, q.minBundleId) && Best(q, Older(b.id)) == None
  }

  /** A fresh device is caught on the built-in bundle when the newest bundle is older than that. */
  predicate Caught(b: Bundle, id: string) {
    Less(b.id, NIL_UUID) && id == NIL_UUID
  }

  /** A device that b is not offered to is held by b: by the floor, when it started at or above it. A bundle
      that carries the built-in id itself also holds every device that goes down to it or is reset to it. */
  ghost predicate Held(q: Request, b: Bundle, id: string) {
    if b.id == NIL_UUID then
      AtMost(NIL_UUID, id)
      || (Best(q, Anything) == None && !AtMost(Lowest(q, id, |q.candidates|), q.minBundleId))
    else IsFloor(q, b) && AtMost(b.id, id) && !Caught(b, id)
  }

  ghost predicate Rests(q: Request, b: Bundle, id: string) {
    (q.Offers(b) && !Caught(b, id)) || Held(q, b, id)
  }

  /** Exactly when a device that keeps checking comes to rest on the newest bundle. */
  lemma SettlesOnNewest(q: Request, b: Bundle, id: string, k: nat)
    requires q.Distinct() && IsNewest(q, b) && k >= Patience(q, id)
    ensures Run(q, id, k) == b.id <==> Rests(q, b, id)
  {
    WhereRunsEnd(q, id, k);
    if q.Offers(b) {
      OfferedNewestIsTheEnd(q, b, id);
      OfferedNewestRests(q, b, id);
    } else if Best(q, Anything).Some? {
      BelowUnofferedNewest(q, b, id);
    } else {
      NothingOnOffer(q, b, id);
    }
  }

  /** Only the newest bundle itself, or none, has the built-in id or a greater one. */
  lemma NilAmongCandidates(q: Request, b: Bundle)
    requires IsNewest(q, b)
    ensures Less(b.id, NIL_UUID) ==> !q.Has(NIL_UUID)
    ensures b.id == NIL_UUID ==> q.Has(NIL_UUID)
  {
    if Less(b.id, NIL_UUID) {
      NotBothWays(b.id, NIL_UUID);
    }
  }

  lemma OfferedNewestIsTheEnd(q: Request, b: Bundle, id: string)
    requires q.Distinct() && IsNewest(q, b) && q.Offers(b)
    ensures Destination(q, id) == if Caught(b, id) then NIL_UUID else b.id
  {
    BestIsGreatest(q, Anything);
    AtMostBothWays(Best(q, Anything).value.id, b.id);
    NilAmongCandidates(q, b);
  }

  lemma OfferedNewestRests(q: Request, b: Bundle, id: string)
    requires q.Distinct() && IsNewest(q, b) && q.Offers(b)
    ensures Rests(q, b, id) <==> !Caught(b, id)
  {
    LessIsIrreflexive(NIL_UUID);
  }

  /** With an older bundle on offer but not the newest one, the newest holds devices only if it has the
      built-in id. */
  lemma BelowUnofferedNewest(q: Request, b: Bundle, id: string)
    requires q.Distinct() && IsNewest(q, b) && !q.Offers(b) && Best(q, Anything).Some?
    ensures Destination(q, id) == b.id <==> Rests(q, b, id)
  {
    var g := Best(q, Anything).value;
    BestIsGreatest(q, Anything);
    BestIsGreatest(q, Older(b.id));
    if g.id == b.id {
      SameIdSameBundle(q, b, g);
    }
    assert Wants(q, Older(b.id), g);
    NilAmongCandidates(q, b);
  }

  lemma SameIdSameBundle(q: Request, x: Bundle, y: Bundle)
    requires q.Distinct() && x in q.candidates && y in q.candidates && x.id == y.id
    ensures x == y
  {
    var i :| 0 <= i < |q.candidates| && q.candidates[i] == x;
    var j :| 0 <= j < |q.candidates| && q.candidates[j] == y;
  }

  /** With nothing on offer the newest bundle holds devices only if it is the floor or has the built-in id. */
  lemma NothingOnOffer(q: Request, b: Bundle, id: string)
    requires q.Distinct() && IsNewest(q, b) && Best(q, Anything) == None
    ensures Destination(q, id) == b.id <==> Rests(q, b, id)
  {
    BestIsGreatest(q, Anything);
    NilAmongCandidates(q, b);
    LowestIsNewest(q, b, id);
    if b.id == NIL_UUID {
      LowestIsLeast(q, id, |q.candidates|);
      if Less(id, NIL_UUID) {
        LessIsIrreflexive(NIL_UUID);
        if Lowest(q, id, |q.candidates|) == NIL_UUID {
          NotBothWays(id, NIL_UUID);
        }
      }
      LessIsTotal(id, NIL_UUID);
    } else if Best(q, Older(b.id)) == None {
      OnlyOneCandidate(q, b);
    }
  }

  lemma OnlyOneCandidate(q: Request, b: Bundle)
    requires IsNewest(q, b) && Best(q, Older(b.id)) == None
    ensures forall x :: x in q.candidates ==> x.id == b.id
  {
    BestIsGreatest(q, Older(b.id));
    forall x | x in q.candidates
      ensures x.id == b.id
    {
      assert !Wants(q, Older(b.id), x);
    }
  }

  /** The way down from id reaches the newest bundle and goes no further exactly when that is the only
      candidate and id is not below it. */
  lemma LowestIsNewest(q: Request, b: Bundle, id: string)
    requires q.Distinct() && IsNewest(q, b)
    ensures Lowest(q, id, |q.candidates|) == b.id <==> Best(q, Older(b.id)) == None && AtMost(b.id, id)
  {
    var low := Lowest(q, id, |q.candidates|);
    LowestIsLeast(q, id, |q.candidates|);
    BestIsGreatest(q, Older(b.id));
    var j :| 0 <= j < |q.candidates| && q.candidates[j] == b;
    if low == b.id {
      forall x | x in q.candidates
        ensures !Less(x.id, b.id)
      {
        var i :| 0 <= i < |q.candidates| && q.candidates[i] == x;
        if Less(x.id, b.id) {
          NotBothWays(x.id, b.id);
        }
      }
    }
    if Best(q, Older(b.id)) == None && AtMost(b.id, id) {
      if low != id {
        var i :| 0 <= i < |q.candidates| && q.candidates[i].id == low;
        assert !Wants(q, Older(b.id), q.candidates[i]);
      }
      AtMostBothWays(low, b.id);
    }
  }

  /** One check more than there are candidates is enough to end on an offered newest bundle and to stay; only a
      fresh device above it never leaves the built-in bundle. */
  lemma OfferedNewestHolds(q: Request, b: Bundle, id: string, k: nat)
    requires q.Distinct() && IsNewest(q, b) && q.Offers(b) && k > |q.candidates|
    ensures Run(q, id, k) == (if Caught(b, id) then NIL_UUID else b.id) && Settled(q, Run(q, id, k))
  {
    WhereRunsEnd(q, id, k);
    OfferedNewestIsTheEnd(q, b, id);
    EveryRunSettles(q, id, k);
  }

  // ----- counting cohorts -----

  /** The same check as sent by a device of numeric cohort c. */
  function ForCohort(q: Request, c: int): Request {
    q.(cohort := if c >= 0 then Some(Decimal.Print(c)) else None)
  }

  /** The cohorts whose device, starting on start(c), comes to rest on b. */
  ghost function RestingOn(q: Request, b: Bundle, start: int -> string): set<int> {
    set c | 1 <= c <= 1000 && Run(ForCohort(q, c), start(c), |q.candidates| + 1) == b.id
  }

  lemma OlderIgnoresCohort(q: Request, id: string, c: int)
    ensures Best(ForCohort(q, c), Older(id)) == None <==> Best(q, Older(id)) == None
  {
    BestIsGreatest(q, Older(id));
    BestIsGreatest(ForCohort(q, c), Older(id));
    assert forall b :: Wants(q, Older(id), b) <==> Wants(ForCohort(q, c), Older(id), b);
  }

  /** An untargeted bundle is offered to cohort c exactly when the rollout has reached the cohort. */
  lemma OfferedToCohort(q: Request, b: Bundle, c: int)
    requires IsCohort(c) && b.targetCohorts == None
    ensures ForCohort(q, c).Offers(b) <==> c in AdmittedBy(b)
  {
    NumeralIsItsOwnNormalForm(c);
    EligibilityOfNumericCohort(b.id, Decimal.Print(c), c, b.rolloutCohortCount);
  }

  /** The cohorts the rollout of b has reached. */
  ghost function AdmittedBy(b: Bundle): set<int> {
    Admitted(b.id, NormalizeRolloutCount(Some(b.rolloutCohortCount)))
  }

  /** The cohorts the rollout has reached whose device is caught on the built-in bundle. */
  ghost function CaughtCohorts(b: Bundle, start: int -> string): set<int> {
    set c | c in AdmittedBy(b) && Caught(b, start(c))
  }

  /** The cohorts the rollout has not reached whose device b holds all the same. */
  ghost function HeldCohorts(q: Request, b: Bundle, start: int -> string): set<int> {
    set c | 1 <= c <= 1000 && c !in AdmittedBy(b) && Held(ForCohort(q, c), b, start(c))
  }

  lemma RestingMeansRests(q: Request, b: Bundle, start: int -> string, c: int)
    requires q.Distinct() && IsNewest(q, b) && IsCohort(c)
    ensures c in RestingOn(q, b, start) <==> Rests(ForCohort(q, c), b, start(c))
  {
    SettlesOnNewest(ForCohort(q, c), b, start(c), |q.candidates| + 1);
  }

  lemma RestsByAdmission(q: Request, b: Bundle, id: string, c: int)
    requires IsCohort(c) && b.targetCohorts == None
    ensures Rests(ForCohort(q, c), b, id) <==> (c in AdmittedBy(b) && !Caught(b, id)) || Held(ForCohort(q, c), b, id)
  {
    OfferedToCohort(q, b, c);
  }

  /** Exactly who rests on an untargeted newest bundle, from any starting bundles. */
  lemma WhoRestsOnNewest(q: Request, b: Bundle, start: int -> string, c: int)
    requires q.Distinct() && IsNewest(q, b) && b.targetCohorts == None && IsCohort(c)
    ensures c in RestingOn(q, b, start) <==>
              (c in AdmittedBy(b) && !Caught(b, start(c))) || Held(ForCohort(q, c), b, start(c))
  {
    RestingMeansRests(q, b, start, c);
    RestsByAdmission(q, b, start(c), c);
  }

  /** Fleet share: the number of cohorts that come to rest on an untargeted newest bundle is its rollout, plus
      the cohorts it holds beyond that, minus those that are caught on the built-in bundle. */
  lemma FleetShare(q: Request, b: Bundle, start: int -> string)
    requires q.Distinct() && IsNewest(q, b) && b.targetCohorts == None
    ensures |RestingOn(q, b, start)| ==
            NormalizeRolloutCount(Some(b.rolloutCohortCount)) + |HeldCohorts(q, b, start)| - |CaughtCohorts(b, start)|
  {
    var admitted, held, caught := AdmittedBy(b), HeldCohorts(q, b, start), CaughtCohorts(b, start);
    RestingIsSum(q, b, start);
    ExactShare(b.id, NormalizeRolloutCount(Some(b.rolloutCohortCount)));
    assert |admitted - caught| == |admitted| - |caught| by {
      assert admitted == admitted - caught + caught;
    }
    assert (admitted - caught) !! held;
  }

  lemma RestingIsSum(q: Request, b: Bundle, start: int -> string)
    requires q.Distinct() && IsNewest(q, b) && b.targetCohorts == None
    ensures RestingOn(q, b, start) == AdmittedBy(b) - CaughtCohorts(b, start) + HeldCohorts(q, b, start)
  {
    forall c | 1 <= c <= 1000
      ensures c in RestingOn(q, b, start) <==> c in AdmittedBy(b) - CaughtCohorts(b, start) + HeldCohorts(q, b, start)
    {
      WhoRestsOnNewest(q, b, start, c);
      HeldIsNotCaught(ForCohort(q, c), b, start(c));
    }
  }

  lemma HeldIsNotCaught(q: Request, b: Bundle, id: string)
    ensures !(Held(q, b, id) && Caught(b, id))
  {
    LessIsIrreflexive(NIL_UUID);
  }

  /** No cohort outside the rollout is held by the floor. */
  ghost predicate FloorHoldsNoOther(q: Request, b: Bundle, start: int -> string) {
    IsFloor(q, b) ==> forall c :: IsCohort(c) && AtMost(b.id, start(c)) ==> c in AdmittedBy(b)
  }

  lemma HeldAboveNil(q: Request, b: Bundle, id: string, c: int)
    requires Less(NIL_UUID, b.id)
    ensures !Caught(b, id)
    ensures Held(ForCohort(q, c), b, id) <==> IsFloor(q, b) && AtMost(b.id, id)
  {
    NotBothWays(NIL_UUID, b.id);
    LessIsIrreflexive(NIL_UUID);
    OlderIgnoresCohort(q, b.id, c);
  }

  lemma HeldCohortsAboveNil(q: Request, b: Bundle, start: int -> string)
    requires Less(NIL_UUID, b.id)
    ensures CaughtCohorts(b, start) == {}
    ensures HeldCohorts(q, b, start) == {} <==> FloorHoldsNoOther(q, b, start)
  {
    forall c: int
      ensures !Caught(b, start(c)) && (Held(ForCohort(q, c), b, start(c)) <==> IsFloor(q, b) && AtMost(b.id, start(c)))
    {
      HeldAboveNil(q, b, start(c), c);
    }
    forall c | c in AdmittedBy(b)
      ensures c !in CaughtCohorts(b, start)
    {
      assert !Caught(b, start(c));
    }
    if HeldCohorts(q, b, start) == {} && IsFloor(q, b) {
      forall c | IsCohort(c) && AtMost(b.id, start(c))
        ensures c in AdmittedBy(b)
      {
        assert c !in HeldCohorts(q, b, start);
      }
    }
  }

  /** For a bundle newer than the built-in one none is caught: at least n cohorts rest on it, and exactly n
      exactly when it is not the floor or no cohort outside the rollout starts on it or above it. */
  lemma FleetShareAboveNil(q: Request, b: Bundle, start: int -> string)
    requires q.Distinct() && IsNewest(q, b) && b.targetCohorts == None && Less(NIL_UUID, b.id)
    ensures |RestingOn(q, b, start)| >= NormalizeRolloutCount(Some(b.rolloutCohortCount))
    ensures |RestingOn(q, b, start)| == NormalizeRolloutCount(Some(b.rolloutCohortCount))
            <==> FloorHoldsNoOther(q, b, start)
  {
    FleetShare(q, b, start);
    HeldCohortsAboveNil(q, b, start);
  }

  /** The share can be larger: on a floor bundle every device that is on it stays, however small the rollout. */
  lemma FloorKeepsEveryone(q: Request, b: Bundle)
    requires q.candidates == [b] && b.targetCohorts == None && b.rolloutCohortCount == 0 && q.minBundleId == b.id
    ensures |RestingOn(q, b, (c: int) => b.id)| == 1000
  {
    var start := (c: int) => b.id;
    BestIsGreatest(q, Older(b.id));
    LessIsIrreflexive(b.id);
    forall c | 1 <= c <= 1000
      ensures c in RestingOn(q, b, start) <==> c in Admitted(b.id, 1000)
    {
      WhoRestsOnNewest(q, b, start, c);
      OlderIgnoresCohort(q, b.id, c);
    }
    assert RestingOn(q, b, start) == Admitted(b.id, 1000);
    ExactShare(b.id, 1000);
  }

  /** ... and smaller: no fresh device rests on a bundle older than the built-in one, however large the rollout. */
  lemma NilKeepsEveryone(q: Request, b: Bundle)
    requires q.Distinct() && IsNewest(q, b) && b.targetCohorts == None && Less(b.id, NIL_UUID)
    ensures |RestingOn(q, b, (c: int) => NIL_UUID)| == 0
  {
    var start := (c: int) => NIL_UUID;
    LessIsIrreflexive(NIL_UUID);
    forall c | 1 <= c <= 1000
      ensures c !in RestingOn(q, b, start)
    {
      WhoRestsOnNewest(q, b, start, c);
    }
    assert RestingOn(q, b, start) == {};
  }

  // ----- raising the rollout -----

  /** The same check after the operator set the rollout of candidate i to count. */
  function WithRollout(q: Request, i: nat, count: i32): Request
    requires i < |q.candidates|
  {
    q.(candidates := q.candidates[i := q.candidates[i].(rolloutCohortCount := count)])
  }

  /** Raising the rollout only adds resting cohorts, whatever the target cohorts. */
  lemma RaisingOnlyAdds(q: Request, i: nat, count: i32, start: int -> string)
    requires q.Distinct() && i < |q.candidates| && IsNewest(q, q.candidates[i])
    requires q.candidates[i].rolloutCohortCount <= count
    ensures RestingOn(q, q.candidates[i], start)
            <= RestingOn(WithRollout(q, i, count), WithRollout(q, i, count).candidates[i], start)
  {
    forall c | c in RestingOn(q, q.candidates[i], start)
      ensures c in RestingOn(WithRollout(q, i, count), WithRollout(q, i, count).candidates[i], start)
    {
      RaisingKeepsCohort(q, i, count, start, c);
    }
  }

  lemma RaisingKeepsCohort(q: Request, i: nat, count: i32, start: int -> string, c: int)
    requires q.Distinct() && i < |q.candidates| && IsNewest(q, q.candidates[i])
    requires q.candidates[i].rolloutCohortCount <= count && IsCohort(c)
    ensures c in RestingOn(q, q.candidates[i], start) ==>
              c in RestingOn(WithRollout(q, i, count), WithRollout(q, i, count).candidates[i], start)
  {
    NewestStaysNewest(q, i, count);
    RestingMeansRests(q, q.candidates[i], start, c);
    RestingMeansRests(WithRollout(q, i, count), WithRollout(q, i, count).candidates[i], start, c);
    if Rests(ForCohort(q, c), q.candidates[i], start(c)) {
      RaisingKeepsResting(ForCohort(q, c), i, count, start(c));
      assert ForCohort(WithRollout(q, i, count), c) == WithRollout(ForCohort(q, c), i, count);
    }
  }

  lemma RaisingKeepsResting(q: Request, i: nat, count: i32, id: string)
    requires q.Distinct() && i < |q.candidates| && IsNewest(q, q.candidates[i])
    requires q.candidates[i].rolloutCohortCount <= count && Rests(q, q.candidates[i], id)
    ensures Rests(WithRollout(q, i, count), WithRollout(q, i, count).candidates[i], id)
  {
    var q', b := WithRollout(q, i, count), q.candidates[i];
    HeldIsNotCaught(q, b, id);
    OldestStaysOldest(q, i, count);
    LowestStaysLowest(q, i, count, id, |q.candidates|);
    if q.Offers(b) {
      RaisingRolloutAdds(b.id, q.cohort, b.rolloutCohortCount, count, b.targetCohorts);
    } else if Best(q, Anything) == None && !q'.Offers(q'.candidates[i]) {
      StillNothingOnOffer(q, i, count);
    }
  }

  lemma StillNothingOnOffer(q: Request, i: nat, count: i32)
    requires i < |q.candidates| && Best(q, Anything) == None
    requires !WithRollout(q, i, count).Offers(WithRollout(q, i, count).candidates[i])
    ensures Best(WithRollout(q, i, count), Anything) == None
  {
    var q' := WithRollout(q, i, count);
    BestIsGreatest(q, Anything);
    BestIsGreatest(q', Anything);
    forall x | x in q'.candidates
      ensures !Wants(q', Anything, x)
    {
      var k :| 0 <= k < |q'.candidates| && q'.candidates[k] == x;
      assert k != i ==> !Wants(q, Anything, q.candidates[k]);
    }
  }

  lemma {:induction false} LowestStaysLowest(q: Request, i: nat, count: i32, id: string, n: nat)
    requires i < |q.candidates| && n <= |q.candidates|
    ensures Lowest(WithRollout(q, i, count), id, n) == Lowest(q, id, n)
  {
    if n > 0 {
      LowestStaysLowest(q, i, count, id, n - 1);
    }
  }

  lemma NewestStaysNewest(q: Request, i: nat, count: i32)
    requires q.Distinct() && i < |q.candidates| && IsNewest(q, q.candidates[i])
    ensures WithRollout(q, i, count).Distinct()
    ensures IsNewest(WithRollout(q, i, count), WithRollout(q, i, count).candidates[i])
  {
    var q' := WithRollout(q, i, count);
    forall x | x in q'.candidates
      ensures AtMost(x.id, q.candidates[i].id)
    {
      var k :| 0 <= k < |q'.candidates| && q'.candidates[k] == x;
      assert q.candidates[k] in q.candidates;
    }
  }

  lemma OldestStaysOldest(q: Request, i: nat, count: i32)
    requires i < |q.candidates|
    ensures Best(WithRollout(q, i, count), Older(q.candidates[i].id)) == None <==> Best(q, Older(q.candidates[i].id)) == None
  {
    var q', w := WithRollout(q, i, count), Older(q.candidates[i].id);
    BestIsGreatest(q, w);
    BestIsGreatest(q', w);
    assert forall k :: 0 <= k < |q.candidates| ==> (Wants(q, w, q.candidates[k]) <==> Wants(q', w, q'.candidates[k]));
    if Best(q, w).Some? {
      var k :| 0 <= k < |q.candidates| && q.candidates[k] == Best(q, w).value;
      assert Wants(q', w, q'.candidates[k]);
    }
    if Best(q', w).Some? {
      var k :| 0 <= k < |q.candidates| && q'.candidates[k] == Best(q', w).value;
      assert Wants(q, w, q.candidates[k]);
    }
  }

  /** Raising the rollout never moves a device off the newest bundle, whatever its cohort and targets. */
  lemma RaisingNeverEvicts(q: Request, i: nat, count: i32)
    requires q.Distinct() && i < |q.candidates| && IsNewest(q, q.candidates[i])
    requires q.candidates[i].rolloutCohortCount <= count
    requires Settled(q, q.candidates[i].id)
    ensures Settled(WithRollout(q, i, count), q.candidates[i].id)
  {
    var q', b := WithRollout(q, i, count), q.candidates[i];
    NewestStaysNewest(q, i, count);
    OldestStaysOldest(q, i, count);
    CurrentIsTheCandidate(q, b, 0, i);
    CurrentIsTheCandidate(q', q'.candidates[i], 0, i);
    BestIsGreatest(q', Newer(b.id));
    forall x | x in q'.candidates
      ensures !Less(b.id, x.id)
    {
      if Less(b.id, x.id) {
        NotBothWays(b.id, x.id);
      }
    }
    if q.Offers(b) {
      RaisingRolloutAdds(b.id, q.cohort, b.rolloutCohortCount, count, b.targetCohorts);
    }
  }
}
