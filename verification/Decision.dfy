/** The update decision for one device, and what happens when the device keeps asking. */
module Decision {
  import opened Wrappers
  import opened Text
  import opened Machine
  import opened Eligibility

  const NIL_UUID: string := "00000000-0000-0000-0000-000000000000"

  /** A published bundle, as far as the decision reads it. */
  datatype Bundle = Bundle(id: string, rolloutCohortCount: i32, targetCohorts: Option<seq<string>>)

  datatype Verdict = Update(bundle: Bundle) | Rollback(bundle: Bundle) | InitRollback | NoUpdate

  /** What one check request carries besides the device's current bundle id. */
  datatype Request = Request(candidates: seq<Bundle>, cohort: Option<string>, minBundleId: string) {
    ghost predicate Offers(b: Bundle) {
      IsEligible(b.id, cohort, Some(b.rolloutCohortCount), b.targetCohorts)
    }

    /** The candidates come from one app's table, whose key is the bundle id. */
    ghost predicate Distinct() {
      forall i, j :: 0 <= i < j < |candidates| ==> candidates[i].id != candidates[j].id
    }

    ghost predicate Has(id: string) {
      exists b :: b in candidates && b.id == id
    }
  }

  // ----- specification of one decision -----

  /** Which candidates a scan is looking for. */
  datatype Wanted = Newer(id: string) | Older(id: string) | Anything

  ghost predicate Wants(q: Request, w: Wanted, b: Bundle) {
    match w
    case Newer(id) => Less(id, b.id) && q.Offers(b)
    case Older(id) => Less(b.id, id)
    case Anything => q.Offers(b)
  }

  /** The candidate with the greatest id among the first n that pass the test. */
  ghost function Greatest(candidates: seq<Bundle>, test: Bundle -> bool, n: nat): Option<Bundle>
    requires n <= |candidates|
  {
    if n == 0 then None
    else
      var best, b := Greatest(candidates, test, n - 1), candidates[n - 1];
      if test(b) && (best.None? || Less(best.value.id, b.id)) then Some(b) else best
  }

  ghost predicate IsGreatest(candidates: seq<Bundle>, test: Bundle -> bool, n: nat, best: Option<Bundle>)
    requires n <= |candidates|
  {
    match best
    case None => forall i :: 0 <= i < n ==> !test(candidates[i])
    case Some(g) =>
      && (exists i :: 0 <= i < n && candidates[i] == g)
      && test(g)
      && forall i :: 0 <= i < n && test(candidates[i]) ==> AtMost(candidates[i].id, g.id)
  }

  lemma {:induction false} GreatestIsGreatest(candidates: seq<Bundle>, test: Bundle -> bool, n: nat)
    requires n <= |candidates|
    ensures IsGreatest(candidates, test, n, Greatest(candidates, test, n))
  {
    if n > 0 {
      GreatestIsGreatest(candidates, test, n - 1);
      var best, b := Greatest(candidates, test, n - 1), candidates[n - 1];
      if best.Some? {
        LessIsTotal(best.value.id, b.id);
        forall i | 0 <= i < n - 1 && Less(candidates[i].id, best.value.id) && Less(best.value.id, b.id)
          ensures Less(candidates[i].id, b.id)
        {
          LessIsTransitive(candidates[i].id, best.value.id, b.id);
        }
      }
    }
  }

  ghost function Test(q: Request, w: Wanted): Bundle -> bool {
    b => Wants(q, w, b)
  }

  ghost function Best(q: Request, w: Wanted): Option<Bundle> {
    Greatest(q.candidates, Test(q, w), |q.candidates|)
  }

  /** One turn of a scan. */
  lemma ScanStep(q: Request, w: Wanted, i: nat, best: Option<Bundle>)
    requires i < |q.candidates| && best == Greatest(q.candidates, Test(q, w), i)
    ensures Greatest(q.candidates, Test(q, w), i + 1) ==
            var b := q.candidates[i];
            if Wants(q, w, b) && (best.None? || Less(best.value.id, b.id)) then Some(b) else best
  {
  }

  /** The scan's result as the caller sees it. */
  lemma BestIsGreatest(q: Request, w: Wanted)
    ensures match Best(q, w)
            case None => forall b :: b in q.candidates ==> !Wants(q, w, b)
            case Some(g) =>
              && g in q.candidates && Wants(q, w, g)
              && forall b :: b in q.candidates && Wants(q, w, b) ==> AtMost(b.id, g.id)
  {
    var best := Best(q, w);
    GreatestIsGreatest(q.candidates, Test(q, w), |q.candidates|);
    forall b | b in q.candidates
      ensures Wants(q, w, b) ==> best.Some? && AtMost(b.id, best.value.id)
    {
      var i :| 0 <= i < |q.candidates| && q.candidates[i] == b;
      assert Test(q, w)(q.candidates[i]) == Wants(q, w, b);
    }
  }

  /** The first candidate carrying the id. */
  ghost function Current(q: Request, id: string, n: nat): Option<Bundle>
    requires n <= |q.candidates|
    decreases |q.candidates| - n
  {
    if n == |q.candidates| then None
    else if q.candidates[n].id == id then Some(q.candidates[n])
    else Current(q, id, n + 1)
  }

  lemma {:induction false} CurrentIsTheCandidate(q: Request, b: Bundle, n: nat, k: nat)
    requires q.Distinct() && n <= k < |q.candidates| && q.candidates[k] == b
    ensures Current(q, b.id, n) == Some(b)
    decreases k - n
  {
    if n < k {
      CurrentIsTheCandidate(q, b, n + 1, k);
    }
  }

  lemma {:induction false} CurrentIsSound(q: Request, id: string, n: nat)
    requires n <= |q.candidates|
    ensures match Current(q, id, n)
            case Some(b) => b in q.candidates && b.id == id
            case None => forall i :: n <= i < |q.candidates| ==> q.candidates[i].id != id
    decreases |q.candidates| - n
  {
    if n < |q.candidates| && q.candidates[n].id != id {
      CurrentIsSound(q, id, n + 1);
    }
  }

  ghost predicate CurrentIsOffered(q: Request, id: string) {
    var c := Current(q, id, 0);
    c.Some? && q.Offers(c.value)
  }

  ghost function Decide(q: Request, id: string): Verdict {
    var newer, older := Best(q, Newer(id)), Best(q, Older(id));
    if newer.Some? then Update(newer.value)
    else if id == NIL_UUID || CurrentIsOffered(q, id) then NoUpdate
    else if older.Some? then Rollback(older.value)
    else if AtMost(id, q.minBundleId) then NoUpdate
    else InitRollback
  }

  // ----- the program -----

  method FindCurrent(q: Request, id: string) returns (c: Option<Bundle>)
    ensures c == Current(q, id, 0)
  {
    for i := 0 to |q.candidates|
      invariant Current(q, id, i) == Current(q, id, 0)
    {
      if q.candidates[i].id == id {
        return Some(q.candidates[i]);
      }
    }
    return None;
  }

  method DecideUpdate(q: Request, clientBundleId: string) returns (d: Verdict)
    ensures d == Decide(q, clientBundleId)
  {
    var current := FindCurrent(q, clientBundleId);
    var isCurrentEligible := false;
    if current.Some? {
      isCurrentEligible := IsCohortEligibleForUpdate(
        current.value.id, q.cohort, Some(current.value.rolloutCohortCount), current.value.targetCohorts);
    }

    var updateCandidate: Option<Bundle> := None;
    for i := 0 to |q.candidates|
      invariant updateCandidate == Greatest(q.candidates, Test(q, Newer(clientBundleId)), i)
    {
      var b := q.candidates[i];
      ScanStep(q, Newer(clientBundleId), i, updateCandidate);
      if Less(clientBundleId, b.id) && (updateCandidate.None? || Less(updateCandidate.value.id, b.id)) {
        var eligible := IsCohortEligibleForUpdate(b.id, q.cohort, Some(b.rolloutCohortCount), b.targetCohorts);
        if eligible {
          updateCandidate := Some(b);
        }
      }
    }

    var rollbackCandidate: Option<Bundle> := None;
    for i := 0 to |q.candidates|
      invariant rollbackCandidate == Greatest(q.candidates, Test(q, Older(clientBundleId)), i)
    {
      var b := q.candidates[i];
      ScanStep(q, Older(clientBundleId), i, rollbackCandidate);
      if Less(b.id, clientBundleId) && (rollbackCandidate.None? || Less(rollbackCandidate.value.id, b.id)) {
        rollbackCandidate := Some(b);
      }
    }

    if clientBundleId == NIL_UUID {
      return if updateCandidate.Some? then Update(updateCandidate.value) else NoUpdate;
    }
    if isCurrentEligible {
      return if updateCandidate.Some? then Update(updateCandidate.value) else NoUpdate;
    }
    if updateCandidate.Some? {
      return Update(updateCandidate.value);
    } else if rollbackCandidate.Some? {
      return Rollback(rollbackCandidate.value);
    } else if AtMost(clientBundleId, q.minBundleId) {
      return NoUpdate;
    } else {
      return InitRollback;
    }
  }
}
