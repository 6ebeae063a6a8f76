/** The answer to an update check, and a device that acts on such answers while storage may fail. */
module Response {
  import opened Wrappers
  import opened Text
  import opened Decision
  import opened Convergence
  import opened Artifacts
  import opened Resolution

  // ----- answers -----

  datatype Status = UPDATE | ROLLBACK

  /** A response body. No file URL tells the device to delete every download and reset to its built-in bundle. */
  datatype UpdateInfo = UpdateInfo(
    id: string, status: Status, shouldForceUpdate: bool, fileHash: Option<string>, message: Option<string>,
    fileUrl: Option<string>, artifacts: Option<ManifestArtifacts>)

  /** What a check gets: no news, a response body, or a failed request. */
  type Answer = Result<Option<UpdateInfo>, ()>

  /** The columns of a bundle that the response shows. */
  datatype Details = Details(storageUri: string, shouldForceUpdate: bool, fileHash: string, message: Option<string>)

  /** What the server finds during one check: the columns of each bundle, and what the database and the
      storage answer while the artifacts of a bundle are resolved. */
  datatype Moment = Moment(details: string -> Details, world: string -> World)

  /** Resetting the device to its built-in bundle. */
  const RESET := UpdateInfo(NIL_UUID, ROLLBACK, true, None, None, None, None)

  /** An answer that names bundle b carries its URL, and whatever artifacts the resolution allows; it is
      denied when the URL cannot be signed or the resolution denies it. */
  ghost predicate RightResponse(m: Moment, b: string, status: Status, r: Result<UpdateInfo, ()>) {
    var d, w := m.details(b), m.world(b);
    match r
    case Err(_) => w.presign(d.storageUri).None? || RightAnswer(w, Err(()))
    case Ok(info) =>
      && w.presign(d.storageUri).Some? && RightAnswer(w, Ok(info.artifacts))
      && info == UpdateInfo(b, status, status == ROLLBACK || d.shouldForceUpdate, Some(d.fileHash), d.message,
                            w.presign(d.storageUri), info.artifacts)
  }

  /** One check by a device on bundle id. */
  ghost predicate RightCheck(q: Request, m: Moment, id: string, r: Answer) {
    match Decide(q, id)
    case NoUpdate => r == Ok(None)
    case InitRollback => r == Ok(Some(RESET))
    case Update(b) => Names(m, b.id, UPDATE, r)
    case Rollback(b) => Names(m, b.id, ROLLBACK, r)
  }

  ghost predicate Names(m: Moment, b: string, status: Status, r: Answer) {
    match r
    case Err(e) => RightResponse(m, b, status, Err(e))
    case Ok(info) => info.Some? && RightResponse(m, b, status, Ok(info.value))
  }

  // ----- the program -----

  method MakeResponse(m: Moment, b: string, status: Status, enumeration: Manifest -> seq<string>)
    returns (r: Result<UpdateInfo, ()>)
    requires forall manifest :: Enumerates(enumeration(manifest), manifest)
    ensures RightResponse(m, b, status, r)
  {
    var d, w := m.details(b), m.world(b);
    var fileUrl := w.presign(d.storageUri);
    if fileUrl.None? {
      return Err(());
    }
    var order := if w.targetRead.Parsed? then enumeration(w.targetRead.manifest) else [];
    var artifacts := ResolveManifestArtifacts(w, order);
    if artifacts.Err? {
      return Err(());
    }
    return Ok(UpdateInfo(b, status, status == ROLLBACK || d.shouldForceUpdate, Some(d.fileHash), d.message,
                         fileUrl, artifacts.value));
  }

  method EvaluateUpdate(q: Request, m: Moment, clientBundleId: string, enumeration: Manifest -> seq<string>)
    returns (r: Answer)
    requires forall manifest :: Enumerates(enumeration(manifest), manifest)
    ensures RightCheck(q, m, clientBundleId, r)
  {
    var decision := DecideUpdate(q, clientBundleId);
    var named: Result<UpdateInfo, ()>;
    match decision {
      case Update(b) => named := MakeResponse(m, b.id, UPDATE, enumeration);
      case Rollback(b) => named := MakeResponse(m, b.id, ROLLBACK, enumeration);
      case InitRollback => return Ok(Some(RESET));
      case NoUpdate => return Ok(None);
    }
    return if named.Ok? then Ok(Some(named.value)) else Err(());
  }

  // ----- one answer -----

  /** The null URL is reserved for the reset: it never comes with UPDATE, always with the nil id and nothing else,
      and only when no candidate at all is on offer to the device. Going back is never optional. */
  lemma NullUrlMeansReset(q: Request, m: Moment, id: string, info: UpdateInfo)
    requires q.Distinct() && RightCheck(q, m, id, Ok(Some(info)))
    ensures info.fileUrl.None? <==> info == RESET
    ensures info == RESET <==> Decide(q, id) == InitRollback
    ensures info.status == UPDATE ==> info.fileUrl.Some? && Less(id, info.id)
    ensures info.fileUrl.None? ==> Best(q, Anything) == None
    ensures info.fileUrl.None? ==>
              info.id == NIL_UUID && info.fileHash == None && info.message == None && info.artifacts == None
    ensures info.status == ROLLBACK ==> info.shouldForceUpdate
  {
    if Decide(q, id) == InitRollback {
      ResetIsFinal(q, id);
    } else {
      BestIsGreatest(q, Newer(id));
    }
  }

  /** Any other answer names the bundle decided on and shows its columns: UPDATE is a step up, ROLLBACK a forced
      step down. */
  lemma AnswerShowsDetails(q: Request, m: Moment, id: string, info: UpdateInfo)
    requires RightCheck(q, m, id, Ok(Some(info))) && info.fileUrl.Some?
    ensures RightResponse(m, info.id, info.status, Ok(info))
    ensures exists b :: b in q.candidates && b.id == info.id
    ensures if info.status == UPDATE then Less(id, info.id) else Less(info.id, id)
    ensures var d := m.details(info.id);
            && info.fileHash == Some(d.fileHash) && info.message == d.message
            && info.fileUrl == m.world(info.id).presign(d.storageUri)
            && (info.shouldForceUpdate <==> info.status == ROLLBACK || d.shouldForceUpdate)
  {
    match Decide(q, id)
    case Update(b) =>
      assert RightResponse(m, b.id, info.status, Ok(info));
      BestIsGreatest(q, Newer(id));
    case Rollback(b) =>
      assert RightResponse(m, b.id, info.status, Ok(info));
      BestIsGreatest(q, Older(id));
    case InitRollback =>
    case NoUpdate =>
  }

  /** What the storage must do for a resolution to go through: sign every URI and fail no read. */
  ghost predicate Healthy(w: World) {
    (forall uri :: w.presign(uri).Some?) && w.targetRead != Failed && w.currentRead != Some(Failed)
  }

  lemma HealthyStorageDelivers(w: World)
    requires Healthy(w)
    ensures !RightAnswer(w, Err(()))
  {
    if Artifacts.Given(w.manifestUri) && w.targetRead.Parsed? && Plannable(InputOf(w, w.targetRead.manifest)) {
      var plan := PlanExists(InputOf(w, w.targetRead.manifest));
      assert Answers(w, plan, Err(())) <==> !Deliverable(w, plan);
    }
  }

  /** Healthy storage denies no device. */
  lemma HealthyStorageServes(q: Request, m: Moment, id: string, r: Answer)
    requires RightCheck(q, m, id, r) && forall b :: Healthy(m.world(b))
    ensures r.Ok?
  {
    var v := Decide(q, id);
    if v.Update? || v.Rollback? {
      HealthyStorageDelivers(m.world(v.bundle.id));
    }
  }

  // ----- runs -----

  /** The device's bundle id after it acted on an answer; a failed request changes nothing. */
  function Adopt(id: string, r: Answer): string {
    match r
    case Ok(Some(info)) => info.id
    case _ => id
  }

  function After(id: string, answers: seq<Answer>): string {
    if answers == [] then id else Adopt(After(id, answers[..|answers| - 1]), answers[|answers| - 1])
  }

  /** How many of the requests were answered. */
  function Answered(answers: seq<Answer>): nat {
    if answers == [] then 0
    else Answered(answers[..|answers| - 1]) + if answers[|answers| - 1].Ok? then 1 else 0
  }

  /** Each answer is right for where the device was and for what the server found at that moment; between
      two checks the storage may change in any way. */
  ghost predicate Trace(q: Request, id: string, moments: seq<Moment>, answers: seq<Answer>)
    requires |moments| == |answers|
  {
    forall k :: 0 <= k < |answers| ==> RightCheck(q, moments[k], After(id, answers[..k]), answers[k])
  }

  lemma AnswerFollowsDecision(q: Request, m: Moment, id: string, r: Answer)
    requires RightCheck(q, m, id, r) && r.Ok?
    ensures Adopt(id, r) == Follow(Decide(q, id), id)
  {
  }

  lemma RunUnfolds(q: Request, id: string, k: nat)
    ensures Run(q, id, k + 1) == Run(q, Follow(Decide(q, id), id), k)
  {
  }

  lemma {:induction false} RunOneMore(q: Request, id: string, k: nat)
    ensures Run(q, id, k + 1) == Follow(Decide(q, Run(q, id, k)), Run(q, id, k))
    decreases k
  {
    RunUnfolds(q, id, k);
    if k > 0 {
      RunUnfolds(q, id, k - 1);
      RunOneMore(q, Follow(Decide(q, id), id), k - 1);
    } else {
      assert Run(q, Follow(Decide(q, id), id), 0) == Follow(Decide(q, id), id);
    }
  }

  lemma OneMoreAnswer(q: Request, m: Moment, id: string, k: nat, r: Answer)
    requires RightCheck(q, m, Run(q, id, k), r)
    ensures Adopt(Run(q, id, k), r) == Run(q, id, if r.Ok? then k + 1 else k)
  {
    if r.Ok? {
      AnswerFollowsDecision(q, m, Run(q, id, k), r);
      RunOneMore(q, id, k);
    }
  }

  /** Failures only delay: after any mix of answered and failed checks the device is where the answered
      ones alone would have led it. */
  lemma {:induction false} FailuresOnlyDelay(q: Request, id: string, moments: seq<Moment>, answers: seq<Answer>)
    requires |moments| == |answers| && Trace(q, id, moments, answers)
    ensures After(id, answers) == Run(q, id, Answered(answers))
    decreases answers
  {
    if answers == [] {
      assert Run(q, id, 0) == id;
    } else {
      var n := |answers| - 1;
      TracePrefix(q, id, moments, answers, n);
      FailuresOnlyDelay(q, id, moments[..n], answers[..n]);
      OneMoreAnswer(q, moments[n], id, Answered(answers[..n]), answers[n]);
    }
  }

  lemma TracePrefix(q: Request, id: string, moments: seq<Moment>, answers: seq<Answer>, n: nat)
    requires |moments| == |answers| && n <= |answers| && Trace(q, id, moments, answers)
    ensures Trace(q, id, moments[..n], answers[..n])
  {
    forall k | 0 <= k < n
      ensures answers[..n][..k] == answers[..k] && answers[..n][k] == answers[k] && moments[..n][k] == moments[k]
    {
    }
  }

  /** So convergence survives storage failures: once as many checks were answered as there are candidates
      and one more, the device is at rest where it belongs, whatever failed in between. */
  lemma FlakyRunsSettle(q: Request, id: string, moments: seq<Moment>, answers: seq<Answer>)
    requires q.Distinct() && |moments| == |answers| && Trace(q, id, moments, answers)
    requires Answered(answers) > |q.candidates|
    ensures Settled(q, After(id, answers)) && After(id, answers) == Destination(q, id)
  {
    FailuresOnlyDelay(q, id, moments, answers);
    EveryRunSettles(q, id, Answered(answers));
    WhereRunsEnd(q, id, Answered(answers));
  }

  /** ... and at most one answer of the whole trace is an UPDATE. */
  lemma OneUpdateAtMost(q: Request, id: string, moments: seq<Moment>, answers: seq<Answer>, k: nat)
    requires q.Distinct() && |moments| == |answers| && Trace(q, id, moments, answers)
    requires k < |answers| && Answered(answers[..k]) > 0
    requires answers[k].Ok? && answers[k].value.Some?
    ensures answers[k].value.value.status == ROLLBACK
  {
    TracePrefix(q, id, moments, answers, k);
    FailuresOnlyDelay(q, id, moments[..k], answers[..k]);
    OnlyFirstAnswerUpdates(q, id, Answered(answers[..k]));
  }
}
