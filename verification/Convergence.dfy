/** A device that keeps checking: its bundle id becomes whatever the last answer named. */
module Convergence {
  import opened Wrappers
  import opened Text
  import opened Decision

  /** The device's bundle id once it has followed a verdict. */
  function Follow(v: Verdict, id: string): string {
    match v
    case Update(b) => b.id
    case Rollback(b) => b.id
    case InitRollback => NIL_UUID
    case NoUpdate => id
  }

  /** The device's bundle id after k checks. */
  ghost function Run(q: Request, id: string, k: nat): string
    decreases k
  {
    if k == 0 then id else Run(q, Follow(Decide(q, id), id), k - 1)
  }

  ghost predicate Settled(q: Request, id: string) {
    Decide(q, id) == NoUpdate
  }

  /** Nothing newer is on offer. */
  ghost predicate Calm(q: Request, id: string) {
    Best(q, Newer(id)) == None
  }

  // ----- one step -----

  /** A device that took an update finds nothing more to do. */
  lemma UpdateSettles(q: Request, id: string)
    requires q.Distinct() && Decide(q, id).Update?
    ensures Settled(q, Decide(q, id).bundle.id)
  {
    var u := Decide(q, id).bundle;
    BestIsGreatest(q, Newer(id));
    BestIsGreatest(q, Newer(u.id));
    var k :| 0 <= k < |q.candidates| && q.candidates[k] == u;
    CurrentIsTheCandidate(q, u, 0, k);
    forall b | b in q.candidates && Less(u.id, b.id) && q.Offers(b)
      ensures false
    {
      LessIsTransitive(id, u.id, b.id);
      assert Wants(q, Newer(id), b);
      NotBothWays(u.id, b.id);
    }
  }

  lemma {:induction false} NotBothWays(a: string, b: string)
    requires Less(a, b)
    ensures !AtMost(b, a)
  {
    LessIsIrreflexive(a);
    if Less(b, a) {
      LessIsTransitive(a, b, a);
    }
  }

  /** A rollback goes to the next older candidate, and leaves nothing newer on offer. */
  lemma {:induction false} RollbackDescends(q: Request, id: string)
    requires q.Distinct() && Decide(q, id).Rollback?
    ensures var r := Decide(q, id).bundle;
            && Less(r.id, id) && r in q.candidates && Calm(q, r.id)
            && forall b :: b in q.candidates && Less(b.id, id) ==> AtMost(b.id, r.id)
  {
    var r := Decide(q, id).bundle;
    BestIsGreatest(q, Older(id));
    BestIsGreatest(q, Newer(id));
    BestIsGreatest(q, Newer(r.id));
    forall b | b in q.candidates && Less(b.id, id)
      ensures AtMost(b.id, r.id)
    {
      assert Wants(q, Older(id), b);
    }
    forall b | b in q.candidates && Wants(q, Newer(r.id), b)
      ensures false
    {
      assert !Wants(q, Newer(id), b);
      LessIsTotal(b.id, id);
      if Less(b.id, id) {
        NotBothWays(r.id, b.id);
      } else {
        var k :| 0 <= k < |q.candidates| && q.candidates[k] == b;
        CurrentIsTheCandidate(q, b, 0, k);
      }
    }
  }

  /** A reset to the built-in bundle happens only when nothing at all is on offer, and is final. */
  lemma ResetIsFinal(q: Request, id: string)
    requires q.Distinct() && Decide(q, id) == InitRollback
    ensures Best(q, Anything) == None && Settled(q, NIL_UUID)
  {
    BestIsGreatest(q, Newer(id));
    BestIsGreatest(q, Older(id));
    BestIsGreatest(q, Anything);
    BestIsGreatest(q, Newer(NIL_UUID));
    forall b | b in q.candidates && q.Offers(b)
      ensures false
    {
      assert !Wants(q, Newer(id), b) && !Wants(q, Older(id), b);
      LessIsTotal(b.id, id);
      var k :| 0 <= k < |q.candidates| && q.candidates[k] == b;
      CurrentIsTheCandidate(q, b, 0, k);
    }
  }

  /** Whatever the answer was, following it leaves nothing newer on offer. */
  lemma StepCalms(q: Request, id: string)
    requires q.Distinct()
    ensures Calm(q, Follow(Decide(q, id), id))
  {
    match Decide(q, id)
    case Update(b) => UpdateSettles(q, id);
    case Rollback(b) => RollbackDescends(q, id);
    case InitRollback => ResetIsFinal(q, id);
    case NoUpdate =>
  }

  // ----- whole runs -----

  lemma {:induction false} SettledStays(q: Request, id: string, k: nat)
    requires Settled(q, id)
    ensures Run(q, id, k) == id
  {
    if k > 0 {
      SettledStays(q, id, k - 1);
    }
  }

  /** No oscillation: only the first answer of a run can be UPDATE. */
  lemma {:induction false} OnlyFirstAnswerUpdates(q: Request, id: string, k: nat)
    requires q.Distinct() && k > 0
    ensures !Decide(q, Run(q, id, k)).Update?
    decreases k
  {
    var next := Follow(Decide(q, id), id);
    if k == 1 {
      StepCalms(q, id);
      assert Run(q, next, 0) == next;
    } else {
      OnlyFirstAnswerUpdates(q, next, k - 1);
    }
  }

  /** How many of the first n candidates are older than id. */
  ghost function Below(q: Request, id: string, n: nat): nat
    requires n <= |q.candidates|
  {
    if n == 0 then 0 else Below(q, id, n - 1) + if Less(q.candidates[n - 1].id, id) then 1 else 0
  }

  lemma {:induction false} BelowShrinks(q: Request, a: string, b: string, n: nat)
    requires n <= |q.candidates| && Less(a, b)
    ensures Below(q, a, n) <= Below(q, b, n) <= n
    ensures (exists i :: 0 <= i < n && q.candidates[i].id == a) ==> Below(q, a, n) < Below(q, b, n)
  {
    if n > 0 {
      BelowShrinks(q, a, b, n - 1);
      LessIsIrreflexive(a);
      if Less(q.candidates[n - 1].id, a) {
        LessIsTransitive(q.candidates[n - 1].id, a, b);
      }
    }
  }

  lemma {:induction false} BelowIsBounded(q: Request, id: string, n: nat)
    requires n <= |q.candidates|
    ensures Below(q, id, n) <= n
  {
    if n > 0 {
      BelowIsBounded(q, id, n - 1);
    }
  }

  /** Enough checks for a device on this bundle to come to rest. */
  ghost function Patience(q: Request, id: string): (k: nat)
    ensures 1 <= k <= |q.candidates| + 1
  {
    BelowIsBounded(q, id, |q.candidates|);
    Below(q, id, |q.candidates|) + 1
  }

  lemma RollbackShrinks(q: Request, id: string)
    requires q.Distinct() && Decide(q, id).Rollback?
    ensures Patience(q, Decide(q, id).bundle.id) < Patience(q, id)
  {
    var r := Decide(q, id).bundle;
    RollbackDescends(q, id);
    var k :| 0 <= k < |q.candidates| && q.candidates[k] == r;
    BelowShrinks(q, r.id, id, |q.candidates|);
  }

  /** Every run comes to rest after at most one answer per older candidate, plus one. */
  lemma {:induction false} EveryRunSettles(q: Request, id: string, k: nat)
    requires q.Distinct() && k >= Patience(q, id)
    ensures Settled(q, Run(q, id, k))
    decreases k
  {
    if Decide(q, id).Rollback? {
      RollbackShrinks(q, id);
      EveryRunSettles(q, Decide(q, id).bundle.id, k - 1);
    } else {
      LastAnswer(q, id);
      SettledStays(q, Follow(Decide(q, id), id), k - 1);
    }
  }

  /** Distinct ids are needed: with one id twice, refused first and offered second, a device is sent
      back and forth for ever. The table's primary key rules this out. */
  lemma {:induction false} DuplicateIdsWouldOscillate(id: string, k: nat)
    requires Less(NIL_UUID, id) && Less("", id)
    ensures Decide(Twice(id), NIL_UUID) == Update(Twice(id).candidates[1]) && Decide(Twice(id), id) == InitRollback
    ensures Run(Twice(id), NIL_UUID, 2 * k) == NIL_UUID
  {
    TwiceOffersUpdate(id);
    TwiceResets(id);
    if k > 0 {
      DuplicateIdsWouldOscillate(id, k - 1);
      assert Run(Twice(id), NIL_UUID, 2 * k) == Run(Twice(id), id, 2 * k - 1) == Run(Twice(id), NIL_UUID, 2 * k - 2);
    }
  }

  /** One id twice: at rollout zero, and fully rolled out. */
  function Twice(id: string): (q: Request)
    ensures |q.candidates| == 2
  {
    Request([Bundle(id, 0, None), Bundle(id, 1000, None)], None, "")
  }

  lemma {:induction false} TwiceOffersUpdate(id: string)
    requires Less(NIL_UUID, id)
    ensures Decide(Twice(id), NIL_UUID) == Update(Twice(id).candidates[1])
  {
    var q := Twice(id);
    BestIsGreatest(q, Newer(NIL_UUID));
    assert q.candidates[1] in q.candidates;
    assert Wants(q, Newer(NIL_UUID), q.candidates[1]);
  }

  lemma {:induction false} TwiceResets(id: string)
    requires Less(NIL_UUID, id) && Less("", id)
    ensures Decide(Twice(id), id) == InitRollback
  {
    var q := Twice(id);
    BestIsGreatest(q, Newer(id));
    BestIsGreatest(q, Older(id));
    LessIsIrreflexive(id);
    NotBothWays(NIL_UUID, id);
    NotBothWays("", id);
  }

  /** The way down from id starts on the built-in bundle or passes through it. */
  ghost predicate PassesNil(q: Request, id: string) {
    id == NIL_UUID || (Less(NIL_UUID, id) && q.Has(NIL_UUID))
  }

  /** ... before reaching goal. */
  ghost predicate CaughtAtNil(q: Request, id: string, goal: string) {
    Less(goal, NIL_UUID) && PassesNil(q, id)
  }

  /** The least of id and the ids of the first n candidates. */
  ghost function Lowest(q: Request, id: string, n: nat): string
    requires n <= |q.candidates|
  {
    if n == 0 then id
    else
      var low, next := Lowest(q, id, n - 1), q.candidates[n - 1].id;
      if Less(next, low) then next else low
  }

  /** Where a run started on id ends. With something on offer: on the newest such bundle, unless that one is
      older than the built-in bundle and the run is caught there. With nothing on offer: all the way down, on
      the oldest candidate or where it started, if that is at or below the device's minimum and the built-in
      bundle is not met first; otherwise on the built-in bundle. */
  ghost function Destination(q: Request, id: string): string {
    match Best(q, Anything)
    case Some(g) => if CaughtAtNil(q, id, g.id) then NIL_UUID else g.id
    case None =>
      var low := Lowest(q, id, |q.candidates|);
      if !PassesNil(q, id) && AtMost(low, q.minBundleId) then low else NIL_UUID
  }

  lemma {:induction false} WhereRunsEnd(q: Request, id: string, k: nat)
    requires q.Distinct() && k >= Patience(q, id)
    ensures Run(q, id, k) == Destination(q, id)
    decreases k
  {
    if Decide(q, id).Rollback? {
      RollbackShrinks(q, id);
      WhereRunsEnd(q, Decide(q, id).bundle.id, k - 1);
      RollbackKeepsDestination(q, id);
    } else {
      LastAnswer(q, id);
      SettledStays(q, Follow(Decide(q, id), id), k - 1);
    }
  }

  /** Any answer but a rollback is the last one, and leads to the right place. */
  lemma LastAnswer(q: Request, id: string)
    requires q.Distinct() && !Decide(q, id).Rollback?
    ensures var end := Follow(Decide(q, id), id); Settled(q, end) && end == Destination(q, id)
  {
    BestIsGreatest(q, Anything);
    match Decide(q, id) {
      case NoUpdate =>
        if Best(q, Anything).Some? {
          RestingPlace(q, id, Best(q, Anything).value);
        } else if id != NIL_UUID {
          CurrentIsSound(q, id, 0);
          NothingBelow(q, id);
        }
      case Update(u) =>
        BestIsGreatest(q, Newer(id));
        UpdateSettles(q, id);
        UpdateGoesToTheTop(q, id, Best(q, Anything).value);
      case InitRollback =>
        ResetIsFinal(q, id);
        NothingBelow(q, id);
    }
  }

  lemma {:induction false} LowestIsLeast(q: Request, id: string, n: nat)
    requires n <= |q.candidates|
    ensures var low := Lowest(q, id, n);
            && (low == id || exists i :: 0 <= i < n && q.candidates[i].id == low)
            && AtMost(low, id) && forall i :: 0 <= i < n ==> AtMost(low, q.candidates[i].id)
  {
    if n > 0 {
      LowestIsLeast(q, id, n - 1);
      var low, next := Lowest(q, id, n - 1), q.candidates[n - 1].id;
      LessIsTotal(low, next);
      if Less(next, low) {
        forall i | 0 <= i < n - 1
          ensures AtMost(next, q.candidates[i].id)
        {
          AtMostIsTransitive(next, low, q.candidates[i].id);
        }
        AtMostIsTransitive(next, low, id);
      }
    }
  }

  lemma AtMostIsTransitive(a: string, b: string, c: string)
    requires AtMost(a, b) && AtMost(b, c)
    ensures AtMost(a, c)
  {
    if Less(a, b) && Less(b, c) {
      LessIsTransitive(a, b, c);
    }
  }

  lemma AtMostBothWays(a: string, b: string)
    requires AtMost(a, b) && AtMost(b, a)
    ensures a == b
  {
    if a != b {
      NotBothWays(a, b);
    }
  }

  /** Without an older candidate the way down ends where it starts and does not meet the built-in bundle. */
  lemma NothingBelow(q: Request, id: string)
    requires Best(q, Older(id)) == None
    ensures Lowest(q, id, |q.candidates|) == id && (PassesNil(q, id) <==> id == NIL_UUID)
  {
    var low := Lowest(q, id, |q.candidates|);
    BestIsGreatest(q, Older(id));
    LowestIsLeast(q, id, |q.candidates|);
    if low != id {
      var i :| 0 <= i < |q.candidates| && q.candidates[i].id == low;
      assert Wants(q, Older(id), q.candidates[i]);
    }
    forall b | b in q.candidates && b.id == NIL_UUID
      ensures !Less(NIL_UUID, id)
    {
      assert !Wants(q, Older(id), b);
    }
  }

  lemma RollbackKeepsDestination(q: Request, id: string)
    requires q.Distinct() && Decide(q, id).Rollback?
    ensures Destination(q, Decide(q, id).bundle.id) == Destination(q, id)
  {
    RollbackKeepsPassing(q, id);
    RollbackKeepsLowest(q, id);
  }

  lemma RollbackKeepsLowest(q: Request, id: string)
    requires q.Distinct() && Decide(q, id).Rollback?
    ensures Lowest(q, Decide(q, id).bundle.id, |q.candidates|) == Lowest(q, id, |q.candidates|)
  {
    var r, n := Decide(q, id).bundle, |q.candidates|;
    var here, there := Lowest(q, id, n), Lowest(q, r.id, n);
    RollbackDescends(q, id);
    LowestIsLeast(q, id, n);
    LowestIsLeast(q, r.id, n);
    var j :| 0 <= j < n && q.candidates[j] == r;
    if here == id {
      NotBothWays(r.id, id);
    }
    AtMostBothWays(here, there);
  }

  ghost predicate Top(q: Request, g: Bundle) {
    g in q.candidates && q.Offers(g) && forall b :: b in q.candidates && q.Offers(b) ==> AtMost(b.id, g.id)
  }

  lemma RestingPlace(q: Request, id: string, g: Bundle)
    requires q.Distinct() && Settled(q, id) && Top(q, g)
    ensures id == if CaughtAtNil(q, id, g.id) then NIL_UUID else g.id
  {
    BestIsGreatest(q, Newer(id));
    BestIsGreatest(q, Older(id));
    CurrentIsSound(q, id, 0);
    assert !Wants(q, Newer(id), g);
    LessIsTotal(g.id, id);
    assert Less(g.id, id) ==> Wants(q, Older(id), g);
    if Less(g.id, id) {
      NotBothWays(g.id, id);
    }
    if id == NIL_UUID {
      LessIsTotal(g.id, NIL_UUID);
    } else {
      LessIsIrreflexive(g.id);
      if Less(NIL_UUID, g.id) {
        NotBothWays(NIL_UUID, g.id);
      }
    }
  }

  lemma UpdateGoesToTheTop(q: Request, id: string, g: Bundle)
    requires q.Distinct() && Decide(q, id).Update? && Top(q, g)
    ensures Decide(q, id).bundle.id == g.id && !CaughtAtNil(q, id, g.id)
  {
    var u := Decide(q, id).bundle;
    BestIsGreatest(q, Newer(id));
    if u.id != g.id {
      LessIsTransitive(id, u.id, g.id);
      assert Wants(q, Newer(id), g);
      NotBothWays(u.id, g.id);
    }
    NoCatchBelow(q, id, g.id);
  }

  lemma NoCatchBelow(q: Request, id: string, goal: string)
    requires Less(id, goal)
    ensures !CaughtAtNil(q, id, goal)
  {
    if Less(goal, NIL_UUID) {
      LessIsTransitive(id, goal, NIL_UUID);
      NotBothWays(id, NIL_UUID);
    }
  }

  lemma RollbackKeepsPassing(q: Request, id: string)
    requires q.Distinct() && Decide(q, id).Rollback?
    ensures PassesNil(q, Decide(q, id).bundle.id) <==> PassesNil(q, id)
  {
    var r := Decide(q, id).bundle;
    RollbackDescends(q, id);
    if PassesNil(q, id) {
      var n :| n in q.candidates && n.id == NIL_UUID;
      assert AtMost(n.id, r.id);
    }
    if PassesNil(q, r.id) {
      if Less(NIL_UUID, r.id) {
        LessIsTransitive(NIL_UUID, r.id, id);
      }
      assert q.Has(NIL_UUID);
    }
  }
}
