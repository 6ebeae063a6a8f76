/** Staged rollout: which position each numeric cohort takes in a bundle's shuffle. */
module Rollout {
  import opened Modular
  import opened Machine
  import opened Cohort

  // ----- the shuffle of one bundle, as a specification -----

  /** The least number at or above m that is coprime to 1000; the prime 997 bounds the search. */
  function NextUnit(m: nat): (u: nat)
    requires 1 <= m <= 997
    ensures m <= u <= 997 && Gcd(u, N) == 1
    ensures forall k :: m <= k < u ==> Gcd(k, N) != 1
    decreases 997 - m
  {
    if m == 997 then
      UnitAt997();
      m
    else if Gcd(m, N) == 1 then m
    else NextUnit(m + 1)
  }

  lemma UnitAt997()
    ensures Gcd(997, 1000) == 1
  {
    assert Gcd(997, 1000) == Gcd(1000, 997) == Gcd(997, 3) == Gcd(3, 1) == Gcd(1, 0);
  }

  ghost function Seed(bundleId: string): nat {
    var h := Hash(bundleId + ":multiplier") as int % 997;
    if h == 0 then 1 else h
  }

  ghost function Multiplier(bundleId: string): nat {
    NextUnit(Seed(bundleId))
  }

  ghost function Offset(bundleId: string): nat {
    Hash(bundleId + ":offset") as int % N
  }

  ghost function InverseMultiplier(bundleId: string): (x: nat)
    ensures IsInverse(x, Multiplier(bundleId), N)
  {
    InverseExistsIffCoprime(Multiplier(bundleId), N);
    var x :| IsInverse(x, Multiplier(bundleId), N);
    x
  }

  /** Position of a cohort in the shuffle; 0 for a number that is no cohort. */
  ghost function Position(bundleId: string, cohort: int): (p: nat)
    ensures p < N
  {
    if 1 <= cohort <= N then (InverseMultiplier(bundleId) * (cohort - 1 - Offset(bundleId))) % N else 0
  }

  ghost predicate IsCohort(c: int) {
    1 <= c <= N
  }

  /** The cohort that takes position p. */
  ghost function CohortAt(bundleId: string, p: int): (c: int)
    ensures IsCohort(c)
  {
    (Multiplier(bundleId) * p + Offset(bundleId)) % N + 1
  }

  // ----- the shuffle is a permutation -----

  lemma PositionOfCohortAt(bundleId: string, p: nat)
    requires p < N
    ensures Position(bundleId, CohortAt(bundleId, p)) == p
  {
    UnshuffleUndone(Multiplier(bundleId), InverseMultiplier(bundleId), Offset(bundleId), p, CohortAt(bundleId, p) - 1);
  }

  lemma UnshuffleUndone(m: nat, x: int, o: int, p: nat, y: int)
    requires p < N && y == (m * p + o) % N && IsInverse(x, m, N)
    ensures (x * (y - o)) % N == p
  {
    ModOfSum(m * p + o, -o, N);
    ModOfProduct(y - o, x, N);
    ModOfProduct(m * p, x, N);
    assert (y - o) * x == x * (y - o) && m * p * x == x * (m * p);
    UndoScaling(p, m, x, N);
    QuotientUnique(p, N, 0, p);
  }

  lemma PositionIsShuffled(bundleId: string, y: nat)
    requires y < N
    ensures Position(bundleId, y + 1) == (InverseMultiplier(bundleId) * (y - Offset(bundleId))) % N
  {
    assert y + 1 - 1 == y;
  }

  lemma PositionUndone(bundleId: string, y: nat, p: int)
    requires y < N && p == (InverseMultiplier(bundleId) * (y - Offset(bundleId))) % N
    ensures (Multiplier(bundleId) * p + Offset(bundleId)) % N == y
  {
    ShuffleUndone(Multiplier(bundleId), InverseMultiplier(bundleId), Offset(bundleId), y, p);
  }

  lemma CohortAtPosition(bundleId: string, c: int)
    requires IsCohort(c)
    ensures CohortAt(bundleId, Position(bundleId, c)) == c
  {
    PositionIsShuffled(bundleId, c - 1);
    PositionUndone(bundleId, c - 1, Position(bundleId, c));
  }

  lemma ShuffleUndone(m: nat, x: int, o: int, y: nat, p: int)
    requires m < N && y < N && p == (x * (y - o)) % N && IsInverse(x, m, N)
    ensures (m * p + o) % N == y
  {
    var d := y - o;
    ModOfProduct(x * d, m, N);
    assert p * m == m * p && x * d * m == m * (x * d);
    assert IsInverse(m, x, N) by {
      assert m * x == x * m;
    }
    UndoScaling(d, x, m, N);
    ModOfSum(m * p, o, N);
    ModOfSum(d, o, N);
    QuotientUnique(y, N, 0, y);
  }

  /** The cohorts a rollout of n lets in. */
  ghost function Admitted(bundleId: string, n: int): set<int> {
    set c | 1 <= c <= N && Position(bundleId, c) < n
  }

  lemma OneMoreAdmitted(bundleId: string, n: nat)
    requires 0 < n <= N
    ensures var c := CohortAt(bundleId, n - 1);
            c !in Admitted(bundleId, n - 1) && Admitted(bundleId, n) == Admitted(bundleId, n - 1) + {c}
  {
    PositionOfCohortAt(bundleId, n - 1);
    forall d | d in Admitted(bundleId, n) && d !in Admitted(bundleId, n - 1)
      ensures d == CohortAt(bundleId, n - 1)
    {
      CohortAtPosition(bundleId, d);
    }
  }

  /** A rollout of n lets in exactly n of the 1000 cohorts. */
  lemma {:induction false} ExactShare(bundleId: string, n: nat)
    requires n <= N
    ensures |Admitted(bundleId, n)| == n
  {
    if n == 0 {
      assert Admitted(bundleId, 0) == {};
    } else {
      OneMoreAdmitted(bundleId, n);
      ExactShare(bundleId, n - 1);
    }
  }

  // ----- the program -----

  datatype ShuffleParameters = ShuffleParameters(multiplier: i32, offset: i32, inverseMultiplier: i32)

  function OneIfZero(m: i32): i32 {
    if m == 0 then 1 else m
  }

  method RolloutShuffleParameters(bundleId: string) returns (p: ShuffleParameters)
    ensures p.multiplier as int == Multiplier(bundleId)
    ensures p.offset as int == Offset(bundleId)
    ensures p.inverseMultiplier as int == InverseMultiplier(bundleId)
  {
    var h := HashString(bundleId + ":multiplier");
    var multiplier := OneIfZero(PositiveMod(h, 997));
    var g := GcdOf(multiplier, NUMERIC_COHORT_SIZE);
    while g != 1
      invariant 1 <= multiplier <= 997
      invariant g as int == Gcd(multiplier as int, N)
      invariant NextUnit(multiplier as int) == Multiplier(bundleId)
      decreases 997 - multiplier
    {
      UnitAt997();
      QuotientUnique(multiplier as int + 1, N, 0, multiplier as int + 1);
      multiplier := OneIfZero(PositiveMod(multiplier + 1, NUMERIC_COHORT_SIZE));
      g := GcdOf(multiplier, NUMERIC_COHORT_SIZE);
    }
    h := HashString(bundleId + ":offset");
    var offset := PositiveMod(h, NUMERIC_COHORT_SIZE);
    var inverse := ModularInverse(multiplier, NUMERIC_COHORT_SIZE);
    // the fallback is never taken: a unit has an inverse
    var inverseMultiplier := inverse.UnwrapOr(1);
    InverseIsUnique(inverseMultiplier as int, InverseMultiplier(bundleId), multiplier as int, N);
    p := ShuffleParameters(multiplier, offset, inverseMultiplier);
  }

  method NumericCohortRolloutPosition(bundleId: string, cohort: i32) returns (position: i32)
    ensures position as int == Position(bundleId, cohort as int)
  {
    if !(1 <= cohort <= 1000) {
      return 0;
    }
    var p := RolloutShuffleParameters(bundleId);
    ProductInRange(p.inverseMultiplier as int, cohort as int - 1 - p.offset as int);
    position := PositiveMod(p.inverseMultiplier * (cohort - 1 - p.offset), NUMERIC_COHORT_SIZE);
  }

  lemma ProductInRange(x: nat, y: int)
    requires x < 1000 && -1000 < y < 1000
    ensures -1_000_000 < x * y < 1_000_000
  {
    ProductMonotone(x, -999, y);
    ProductMonotone(x, y, 999);
  }

  lemma ProductMonotone(x: nat, y: int, z: int)
    requires y <= z
    ensures x * y <= x * z
  {
  }
}
