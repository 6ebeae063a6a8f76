/** Cohort names and the question whether a bundle is offered to a device. */
module Eligibility {
  import opened Wrappers
  import opened Text
  import opened Machine
  import opened Rollout
  import Decimal

  const MAX_COHORT_LENGTH := 64
  const DEFAULT_ROLLOUT_COHORT_COUNT: i32 := 1000

  /** Reads a numeric cohort; the empty string, 32-bit overflow and numbers outside 1..1000 are none. */
  function ParseNumericCohort(s: string): (r: Option<int>)
    ensures r.Some? ==> 1 <= r.value <= 1000
  {
    if !AllDigits(s) || s == "" then None
    else
      var v := Decimal.Value(s);
      if v > 0x7FFF_FFFF || !(1 <= v <= 1000) then None else Some(v)
  }

  function NormalizeCohort(cohort: string): string {
    var t := Fold(Trim(cohort));
    match ParseNumericCohort(t)
    case Some(n) => Decimal.Print(n)
    case None => t
  }

  function NumericCohort(cohort: string): Option<int> {
    ParseNumericCohort(NormalizeCohort(cohort))
  }

  predicate IsCustomCohort(cohort: string) {
    var s := NormalizeCohort(cohort);
    && 0 < |s| <= MAX_COHORT_LENGTH
    && !AllDigits(s)
    && forall c :: c in s ==> 'a' <= c <= 'z' || IsDigit(c) || c == '-'
  }

  predicate IsValidCohort(cohort: string) {
    var s := NormalizeCohort(cohort);
    ParseNumericCohort(s).Some? || IsCustomCohort(s)
  }

  function NormalizeRolloutCount(count: Option<i32>): int {
    match count
    case None => DEFAULT_ROLLOUT_COHORT_COUNT as int
    case Some(n) => if n < 0 then 0 else if n > 1000 then 1000 else n as int
  }

  ghost predicate IsEligible(bundleId: string, cohort: Option<string>, rollout: Option<i32>, targets: Option<seq<string>>) {
    || (&& cohort.Some?
        && targets.Some?
        && exists t :: t in targets.value && NormalizeCohort(t) == NormalizeCohort(cohort.value))
    || var count := NormalizeRolloutCount(rollout);
       && count > 0
       && (match cohort
           case None => count >= 1000
           case Some(c) =>
             match NumericCohort(NormalizeCohort(c))
             case None => false
             case Some(n) => count >= 1000 || Position(bundleId, n) < count)
  }

  method IsCohortEligibleForUpdate(bundleId: string, cohort: Option<string>, rollout: Option<i32>, targets: Option<seq<string>>)
    returns (eligible: bool)
    ensures eligible <==> IsEligible(bundleId, cohort, rollout, targets)
    ensures cohort.None? ==> (eligible <==> rollout.None? || rollout.value >= 1000)
    ensures cohort.Some? ==>
              (eligible <==>
                || (targets.Some? && exists t :: t in targets.value && NormalizeCohort(t) == NormalizeCohort(cohort.value))
                || match ParseNumericCohort(NormalizeCohort(cohort.value))
                   case Some(n) => rollout.None? || Position(bundleId, n) < rollout.value as int
                   case None => false)
  {
    if cohort.Some? {
      NormalizeTwice(cohort.value);
    }
    if cohort.Some? && targets.Some? {
      var name := NormalizeCohort(cohort.value);
      var names := seq(|targets.value|, i requires 0 <= i < |targets.value| => NormalizeCohort(targets.value[i]));
      if name in names {
        return true;
      }
      forall t | t in targets.value
        ensures NormalizeCohort(t) != name
      {
        var i :| 0 <= i < |targets.value| && targets.value[i] == t;
        assert names[i] == NormalizeCohort(t);
      }
    }
    var count := NormalizeRolloutCount(rollout);
    if count <= 0 {
      return false;
    }
    if cohort.None? {
      return count >= 1000;
    }
    var numeric := NumericCohort(NormalizeCohort(cohort.value));
    if numeric.None? {
      return false;
    }
    if count >= 1000 {
      return true;
    }
    var position := NumericCohortRolloutPosition(bundleId, numeric.value as i32);
    return position as int < count;
  }

  // ----- properties -----

  lemma {:induction false} NumeralIsItsOwnNormalForm(n: nat)
    requires 1 <= n <= 1000
    ensures NormalizeCohort(Decimal.Print(n)) == Decimal.Print(n)
    ensures ParseNumericCohort(Decimal.Print(n)) == Some(n)
  {
    var s := Decimal.Print(n);
    Decimal.PrintIsCanonical(n);
    DigitsAreNormal(s);
  }

  lemma DigitsAreNormal(s: string)
    requires s != "" && AllDigits(s)
    ensures Fold(Trim(s)) == s
  {
    assert s[0] in s && s[|s| - 1] in s;
    TrimOfTrimmed(s);
    assert forall i :: 0 <= i < |s| ==> s[i] in s;
  }

  /** The normal form of a cohort, white space around it aside: a numeral of 1..1000 without its leading zeros, or
      the text in lower case. */
  lemma {:induction false} NormalForm(lead: string, core: string, trail: string)
    requires (forall c :: c in lead ==> IsSpace(c)) && (forall c :: c in trail ==> IsSpace(c)) && Trimmed(core)
    ensures NormalizeCohort(lead + core + trail) ==
            if core != "" && AllDigits(core) && 1 <= Decimal.Value(core) <= 1000 then Decimal.Print(Decimal.Value(core))
            else Fold(core)
  {
    TrimDrops(lead, core, trail);
    if core != "" && AllDigits(core) {
      DigitsFold(core);
    } else if AllDigits(Fold(core)) {
      OnlyDigitsFoldToDigits(core);
    }
  }

  lemma DigitsFold(s: string)
    requires AllDigits(s)
    ensures Fold(s) == s
  {
    assert forall i :: 0 <= i < |s| ==> s[i] in s;
  }

  lemma OnlyDigitsFoldToDigits(s: string)
    requires AllDigits(Fold(s))
    ensures AllDigits(s)
  {
    forall c | c in s
      ensures IsDigit(c)
    {
      var i :| 0 <= i < |s| && s[i] == c;
      assert Fold(s)[i] in Fold(s);
    }
  }

  /** Normalising is idempotent, so all spellings of a cohort share one representative. */
  lemma NormalizeTwice(cohort: string)
    ensures NormalizeCohort(NormalizeCohort(cohort)) == NormalizeCohort(cohort)
  {
    var t := Fold(Trim(cohort));
    match ParseNumericCohort(t)
    case Some(n) =>
      NumeralIsItsOwnNormalForm(n);
    case None =>
      TrimTrims(cohort);
      assert Trimmed(t);
      TrimOfTrimmed(t);
      FoldTwice(Trim(cohort));
  }

  ghost predicate IsNumeral(s: string) {
    exists n :: 1 <= n <= 1000 && s == Decimal.Print(n)
  }

  /** A cohort is valid exactly when its normal form is the numeral of 1..1000 or a lower-case slug;
      normalising first changes neither answer. */
  lemma ValidCohortForms(cohort: string)
    ensures IsValidCohort(NormalizeCohort(cohort)) <==> IsValidCohort(cohort)
    ensures IsValidCohort(cohort) <==>
              var s := NormalizeCohort(cohort);
              || IsNumeral(s)
              || (0 < |s| <= 64 && !AllDigits(s) && forall c :: c in s ==> 'a' <= c <= 'z' || IsDigit(c) || c == '-')
  {
    var s := NormalizeCohort(cohort);
    NormalizeTwice(cohort);
    forall n | 1 <= n <= 1000 && s == Decimal.Print(n)
      ensures ParseNumericCohort(s) == Some(n)
    {
      NumeralIsItsOwnNormalForm(n);
    }
    if ParseNumericCohort(s).Some? {
      var t := Fold(Trim(cohort));
      assert ParseNumericCohort(t).Some?;
      assert s == Decimal.Print(ParseNumericCohort(t).value);
    }
  }

  ghost predicate Targeted(cohort: string, targets: Option<seq<string>>) {
    targets.Some? && exists t :: t in targets.value && NormalizeCohort(t) == cohort
  }

  /** Eligibility looks at nothing but the normal form of the device's cohort: it is in when a target cohort
      has that form, or when it is a number whose position is below the count. */
  lemma EligibilityByNormalForm(bundleId: string, cohort: string, count: i32, targets: Option<seq<string>>)
    ensures IsEligible(bundleId, Some(cohort), Some(count), targets) <==>
              || Targeted(NormalizeCohort(cohort), targets)
              || match ParseNumericCohort(NormalizeCohort(cohort))
                 case Some(n) => Position(bundleId, n) < NormalizeRolloutCount(Some(count))
                 case None => false
  {
    NormalizeTwice(cohort);
  }

  /** Without target cohorts a number, however spelled, is in exactly when its position is below the count. */
  lemma {:induction false} EligibilityOfNumericCohort(bundleId: string, cohort: string, c: int, count: i32)
    requires IsCohort(c) && NormalizeCohort(cohort) == Decimal.Print(c)
    ensures IsEligible(bundleId, Some(cohort), Some(count), None)
            <==> Position(bundleId, c) < NormalizeRolloutCount(Some(count))
  {
    NumeralIsItsOwnNormalForm(c);
    EligibilityByNormalForm(bundleId, cohort, count, None);
  }

  /** Raising the count never shuts a device out. */
  lemma RaisingRolloutAdds(bundleId: string, cohort: Option<string>, lower: i32, higher: i32, targets: Option<seq<string>>)
    requires lower <= higher
    requires IsEligible(bundleId, cohort, Some(lower), targets)
    ensures IsEligible(bundleId, cohort, Some(higher), targets)
  {
  }
}
