/** What comparators mean, without bounds: which versions a partial version covers, and who is
    below, within or above it in precedence. */
module SemverMeaning {
  import opened Semver

  /** A version as far as precedence against a release goes (section 11 of Semantic Versioning 2.0.0):
      a prerelease precedes the release of the same number. */
  datatype Version = Version(triple: Triple, prerelease: bool)

  predicate Precedes(a: Version, b: Version) {
    Lt(a.triple, b.triple) || (a.triple == b.triple && a.prerelease && !b.prerelease)
  }

  function Release(t: Triple): Version {
    Version(t, false)
  }

  function Component(t: Triple, i: nat): nat {
    if i == 0 then t.major else if i == 1 then t.minor else t.patch
  }

  /** The components a partial version specifies. */
  function Specified(p: PartialVersion): seq<nat> {
    if p.major.None? then []
    else if p.minor.None? then [p.major.value]
    else if p.patch.None? then [p.major.value, p.minor.value]
    else [p.major.value, p.minor.value, p.patch.value]
  }

  /** t keeps the first n of the given components. */
  predicate Keeps(t: Triple, components: seq<nat>, n: nat)
    requires n <= |components|
  {
    forall i :: 0 <= i < n ==> Component(t, i) == components[i]
  }

  /** A full version covers itself, prerelease or not; a partial one every release that agrees with it. */
  predicate Covers(p: PartialVersion, u: Version) {
    && Keeps(u.triple, Specified(p), |Specified(p)|)
    && u.prerelease == (IsFull(p) && p.hasPrerelease)
  }

  ghost predicate Below(v: Triple, p: PartialVersion) {
    forall u :: Covers(p, u) ==> Precedes(Release(v), u)
  }

  ghost predicate Within(v: Triple, p: PartialVersion) {
    Covers(p, Release(v))
  }

  ghost predicate Above(v: Triple, p: PartialVersion) {
    forall u :: Covers(p, u) ==> Precedes(u, Release(v))
  }

  /** The leftmost non-zero component, or the last one if all are zero. */
  function Anchor(components: seq<nat>): (i: nat)
    requires components != []
    ensures i < |components|
    ensures forall k :: 0 <= k < i ==> components[k] == 0
    ensures components[i] != 0 || i == |components| - 1
  {
    if components[0] != 0 || |components| == 1 then 0 else 1 + Anchor(components[1..])
  }

  /** The versions a comparator admits. */
  ghost predicate Means(op: Operator, p: PartialVersion, v: Triple)
    requires IsPrefix(p)
  {
    var c := Specified(p);
    match op
    case Bare | Eq => Within(v, p)
    case Less => Below(v, p)
    case AtMost => !Above(v, p)
    case Greater => Above(v, p)
    case AtLeast => !Below(v, p)
    case Caret => !Below(v, p) && Keeps(v, c, Anchor(c) + 1)
    case Tilde => !Below(v, p) && Keeps(v, c, if p.minor.Some? then 2 else 1)
  }

  // ----- the bounds compute the meaning -----

  /** The least version a partial version covers. */
  lemma LeastCovered(p: PartialVersion, u: Version)
    requires IsPrefix(p) && Covers(p, u)
    ensures Covers(p, Version(FillZero(p), u.prerelease)) && Le(FillZero(p), u.triple)
  {
    var c := Specified(p);
    assert forall i :: 0 <= i < |c| ==> Component(FillZero(p), i) == c[i];
    assert Component(u.triple, 0) == c[0];
    assert |c| > 1 ==> Component(u.triple, 1) == c[1];
    assert |c| > 2 ==> Component(u.triple, 2) == c[2];
  }

  lemma BelowIsLess(v: Triple, p: PartialVersion)
    requires IsPrefix(p)
    ensures Below(v, p) <==> Lt(v, FillZero(p))
  {
    var least := Version(FillZero(p), IsFull(p) && p.hasPrerelease);
    assert Covers(p, least) by {
      assert forall i :: 0 <= i < |Specified(p)| ==> Component(FillZero(p), i) == Specified(p)[i];
    }
    forall u | Covers(p, u) && Lt(v, FillZero(p))
      ensures Precedes(Release(v), u)
    {
      LeastCovered(p, u);
    }
  }

  /** A release agrees with a partial version exactly when it lies between the two fill-ins. */
  lemma AgreesInInterval(v: Triple, p: PartialVersion)
    requires IsPrefix(p)
    ensures Keeps(v, Specified(p), |Specified(p)|) <==> Le(FillZero(p), v) && Lt(v, IncrementLastSpecified(p))
  {
    var c := Specified(p);
    if Keeps(v, c, |c|) {
      assert Component(v, 0) == c[0];
      assert |c| > 1 ==> Component(v, 1) == c[1];
      assert |c| > 2 ==> Component(v, 2) == c[2];
    }
  }

  lemma AboveIsPast(v: Triple, p: PartialVersion)
    requires IsPrefix(p)
    ensures Above(v, p) <==>
              if IsFull(p) then Lt(FillZero(p), v) || (p.hasPrerelease && v == FillZero(p))
              else Le(IncrementLastSpecified(p), v)
  {
    var flag := IsFull(p) && p.hasPrerelease;
    AgreesInInterval(FillZero(p), p);
    assert Covers(p, Version(FillZero(p), flag));
    AgreesInInterval(v, p);
    if Keeps(v, Specified(p), |Specified(p)|) {
      assert Covers(p, Version(v, flag));
    }
    forall u | Covers(p, u)
      ensures Le(FillZero(p), u.triple) && Lt(u.triple, IncrementLastSpecified(p)) && u.prerelease == flag
      ensures IsFull(p) ==> u.triple == FillZero(p)
    {
      AgreesInInterval(u.triple, p);
    }
  }

  lemma CaretKeeps(v: Triple, p: PartialVersion)
    requires IsPrefix(p)
    ensures Le(CaretBounds(p).0, v) && Lt(v, CaretBounds(p).1) <==>
              Le(FillZero(p), v) && Keeps(v, Specified(p), Anchor(Specified(p)) + 1)
  {
    var c := Specified(p);
    var a := Anchor(c);
    assert Keeps(v, c, a + 1) <==>
      Component(v, 0) == c[0] && (a >= 1 ==> Component(v, 1) == c[1]) && (a >= 2 ==> Component(v, 2) == c[2]);
  }

  lemma TildeKeeps(v: Triple, p: PartialVersion)
    requires IsPrefix(p)
    ensures Le(TildeBounds(p).0, v) && Lt(v, TildeBounds(p).1) <==>
              Le(FillZero(p), v) && Keeps(v, Specified(p), if p.minor.Some? then 2 else 1)
  {
    var c := Specified(p);
    assert Keeps(v, c, 1) <==> Component(v, 0) == c[0];
    assert |c| >= 2 ==> (Keeps(v, c, 2) <==> Component(v, 0) == c[0] && Component(v, 1) == c[1]);
  }

  lemma EvalPair(v: Triple, a: Bound, b: Bound)
    ensures EvalAll(v, [a, b]) <==> EvalBound(v, a) && EvalBound(v, b)
  {
    assert a in [a, b] && b in [a, b];
  }

  lemma EvalOne(v: Triple, a: Bound)
    ensures EvalAll(v, [a]) <==> EvalBound(v, a)
  {
    assert a in [a];
  }

  lemma NotLess(a: Triple, b: Triple)
    ensures Lt(a, b) <==> !Le(b, a)
  {
  }

  /** Every comparator's bounds admit exactly the versions it means. */
  lemma ComparatorMeaning(op: Operator, p: PartialVersion, v: Triple)
    requires IsPrefix(p)
    ensures EvalAll(v, ComparatorBounds(op, p)) <==> Means(op, p, v)
  {
    BelowIsLess(v, p);
    AboveIsPast(v, p);
    NotLess(v, FillZero(p));
    NotLess(v, IncrementLastSpecified(p));
    NotLess(FillZero(p), v);
    var bounds := ComparatorBounds(op, p);
    if |bounds| == 1 {
      EvalOne(v, bounds[0]);
    } else {
      EvalPair(v, bounds[0], bounds[1]);
    }
    match op
    case Bare | Eq => AgreesInInterval(v, p);
    case Caret => CaretKeeps(v, p);
    case Tilde => TildeKeeps(v, p);
    case _ =>
  }

  /** A hyphen range runs from the least version of its lower end to the greatest of its upper end. */
  lemma HyphenMeaning(lower: PartialVersion, upper: PartialVersion, v: Triple)
    requires IsPrefix(lower) && IsPrefix(upper)
    ensures EvalAll(v, HyphenBounds(lower, upper)) <==> !Below(v, lower) && !Above(v, upper)
  {
    BelowIsLess(v, lower);
    AboveIsPast(v, upper);
    NotLess(v, FillZero(lower));
    NotLess(v, IncrementLastSpecified(upper));
    NotLess(FillZero(upper), v);
    EvalPair(v, HyphenBounds(lower, upper)[0], HyphenBounds(lower, upper)[1]);
  }

  /** Every release is below, within or above a partial version, and only one of the three. */
  lemma BelowWithinAbove(v: Triple, p: PartialVersion)
    requires IsPrefix(p)
    ensures Below(v, p) || Within(v, p) || Above(v, p)
    ensures !(Below(v, p) && Within(v, p)) && !(Below(v, p) && Above(v, p)) && !(Within(v, p) && Above(v, p))
  {
    BelowIsLess(v, p);
    AboveIsPast(v, p);
    AgreesInInterval(v, p);
    NotLess(v, FillZero(p));
    NotLess(v, IncrementLastSpecified(p));
  }

  /** As evaluated: `<p`, `=p` and `>p` partition all releases, and `>p`/`<=p`, `>=p`/`<p` are complements. */
  lemma ComparatorsPartition(v: Triple, p: PartialVersion)
    requires IsPrefix(p)
    ensures var less := EvalAll(v, ComparatorBounds(Less, p)); var equal := EvalAll(v, ComparatorBounds(Eq, p));
            var greater := EvalAll(v, ComparatorBounds(Greater, p));
            && (less || equal || greater) && !(less && equal) && !(less && greater) && !(equal && greater)
            && (EvalAll(v, ComparatorBounds(AtMost, p)) <==> !greater)
            && (EvalAll(v, ComparatorBounds(AtLeast, p)) <==> !less)
  {
    BelowWithinAbove(v, p);
    ComparatorMeaning(Less, p, v);
    ComparatorMeaning(Eq, p, v);
    ComparatorMeaning(Greater, p, v);
    ComparatorMeaning(AtMost, p, v);
    ComparatorMeaning(AtLeast, p, v);
  }
}
