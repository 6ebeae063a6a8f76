/** The range engine: parsing version ranges to bounds and evaluating the bounds. */
module Semver {
  import opened Wrappers
  import opened Text
  import Decimal

  const U64_MAX: int := 0xFFFF_FFFF_FFFF_FFFF

  /** A release version. Components are unbounded here; the program's are 64-bit. */
  datatype Triple = Triple(major: nat, minor: nat, patch: nat)

  predicate Lt(a: Triple, b: Triple) {
    || a.major < b.major
    || (a.major == b.major && a.minor < b.minor)
    || (a.major == b.major && a.minor == b.minor && a.patch < b.patch)
  }

  predicate Le(a: Triple, b: Triple) {
    a == b || Lt(a, b)
  }

  // ----- bounds -----

  /** The version part of a comparator; missing or wildcard components are None. */
  datatype PartialVersion = PartialVersion(major: Option<nat>, minor: Option<nat>, patch: Option<nat>, hasPrerelease: bool)

  function OrZero(n: Option<nat>): nat {
    match n case Some(v) => v case None => 0
  }

  predicate IsFull(p: PartialVersion) {
    p.major.Some? && p.minor.Some? && p.patch.Some?
  }

  function FillZero(p: PartialVersion): Triple {
    Triple(OrZero(p.major), OrZero(p.minor), OrZero(p.patch))
  }

  function IncrementLastSpecified(p: PartialVersion): Triple {
    match (p.minor, p.patch)
    case (None, _) => Triple(OrZero(p.major) + 1, 0, 0)
    case (Some(minor), None) => Triple(OrZero(p.major), minor + 1, 0)
    case (Some(minor), Some(patch)) => Triple(OrZero(p.major), minor, patch + 1)
  }

  function CaretBounds(p: PartialVersion): (Triple, Triple) {
    var major := OrZero(p.major);
    if major > 0 then (Triple(major, OrZero(p.minor), OrZero(p.patch)), Triple(major + 1, 0, 0))
    else
      match (p.minor, p.patch)
      case (None, _) => (Triple(0, 0, 0), Triple(1, 0, 0))
      case (Some(minor), None) => (Triple(0, minor, 0), Triple(0, minor + 1, 0))
      case (Some(minor), Some(patch)) =>
        if minor == 0 then (Triple(0, 0, patch), Triple(0, 0, patch + 1))
        else (Triple(0, minor, patch), Triple(0, minor + 1, 0))
  }

  function TildeBounds(p: PartialVersion): (Triple, Triple) {
    var major := OrZero(p.major);
    match p.minor
    case None => (Triple(major, 0, 0), Triple(major + 1, 0, 0))
    case Some(minor) => (Triple(major, minor, OrZero(p.patch)), Triple(major, minor + 1, 0))
  }

  datatype Bound =
    | BoundGte(t: Triple)
    | BoundGt(t: Triple, hasPrerelease: bool)
    | BoundLte(t: Triple, hasPrerelease: bool)
    | BoundLt(t: Triple)
    | BoundEq(t: Triple, hasPrerelease: bool)

  predicate EvalBound(subject: Triple, bound: Bound) {
    match bound
    case BoundGte(b) => Le(b, subject)
    case BoundLt(b) => Lt(subject, b)
    case BoundGt(b, pre) => (pre && subject == b) || Lt(b, subject)
    case BoundLte(b, pre) => !(pre && subject == b) && Le(subject, b)
    case BoundEq(b, pre) => !pre && subject == b
  }

  predicate EvalAll(subject: Triple, bounds: seq<Bound>) {
    forall b :: b in bounds ==> EvalBound(subject, b)
  }

  datatype Operator = Bare | Eq | Less | AtMost | Greater | AtLeast | Caret | Tilde

  function ComparatorBounds(op: Operator, p: PartialVersion): seq<Bound> {
    match op
    case Bare | Eq =>
      if IsFull(p) then [BoundEq(FillZero(p), p.hasPrerelease)]
      else [BoundGte(FillZero(p)), BoundLt(IncrementLastSpecified(p))]
    case AtLeast => [BoundGte(FillZero(p))]
    case Less => [BoundLt(FillZero(p))]
    case Greater =>
      if IsFull(p) then [BoundGt(FillZero(p), p.hasPrerelease)] else [BoundGte(IncrementLastSpecified(p))]
    case AtMost =>
      if IsFull(p) then [BoundLte(FillZero(p), p.hasPrerelease)] else [BoundLt(IncrementLastSpecified(p))]
    case Caret => [BoundGte(CaretBounds(p).0), BoundLt(CaretBounds(p).1)]
    case Tilde => [BoundGte(TildeBounds(p).0), BoundLt(TildeBounds(p).1)]
  }

  function HyphenBounds(lower: PartialVersion, upper: PartialVersion): seq<Bound> {
    [BoundGte(FillZero(lower)),
     if IsFull(upper) then BoundLte(FillZero(upper), upper.hasPrerelease) else BoundLt(IncrementLastSpecified(upper))]
  }

  // ----- text -----

  predicate BarBar(s: string) {
    |s| >= 2 && s[0] == '|' && s[1] == '|'
  }

  predicate SpacedDash(s: string) {
    |s| >= 3 && s[0] == ' ' && s[1] == '-' && s[2] == ' '
  }

  /** `str::split("||")`: leftmost, not overlapping. */
  function SplitOr(s: string): (parts: seq<string>)
    ensures parts != []
  {
    if s == "" then [""]
    else if BarBar(s) then [""] + SplitOr(s[2..])
    else
      var rest := SplitOr(s[1..]);
      [[s[0]] + rest[0]] + rest[1..]
  }

  /** `str::split_whitespace`, with the word read so far. */
  function Words(s: string, word: string): seq<string> {
    if s == "" then (if word == "" then [] else [word])
    else if IsSpace(s[0]) then (if word == "" then [] else [word]) + Words(s[1..], "")
    else Words(s[1..], word + [s[0]])
  }

  /** How often " - " occurs, without overlap, and where it first does. */
  function DashCount(s: string): nat {
    if s == "" then 0
    else if SpacedDash(s) then 1 + DashCount(s[3..])
    else DashCount(s[1..])
  }

  function DashIndex(s: string): (i: nat)
    requires DashCount(s) > 0
    ensures i + 3 <= |s|
  {
    if SpacedDash(s) then 0 else 1 + DashIndex(s[1..])
  }

  /** `str::parse::<u64>`; a leading plus sign is accepted. */
  function ParseU64(s: string): Option<nat> {
    var digits := if |s| > 1 && s[0] == '+' then s[1..] else s;
    if digits == "" || !AllDigits(digits) || Decimal.Value(digits) > U64_MAX then None
    else Some(Decimal.Value(digits))
  }

  function ParseNoLeadingZero(s: string): Option<nat> {
    if |s| > 1 && s[0] == '0' then None else ParseU64(s)
  }

  // ----- version parts -----

  predicate IsWildcard(part: string) {
    part == "x" || part == "X" || part == "*"
  }

  /** Reads the remaining dotted parts after `read` numbers have been found and i parts seen. */
  function ReadParts(parts: seq<string>, i: nat, read: seq<nat>, wildcardHit: bool): (r: Option<seq<nat>>)
    ensures r.Some? ==> |read| <= |r.value| <= |read| + |parts|
    ensures r.Some? && i + |parts| > 3 ==> parts == []
  {
    if parts == [] then Some(read)
    else if i >= 3 then None
    else if wildcardHit then ReadParts(parts[1..], i + 1, read, true)
    else if parts[0] == "" then None
    else if IsWildcard(parts[0]) then ReadParts(parts[1..], i + 1, read, true)
    else
      match ParseNoLeadingZero(parts[0])
      case None => None
      case Some(n) => ReadParts(parts[1..], i + 1, read + [n], false)
  }

  /** Where a prerelease or build tag starts. */
  function TagIndex(s: string): (i: nat)
    ensures i <= |s|
    ensures i < |s| ==> s[i] == '-' || s[i] == '+'
  {
    if s == "" || s[0] == '-' || s[0] == '+' then 0 else 1 + TagIndex(s[1..])
  }

  function Nth(ns: seq<nat>, i: nat): Option<nat> {
    if i < |ns| then Some(ns[i]) else None
  }

  function StripV(s: string): string {
    if s != "" && (s[0] == 'v' || s[0] == 'V') then s[1..] else s
  }

  function ParsePartialVersion(raw: string): Option<PartialVersion> {
    var s := StripV(Trim(raw));
    var i := TagIndex(s);
    if s == "" || i == 0 then None
    else
      match ReadParts(Split(s[..i], '.'), 0, [], false)
      case None => None
      case Some(ns) =>
        if ns == [] then None
        else Some(PartialVersion(Nth(ns, 0), Nth(ns, 1), Nth(ns, 2), i < |s| && s[i] == '-'))
  }

  method PartialVersionOf(raw: string) returns (p: Option<PartialVersion>)
    ensures p == ParsePartialVersion(raw)
  {
    var s := StripV(Trim(raw));
    if s == "" {
      return None;
    }
    var tag := TagIndex(s);
    var versionPart, hasPrerelease := s[..tag], tag < |s| && s[tag] == '-';
    if versionPart == "" {
      return None;
    }
    var parts := Split(versionPart, '.');
    var segments: seq<Option<nat>> := [None, None, None];
    var wildcardHit := false;
    ghost var read: seq<nat> := [];
    for i := 0 to |parts|
      invariant ReadParts(parts[i..], i, read, wildcardHit) == ReadParts(parts, 0, [], false)
      invariant |read| <= 3 && |segments| == 3 && forall k :: 0 <= k < 3 ==> segments[k] == Nth(read, k)
      invariant |read| <= i && (!wildcardHit ==> |read| == i)
    {
      var part := parts[i];
      assert parts[i..][0] == part && parts[i..][1..] == parts[i + 1..];
      if i >= 3 {
        return None;
      }
      if wildcardHit {
        continue;
      }
      if part == "" {
        return None;
      }
      if IsWildcard(part) {
        wildcardHit := true;
        continue;
      }
      var n := ParseNoLeadingZero(part);
      if n.None? {
        return None;
      }
      segments := segments[i := n];
      read := read + [n.value];
    }
    if segments[0].None? {
      return None;
    }
    return Some(PartialVersion(segments[0], segments[1], segments[2], hasPrerelease));
  }

  // ----- comparators and clauses -----

  predicate MatchesEverything(s: string) {
    s == "" || s == "*" || s == "x" || s == "X"
  }

  /** The operator a token starts with, and the rest. */
  function SplitOperator(token: string): (Operator, string)
    requires token != ""
  {
    var orEqual := |token| > 1 && token[1] == '=';
    match token[0]
    case '>' => if orEqual then (AtLeast, token[2..]) else (Greater, token[1..])
    case '<' => if orEqual then (AtMost, token[2..]) else (Less, token[1..])
    case '^' => (Caret, token[1..])
    case '~' => (Tilde, token[1..])
    case '=' => (Eq, token[1..])
    case _ => (Bare, token)
  }

  function ParseComparatorBounds(raw: string): Option<seq<Bound>> {
    var token := Trim(raw);
    if token == "" then Some([])
    else
      var (op, tail) := SplitOperator(token);
      var rest := Trim(tail);
      if MatchesEverything(rest) then Some([])
      else
        match ParsePartialVersion(rest)
        case None => None
        case Some(p) => Some(ComparatorBounds(op, p))
  }

  /** The bounds of the remaining tokens, after those found so far. */
  function CollectBounds(tokens: seq<string>, bounds: seq<Bound>): Option<seq<Bound>> {
    if tokens == [] then Some(bounds)
    else
      match ParseComparatorBounds(tokens[0])
      case None => None
      case Some(b) => CollectBounds(tokens[1..], bounds + b)
  }

  function ParseRangeClause(raw: string): Option<seq<Bound>> {
    ParseTrimmedClause(Trim(raw))
  }

  function ParseTrimmedClause(clause: string): Option<seq<Bound>> {
    if MatchesEverything(clause) then Some([])
    else if DashCount(clause) == 1 then
      var i := DashIndex(clause);
      match (ParsePartialVersion(Trim(clause[..i])), ParsePartialVersion(Trim(clause[i + 3..])))
      case (Some(lower), Some(upper)) => Some(HyphenBounds(lower, upper))
      case _ => None
    else CollectBounds(Words(clause, ""), [])
  }

  method RangeClauseOf(raw: string) returns (r: Option<seq<Bound>>)
    ensures r == ParseRangeClause(raw)
  {
    var clause := Trim(raw);
    if MatchesEverything(clause) {
      return Some([]);
    }
    if DashCount(clause) == 1 {
      var i := DashIndex(clause);
      var lower := PartialVersionOf(Trim(clause[..i]));
      if lower.None? {
        return None;
      }
      var upper := PartialVersionOf(Trim(clause[i + 3..]));
      if upper.None? {
        return None;
      }
      return Some(HyphenBounds(lower.value, upper.value));
    }
    var tokens, bounds := Words(clause, ""), [];
    for i := 0 to |tokens|
      invariant CollectBounds(tokens[i..], bounds) == CollectBounds(tokens, [])
    {
      assert tokens[i..][0] == tokens[i] && tokens[i..][1..] == tokens[i + 1..];
      var b := ParseComparatorBounds(tokens[i]);
      if b.None? {
        return None;
      }
      bounds := bounds + b.value;
    }
    return Some(bounds);
  }

  /** The bounds of the remaining OR branches after those found so far, or None if one does not parse. */
  function CollectClauses(clauses: seq<string>, found: seq<seq<Bound>>): Option<seq<seq<Bound>>> {
    if clauses == [] then Some(found)
    else
      match ParseRangeClause(clauses[0])
      case None => None
      case Some(b) => CollectClauses(clauses[1..], found + [b])
  }

  predicate AnyHolds(version: Triple, clauses: seq<seq<Bound>>) {
    exists bounds :: bounds in clauses && EvalAll(version, bounds)
  }

  predicate Satisfies(version: Triple, req: string) {
    var trimmed := Trim(req);
    || trimmed == ""
    || match CollectClauses(SplitOr(trimmed), [])
       case None => false
       case Some(all) => AnyHolds(version, all)
  }

  method SatisfiesRange(version: Triple, req: string) returns (ok: bool)
    ensures ok <==> Satisfies(version, req)
  {
    var trimmed := Trim(req);
    if trimmed == "" {
      return true;
    }
    var clauses := SplitOr(trimmed);
    var clauseBounds: seq<seq<Bound>> := [];
    for i := 0 to |clauses|
      invariant CollectClauses(clauses[i..], clauseBounds) == CollectClauses(clauses, [])
    {
      assert clauses[i..][0] == clauses[i] && clauses[i..][1..] == clauses[i + 1..];
      var bounds := RangeClauseOf(clauses[i]);
      if bounds.None? {
        return false;
      }
      clauseBounds := clauseBounds + [bounds.value];
    }
    return AnyHolds(version, clauseBounds);
  }

  /** One branch that does not parse makes the whole range match nothing. */
  lemma OneBadBranchSpoilsAll(version: Triple, req: string, i: nat)
    requires Trim(req) != "" && i < |SplitOr(Trim(req))| && ParseRangeClause(SplitOr(Trim(req))[i]) == None
    ensures !Satisfies(version, req)
  {
    BadBranch(SplitOr(Trim(req)), [], i);
  }

  lemma {:induction false} BadBranch(clauses: seq<string>, found: seq<seq<Bound>>, i: nat)
    requires i < |clauses| && ParseRangeClause(clauses[i]) == None
    ensures CollectClauses(clauses, found) == None
  {
    var first := ParseRangeClause(clauses[0]);
    if i > 0 && first.Some? {
      BadBranch(clauses[1..], found + [first.value], i - 1);
    }
  }

  /** Every parsed partial version is a prefix: a patch comes with a minor, a minor with a major. */
  predicate IsPrefix(p: PartialVersion) {
    p.major.Some? && (p.patch.Some? ==> p.minor.Some?)
  }

  lemma ParsedIsPrefix(raw: string)
    ensures ParsePartialVersion(raw).Some? ==> IsPrefix(ParsePartialVersion(raw).value)
  {
  }
}
