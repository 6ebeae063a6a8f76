/** Coercing a client's version string to a release version. */
module Coerce {
  import opened Wrappers
  import opened Text
  import opened Semver
  import Decimal

  /** Reads dotted digit segments from s, after the ones read and the digits of the current one. */
  function ScanSegments(s: string, segments: seq<nat>, current: string): (r: Option<seq<nat>>)
    requires |segments| < 3
    ensures r.Some? ==> |r.value| <= 3
    decreases s
  {
    if s == "" || !(IsDigit(s[0]) || (s[0] == '.' && current != "")) then Close(segments, current)
    else if IsDigit(s[0]) then ScanSegments(s[1..], segments, current + [s[0]])
    else
      match ParseNoLeadingZero(current)
      case None => None
      case Some(n) => if |segments| == 2 then Some(segments + [n]) else ScanSegments(s[1..], segments + [n], "")
  }

  /** The segment under way counts when the scan stops. */
  function Close(segments: seq<nat>, current: string): Option<seq<nat>> {
    if current == "" || |segments| >= 3 then Some(segments)
    else
      match ParseNoLeadingZero(current)
      case None => None
      case Some(n) => Some(segments + [n])
  }

  function FirstDigit(s: string): (i: nat)
    ensures i <= |s| && (i < |s| ==> IsDigit(s[i]))
    ensures forall k :: 0 <= k < i ==> !IsDigit(s[k])
  {
    if s == "" || IsDigit(s[0]) then 0 else 1 + FirstDigit(s[1..])
  }

  function Coerced(s: string): Option<Triple> {
    var i := FirstDigit(s);
    if i == |s| then None
    else
      match ScanSegments(s[i..], [], "")
      case None => None
      case Some(ns) => if ns == [] then None else Some(Triple(ns[0], OrZero(Nth(ns, 1)), OrZero(Nth(ns, 2))))
  }

  /** Where the loop stands: the segments and digits read from the first i characters lead to the scan's result. */
  ghost predicate Reading(s: string, i: nat, segments: seq<nat>, current: string) {
    && i <= |s| && |segments| <= 3
    && if |segments| < 3 then ScanSegments(s[i..], segments, current) == ScanSegments(s, [], "")
       else current == "" && ScanSegments(s, [], "") == Some(segments)
  }

  lemma ReadDigit(s: string, i: nat, segments: seq<nat>, current: string)
    requires Reading(s, i, segments, current) && i < |s| && |segments| < 3 && IsDigit(s[i])
    ensures Reading(s, i + 1, segments, current + [s[i]])
  {
    assert s[i..][1..] == s[i + 1..];
  }

  lemma ReadDot(s: string, i: nat, segments: seq<nat>, current: string)
    requires Reading(s, i, segments, current) && i < |s| && |segments| < 3 && s[i] == '.' && current != ""
    ensures match ParseNoLeadingZero(current)
            case None => ScanSegments(s, [], "") == None
            case Some(n) => Reading(s, i + 1, segments + [n], "")
  {
    assert s[i..][1..] == s[i + 1..];
  }

  lemma ReadEnd(s: string, i: nat, segments: seq<nat>, current: string)
    requires Reading(s, i, segments, current)
    requires i == |s| || |segments| == 3 || !(IsDigit(s[i]) || (s[i] == '.' && current != ""))
    ensures ScanSegments(s, [], "") == Close(segments, current)
  {
  }

  method CoerceVersion(text: string) returns (v: Option<Triple>)
    ensures v == Coerced(text)
  {
    var first := FirstDigit(text);
    if first == |text| {
      return None;
    }
    var s := text[first..];
    var segments: seq<nat> := [];
    var current := "";
    var i := 0;
    assert s[0..] == s;
    while i < |s| && |segments| < 3
      invariant Reading(s, i, segments, current)
      decreases |s| - i
    {
      var c := s[i];
      if IsDigit(c) {
        ReadDigit(s, i, segments, current);
        current := current + [c];
      } else if c == '.' {
        if current == "" {
          break;
        }
        ReadDot(s, i, segments, current);
        var n := ParseNoLeadingZero(current);
        if n.None? {
          return None;
        }
        segments := segments + [n.value];
        current := "";
      } else {
        break;
      }
      i := i + 1;
    }
    ReadEnd(s, i, segments, current);
    if current != "" && |segments| < 3 {
      var n := ParseNoLeadingZero(current);
      if n.None? {
        return None;
      }
      segments := segments + [n.value];
    }
    if segments == [] {
      return None;
    }
    return Some(Triple(segments[0], OrZero(Nth(segments, 1)), OrZero(Nth(segments, 2))));
  }

  lemma {:induction false} ScanDigits(digits: string, rest: string, segments: seq<nat>, current: string)
    requires |segments| < 3 && AllDigits(digits)
    ensures ScanSegments(digits + rest, segments, current) == ScanSegments(rest, segments, current + digits)
    decreases digits
  {
    if digits == "" {
      assert digits + rest == rest && current + digits == current;
    } else {
      assert digits[0] in digits && (digits + rest)[1..] == digits[1..] + rest;
      ScanDigits(digits[1..], rest, segments, current + [digits[0]]);
      assert current + [digits[0]] + digits[1..] == current + digits;
    }
  }

  lemma {:induction false} NumeralReads(n: nat)
    requires n <= U64_MAX
    ensures ParseNoLeadingZero(Decimal.Print(n)) == Some(n) && AllDigits(Decimal.Print(n)) && Decimal.Print(n) != ""
  {
    Decimal.PrintIsCanonical(n);
    assert Decimal.Print(n)[0] in Decimal.Print(n);
  }

  /** One segment followed by a dot moves on to the next segment. */
  lemma {:induction false} ScanSegment(n: nat, rest: string, segments: seq<nat>)
    requires |segments| < 2 && n <= U64_MAX
    ensures ScanSegments(Decimal.Print(n) + ("." + rest), segments, "") == ScanSegments(rest, segments + [n], "")
  {
    var digits := Decimal.Print(n);
    NumeralReads(n);
    ScanDigits(digits, "." + rest, segments, "");
    assert "" + digits == digits && ("." + rest)[1..] == rest;
  }

  /** A release version in full, followed by more text. */
  function VersionText(v: Triple, after: string): string {
    Decimal.Print(v.major) + ("." + (Decimal.Print(v.minor) + ("." + (Decimal.Print(v.patch) + after))))
  }

  /** The third segment ends where its digits do. */
  lemma ScanLast(n: nat, after: string, segments: seq<nat>)
    requires |segments| == 2 && n <= U64_MAX && (after == "" || !IsDigit(after[0]))
    ensures ScanSegments(Decimal.Print(n) + after, segments, "") == Some(segments + [n])
  {
    var digits := Decimal.Print(n);
    NumeralReads(n);
    ScanDigits(digits, after, segments, "");
    assert "" + digits == digits;
  }

  lemma ScanVersion(v: Triple, after: string)
    requires v.major <= U64_MAX && v.minor <= U64_MAX && v.patch <= U64_MAX && (after == "" || !IsDigit(after[0]))
    ensures ScanSegments(VersionText(v, after), [], "") == Some([v.major, v.minor, v.patch])
  {
    ScanSegment(v.major, Decimal.Print(v.minor) + ("." + (Decimal.Print(v.patch) + after)), []);
    ScanSegment(v.minor, Decimal.Print(v.patch) + after, [] + [v.major]);
    ScanLast(v.patch, after, [] + [v.major] + [v.minor]);
    assert [] + [v.major] + [v.minor] + [v.patch] == [v.major, v.minor, v.patch];
  }

  /** A version is found behind any text without digits, and whatever follows its patch number is ignored. */
  lemma CoerceFindsVersion(before: string, v: Triple, after: string)
    requires (forall c :: c in before ==> !IsDigit(c)) && (after == "" || !IsDigit(after[0]))
    requires v.major <= U64_MAX && v.minor <= U64_MAX && v.patch <= U64_MAX
    ensures Coerced(before + VersionText(v, after)) == Some(v)
  {
    var s := VersionText(v, after);
    NumeralReads(v.major);
    assert s[0] == Decimal.Print(v.major)[0] && s[0] in Decimal.Print(v.major);
    FirstDigitAfter(before, s);
    assert (before + s)[|before|..] == s;
    ScanVersion(v, after);
  }

  /** What may follow a version that is cut short: no digit, and no dot with a digit behind. */
  predicate Stops(after: string) {
    after == "" || (!IsDigit(after[0]) && (after[0] == '.' && |after| > 1 ==> !IsDigit(after[1])))
  }

  lemma ScanLastOfShort(n: nat, after: string, segments: seq<nat>)
    requires |segments| < 3 && n <= U64_MAX && Stops(after)
    ensures ScanSegments(Decimal.Print(n) + after, segments, "") == Some(segments + [n])
  {
    var digits := Decimal.Print(n);
    NumeralReads(n);
    ScanDigits(digits, after, segments, "");
    assert "" + digits == digits;
    if after != "" && after[0] == '.' && |segments| < 2 {
      assert ScanSegments(after[1..], segments + [n], "") == Close(segments + [n], "");
    }
  }

  /** Missing components are zero. */
  lemma CoerceFillsShort(before: string, major: nat, minor: nat, after: string)
    requires (forall c :: c in before ==> !IsDigit(c)) && Stops(after) && major <= U64_MAX && minor <= U64_MAX
    ensures Coerced(before + (Decimal.Print(major) + after)) == Some(Triple(major, 0, 0))
    ensures Coerced(before + (Decimal.Print(major) + ("." + (Decimal.Print(minor) + after)))) == Some(Triple(major, minor, 0))
  {
    var one := Decimal.Print(major) + after;
    var two := Decimal.Print(major) + ("." + (Decimal.Print(minor) + after));
    NumeralReads(major);
    assert one[0] == two[0] == Decimal.Print(major)[0] && one[0] in Decimal.Print(major);
    FirstDigitAfter(before, one);
    FirstDigitAfter(before, two);
    assert (before + one)[|before|..] == one && (before + two)[|before|..] == two;
    ScanLastOfShort(major, after, []);
    ScanSegment(major, Decimal.Print(minor) + after, []);
    ScanLastOfShort(minor, after, [] + [major]);
    assert [] + [major] == [major] && [] + [major] + [minor] == [major, minor];
  }

  lemma {:induction false} FirstDigitAfter(before: string, s: string)
    requires (forall c :: c in before ==> !IsDigit(c)) && s != "" && IsDigit(s[0])
    ensures FirstDigit(before + s) == |before|
  {
    var i, t := FirstDigit(before + s), before + s;
    assert forall k :: 0 <= k < |before| ==> t[k] in before;
    assert t[|before|] == s[0];
  }

  /** Components that have been read, each followed by a dot, in front of more text. */
  function Dotted(ns: seq<nat>, tail: string): string {
    if ns == [] then tail else Decimal.Print(ns[0]) + ("." + Dotted(ns[1..], tail))
  }

  lemma {:induction false} ScanDotted(ns: seq<nat>, tail: string, segments: seq<nat>)
    requires |segments| + |ns| <= 2 && forall n :: n in ns ==> n <= U64_MAX
    ensures ScanSegments(Dotted(ns, tail), segments, "") == ScanSegments(tail, segments + ns, "")
    decreases ns
  {
    if ns == [] {
      assert segments + ns == segments;
    } else {
      assert ns[0] in ns && forall n :: n in ns[1..] ==> n in ns;
      ScanSegment(ns[0], Dotted(ns[1..], tail), segments);
      ScanDotted(ns[1..], tail, segments + [ns[0]]);
      assert segments + [ns[0]] + ns[1..] == segments + ns;
    }
  }

  /** Digits with a superfluous zero in front, or of a number from 2^64 on. */
  predicate Unreadable(digits: string) {
    AllDigits(digits) && digits != "" && ((digits[0] == '0' && |digits| > 1) || Decimal.Value(digits) >= 0x1_0000_0000_0000_0000)
  }

  lemma ScanRefuses(digits: string, rest: string, segments: seq<nat>)
    requires |segments| < 3 && Unreadable(digits) && (rest == "" || !IsDigit(rest[0]))
    ensures ScanSegments(digits + rest, segments, "") == None
  {
    ScanDigits(digits, rest, segments, "");
    assert "" + digits == digits;
  }

  lemma DottedStartsWithDigit(ns: seq<nat>, tail: string)
    requires (forall n :: n in ns ==> n <= U64_MAX) && tail != "" && IsDigit(tail[0])
    ensures Dotted(ns, tail) != "" && IsDigit(Dotted(ns, tail)[0])
  {
    if ns != [] {
      assert ns[0] in ns;
      NumeralReads(ns[0]);
      assert Decimal.Print(ns[0])[0] in Decimal.Print(ns[0]);
    }
  }

  /** A superfluous zero or an overflow in the first, second or third component makes the whole text no version,
      behind any text without digits and whatever follows. */
  lemma UnreadableIsRefused(before: string, ns: seq<nat>, digits: string, rest: string)
    requires forall c :: c in before ==> !IsDigit(c)
    requires |ns| <= 2 && forall n :: n in ns ==> n <= U64_MAX
    requires Unreadable(digits) && (rest == "" || !IsDigit(rest[0]))
    ensures Coerced(before + Dotted(ns, digits + rest)) == None
  {
    var s := Dotted(ns, digits + rest);
    assert (digits + rest)[0] == digits[0] && digits[0] in digits;
    DottedStartsWithDigit(ns, digits + rest);
    FirstDigitAfter(before, s);
    assert (before + s)[|before|..] == s;
    ScanDotted(ns, digits + rest, []);
    assert [] + ns == ns;
    ScanRefuses(digits, rest, ns);
  }
}
