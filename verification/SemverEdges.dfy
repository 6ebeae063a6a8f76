/** Version texts off the canonical form: what is accepted all the same, and what makes a text no version. */
module SemverEdges {
  import opened Wrappers
  import opened Text
  import opened Semver
  import opened SemverSyntax
  import Coerce
  import Decimal

  /** One leading `v`, in either case, and white space around are dropped; a second `v` is refused. */
  lemma {:induction false} PrefixedTerm(t: VersionTerm, lead: string, trail: string, v: char)
    requires TermOk(t) && (forall c :: c in lead + trail ==> IsSpace(c)) && (v == 'v' || v == 'V')
    ensures ParsePartialVersion(lead + TermText(t) + trail) == Some(Denotes(t))
    ensures ParsePartialVersion(lead + ([v] + TermText(t)) + trail) == Some(Denotes(t))
    ensures ParsePartialVersion(['v', v] + TermText(t)) == None
  {
    var term := TermText(t);
    TermIsWord(t);
    TermReadsBack(t);
    WordIsTrimmed(term);
    assert forall c :: c in lead ==> c in lead + trail;
    assert forall c :: c in trail ==> c in lead + trail;
    assert Trimmed(term) && Trimmed([v] + term) by {
      assert term[0] in term && term[|term| - 1] in term;
    }
    TrimDrops(lead, term, trail);
    TrimDrops(lead, [v] + term, trail);
    StrippedOnce(v, term);
    SecondVIsRefused(v, term);
  }

  lemma StrippedOnce(v: char, term: string)
    requires v == 'v' || v == 'V'
    requires term != "" && IsDigit(term[0])
    ensures StripV([v] + term) == term && StripV(term) == term
  {
  }

  lemma SecondVIsRefused(v: char, term: string)
    requires (v == 'v' || v == 'V') && IsWord(term)
    ensures ParsePartialVersion(['v', v] + term) == None
  {
    var raw := ['v', v] + term;
    assert Trimmed(raw) by {
      assert term[|term| - 1] in term;
    }
    TrimOfTrimmed(raw);
    var s := [v] + term;
    assert StripV(raw) == s;
    var i := TagIndex(s);
    assert i > 0 && s[..i][0] == v;
    LetterFirst(s[..i]);
  }

  /** A version part that starts with a `v` is no number and no wildcard. */
  lemma LetterFirst(part: string)
    requires part != "" && (part[0] == 'v' || part[0] == 'V')
    ensures ReadParts(Split(part, '.'), 0, [], false) == None
  {
    var first := Split(part, '.')[0];
    assert first != "" && first[0] == part[0];
    assert first[0] in first;
  }

  // ----- refused components -----

  /** A part that is neither a wildcard nor a number without superfluous zeros below 2^64. */
  predicate BadPart(part: string) {
    && part != "x" && part != "X" && part != "*"
    && (part == "" || !AllDigits(part) || (part[0] == '0' && |part| > 1) || Decimal.Value(part) > 0xFFFF_FFFF_FFFF_FFFF)
  }

  lemma BadPartIsNone(part: string)
    requires BadPart(part) && part != "" && part[0] != '+'
    ensures ParseNoLeadingZero(part) == None
  {
  }

  lemma {:induction false} BadPartSpoils(parts: seq<string>, i: nat, read: seq<nat>, k: nat)
    requires k < |parts| && i + k < 3 && BadPart(parts[k]) && (parts[k] != "" ==> parts[k][0] != '+')
    requires forall j :: 0 <= j < k ==> parts[j] != "x" && parts[j] != "X" && parts[j] != "*"
    ensures ReadParts(parts, i, read, false) == None
    decreases k
  {
    if k == 0 {
      if parts[0] != "" {
        BadPartIsNone(parts[0]);
      }
    } else if parts[0] != "" && ParseNoLeadingZero(parts[0]).Some? {
      BadPartSpoils(parts[1..], i + 1, read + [ParseNoLeadingZero(parts[0]).value], k - 1);
    }
  }

  lemma {:induction false} NoTag(s: string)
    requires '-' !in s && '+' !in s
    ensures TagIndex(s) == |s|
  {
    if s != "" {
      assert s[0] in s;
      NoTag(s[1..]);
    }
  }

  /** Such a part before any wildcard makes the text no version; so does a fourth part. */
  lemma {:induction false} BadPartIsRefused(raw: string, k: nat)
    requires Trimmed(raw) && raw != "" && raw[0] != 'v' && raw[0] != 'V' && '-' !in raw && '+' !in raw
    requires k < |Split(raw, '.')|
    requires k == 3 || (k < 3 && BadPart(Split(raw, '.')[k]))
    requires forall j :: 0 <= j < k && k < 3 ==> Split(raw, '.')[j] != "x" && Split(raw, '.')[j] != "X" && Split(raw, '.')[j] != "*"
    ensures ParsePartialVersion(raw) == None
  {
    var parts := Split(raw, '.');
    TrimOfTrimmed(raw);
    NoTag(raw);
    assert raw[..|raw|] == raw;
    if k < 3 {
      PartsHaveNoPlus(raw, k);
      BadPartSpoils(parts, 0, [], k);
    }
  }

  lemma PartsHaveNoPlus(raw: string, k: nat)
    requires '+' !in raw && k < |Split(raw, '.')|
    ensures '+' !in Split(raw, '.')[k]
  {
    PartsComeFrom(raw);
    assert Split(raw, '.')[k] in Split(raw, '.');
  }

  lemma {:induction false} PartsComeFrom(raw: string)
    ensures forall part, c :: part in Split(raw, '.') && c in part ==> c in raw
  {
    if raw != "" {
      PartsComeFrom(raw[1..]);
      assert raw == [raw[0]] + raw[1..];
      assert Split(raw[1..], '.')[0] in Split(raw[1..], '.');
    }
  }

  // ----- behind a wildcard -----

  /** A text without spaces, tags and leading `v` is read part by part. */
  lemma {:induction false} PlainTextReads(raw: string)
    requires raw != "" && raw[0] != 'v' && raw[0] != 'V' && forall c :: c in raw ==> !IsSpace(c) && c != '-' && c != '+'
    ensures ParsePartialVersion(raw) ==
            match ReadParts(Split(raw, '.'), 0, [], false)
            case None => None
            case Some(ns) => if ns == [] then None else Some(PartialVersion(Nth(ns, 0), Nth(ns, 1), Nth(ns, 2), false))
  {
    assert raw[0] in raw && raw[|raw| - 1] in raw;
    TrimOfTrimmed(raw);
    NoTag(raw);
    assert raw[..|raw|] == raw;
  }

  predicate Junk(s: string) {
    forall c :: c in s ==> !IsSpace(c) && c != '.' && c != '-' && c != '+'
  }

  lemma JoinedJunk(first: string, rest: string)
    requires forall c :: c in first + rest ==> !IsSpace(c) && c != '-' && c != '+'
    ensures forall c :: c in first + "." + rest ==> !IsSpace(c) && c != '-' && c != '+'
  {
  }

  lemma NumeralIsJunk(n: nat)
    ensures Junk(Decimal.Print(n)) && Decimal.Print(n) != "" && IsDigit(Decimal.Print(n)[0])
  {
    var s := Decimal.Print(n);
    NumeralIsPart(n);
    forall c | c in s
      ensures !IsSpace(c) && c != '.' && c != '-' && c != '+'
    {
      var i :| 0 <= i < |s| && s[i] == c;
    }
  }

  /** What follows a wildcard is not looked at, as long as there are at most three parts. */
  lemma {:induction false} NothingBehindWildcard(n: nat, mark: string, junk: string)
    requires n <= U64_MAX && (mark == "x" || mark == "X" || mark == "*") && Junk(junk)
    ensures ParsePartialVersion(Decimal.Print(n) + "." + (mark + "." + junk)) == Some(PartialVersion(Some(n), None, None, false))
  {
    NumeralIsJunk(n);
    ReadOneNumber(n, [mark, junk], 0, []);
    SkippedBehind(mark, junk, [] + [n]);
    var none: seq<nat> := [];
    assert none + [n] == [n];
    ReadBeforeJunk(Decimal.Print(n), mark, junk, n);
  }

  lemma ReadBeforeJunk(number: string, mark: string, junk: string, n: nat)
    requires Junk(number) && number != "" && IsDigit(number[0]) && Junk(mark) && Junk(junk)
    requires ReadParts([number] + [mark, junk], 0, [], false) == Some([n])
    ensures ParsePartialVersion(number + "." + (mark + "." + junk)) == Some(PartialVersion(Some(n), None, None, false))
  {
    JoinedJunk(mark, junk);
    JoinedJunk(number, mark + "." + junk);
    PlainTextReads(number + "." + (mark + "." + junk));
    NumberMarkJunk(number, mark, junk);
  }

  lemma NumberMarkJunk(number: string, mark: string, junk: string)
    requires '.' !in number && '.' !in mark && '.' !in junk
    ensures Split(number + "." + (mark + "." + junk), '.') == [number] + [mark, junk]
  {
    SplitAtFirst(number, '.', mark + "." + junk);
    SplitAtFirst(mark, '.', junk);
    SplitWithout(junk, '.');
    assert Split(mark + "." + junk, '.') == [mark, junk];
  }

  lemma SkippedBehind(mark: string, junk: string, read: seq<nat>)
    requires mark == "x" || mark == "X" || mark == "*"
    ensures ReadParts([mark, junk], 1, read, false) == Some(read)
  {
    assert [mark, junk][1..] == [junk] && [junk][1..] == [];
    assert ReadParts([junk], 2, read, true) == ReadParts([], 3, read, true);
  }

  /** A wildcard in front leaves nothing to compare with. */
  lemma {:induction false} WildcardInFront(mark: string, junk: string)
    requires (mark == "x" || mark == "X" || mark == "*") && Junk(junk)
    ensures ParsePartialVersion(mark + "." + junk) == None
  {
    JoinedJunk(mark, junk);
    PlainTextReads(mark + "." + junk);
    SplitAtFirst(mark, '.', junk);
    SplitWithout(junk, '.');
    assert Split(mark + "." + junk, '.') == [mark, junk];
    assert [mark, junk][1..] == [junk] && [junk][1..] == [];
    assert ReadParts([junk], 1, [], true) == ReadParts([], 2, [], true);
  }

  // ----- two hyphens -----

  /** A clause with two spaced hyphens is no hyphen range but a list, and a lone hyphen is no comparator. */
  lemma {:induction false} TwoHyphensAreRefused(a: string, b: string, c: string)
    requires IsWord(a) && IsWord(b) && IsWord(c)
    ensures ParseRangeClause(a + " - " + (b + " - " + c)) == None
  {
    var s := a + " - " + (b + " - " + c);
    assert s[0] == a[0] && a[0] in a && s[|s| - 1] == c[|c| - 1] && c[|c| - 1] in c;
    TrimOfTrimmed(s);
    OneDash(b, c);
    DashInFront(a, b + " - " + c);
    assert s[|a|] == ' ';
    WordsWithHyphen(a, b + " - " + c);
    LoneHyphenSpoils(a, Words(b + " - " + c, ""));
  }

  lemma {:induction false} DashInFront(a: string, rest: string)
    requires forall c :: c in a ==> !IsSpace(c)
    ensures DashCount(a + " - " + rest) == 1 + DashCount(rest)
  {
    var s := a + " - " + rest;
    if a == "" {
      assert s[..3] == " - " && s[3..] == rest;
    } else {
      assert s[0] == a[0] && a[0] in a && s[1..] == a[1..] + " - " + rest;
      DashInFront(a[1..], rest);
    }
  }

  lemma WordsWithHyphen(a: string, rest: string)
    requires IsWord(a)
    ensures Words(a + " - " + rest, "") == [a] + (["-"] + Words(rest, ""))
  {
    WordsAtSpace("", a, "- " + rest);
    WordsAtSpace("", "-", rest);
    assert "" + a == a && "" + "-" == "-";
    assert a + " " + ("- " + rest) == a + " - " + rest && "-" + " " + rest == "- " + rest;
  }

  lemma LoneHyphenSpoils(a: string, rest: seq<string>)
    ensures CollectBounds([a] + (["-"] + rest), []) == None
  {
    assert ([a] + (["-"] + rest))[1..] == ["-"] + rest;
    TrimOfTrimmed("-");
    assert TagIndex("-") == 0 && ParsePartialVersion("-") == None;
    assert ParseComparatorBounds("-") == None;
  }

  // ----- clients' versions -----

  /** A client's version text without a digit names no version. */
  lemma NoDigitsNoVersion(s: string)
    requires forall c :: c in s ==> !IsDigit(c)
    ensures Coerce.Coerced(s) == None
  {
    assert forall k :: 0 <= k < |s| ==> s[k] in s;
  }

  // ----- ranges that admit everything -----

  /** A blank range, a lone wildcard, and an operator before a wildcard admit every version. */
  lemma {:induction false} EverythingIsAdmitted(v: Triple, op: Operator, mark: string)
    requires mark == "*" || mark == "x" || mark == "X"
    ensures Satisfies(v, "")
    ensures Satisfies(v, OperatorText(op) + mark)
  {
    var s := OperatorText(op) + mark;
    assert Trim("") == "";
    MarkedIsWord(op, mark);
    WordIsTrimmed(s);
    assert ParseRangeClause(s) == Some([]) by {
      MarkedClause(op, mark);
    }
    SplitOrWithout(s);
    OneOpenClause(v, s);
  }

  /** A range of one clause without bounds admits every version. */
  lemma OneOpenClause(v: Triple, clause: string)
    requires ParseRangeClause(clause) == Some([])
    ensures CollectClauses([clause], []).Some? && AnyHolds(v, CollectClauses([clause], []).value)
  {
    var none: seq<Bound> := [];
    assert [clause][1..] == [];
    assert [] + [none] == [none];
    assert none in [none] && EvalAll(v, none);
  }

  lemma MarkedIsWord(op: Operator, mark: string)
    requires mark == "*" || mark == "x" || mark == "X"
    ensures IsWord(OperatorText(op) + mark) && '|' !in OperatorText(op) + mark && (OperatorText(op) + mark)[0] != '-'
  {
    var text := OperatorText(op);
    assert forall x :: x in text ==> !IsSpace(x) && x != '|';
    assert mark[0] in text + mark;
  }

  lemma MarkedClause(op: Operator, mark: string)
    requires mark == "*" || mark == "x" || mark == "X"
    ensures ParseRangeClause(OperatorText(op) + mark) == Some([])
  {
    var s := OperatorText(op) + mark;
    MarkedIsWord(op, mark);
    WordIsTrimmed(s);
    MarkedBounds(op, mark);
    OneWordClause(s);
  }

  /** A word without bounds is a clause without bounds. */
  lemma OneWordClause(s: string)
    requires IsWord(s) && '|' !in s && s[0] != '-' && ParseComparatorBounds(s) == Some([])
    ensures ParseRangeClause(s) == Some([])
  {
    WordIsTrimmed(s);
    WordIsListText(s);
    NoDash(s);
    OneWordList(s);
    var none: seq<Bound> := [];
    CollectStep(s, [], none, none);
    assert [s] + [] == [s] && none + none == none;
  }

  lemma OperatorOfMark(op: Operator, m: char)
    requires m == '*' || m == 'x' || m == 'X'
    ensures SplitOperator(OperatorText(op) + [m]) == (op, [m])
  {
    var s := OperatorText(op) + [m];
    match op {
      case AtLeast => assert s == ['>', '=', m] && s[2..] == [m];
      case AtMost => assert s == ['<', '=', m] && s[2..] == [m];
      case Bare => assert s == [m];
      case _ => assert |s| == 2 && s[1] == m && s[1..] == [m];
    }
  }

  lemma MarkedBounds(op: Operator, mark: string)
    requires mark == "*" || mark == "x" || mark == "X"
    ensures ParseComparatorBounds(OperatorText(op) + mark) == Some([])
  {
    MarkedIsWord(op, mark);
    WordIsTrimmed(OperatorText(op) + mark);
    OperatorOfMark(op, mark[0]);
    assert mark == [mark[0]];
    TrimOfTrimmed(mark);
  }
}
