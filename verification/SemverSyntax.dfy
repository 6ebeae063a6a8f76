/** Version ranges as syntax trees, their canonical text, and that reading the text back and
    evaluating it decides membership in the set of versions the tree stands for. */
module SemverSyntax {
  import opened Wrappers
  import opened Text
  import opened Semver
  import opened SemverMeaning
  import Decimal

  // ----- trees -----

  datatype Tag = NoTag | Prerelease(text: string) | Build(text: string)

  datatype Wildcard = LowerX | UpperX | Star

  /** One to three components, numbers first and then wildcards, and a tag: `1`, `1.2.x`, `1.*.*`, `1.2.3-rc`. */
  datatype VersionTerm = Term(major: nat, more: seq<nat>, wildcards: seq<Wildcard>, tag: Tag) {
    function Numbers(): (ns: seq<nat>)
      ensures |ns| == 1 + |more|
    {
      [major] + more
    }
  }

  datatype Comparator = Comparator(op: Operator, version: VersionTerm)

  /** A list of comparators that must all hold (the empty list is written `*`), or a hyphen range. */
  datatype Clause = All(comparators: seq<Comparator>) | Hyphen(lower: VersionTerm, upper: VersionTerm)

  function Denotes(t: VersionTerm): PartialVersion {
    PartialVersion(Some(t.major), Nth(t.more, 0), Nth(t.more, 1), t.tag.Prerelease?)
  }

  /** The versions a clause admits. */
  ghost predicate Admits(c: Clause, v: Triple) {
    match c
    case All(cs) => forall x :: x in cs ==> Means(x.op, Denotes(x.version), v)
    case Hyphen(lower, upper) => !Below(v, Denotes(lower)) && !Above(v, Denotes(upper))
  }

  /** The versions a range admits: those of any of its OR branches. */
  ghost predicate Member(r: seq<Clause>, v: Triple) {
    exists c :: c in r && Admits(c, v)
  }

  /** Components stay below 2^64 - 1, so that adding one cannot overflow; a tag is one word without a bar. */
  predicate TermOk(t: VersionTerm) {
    && |t.Numbers()| + |t.wildcards| <= 3
    && (forall n :: n in t.Numbers() ==> n < U64_MAX)
    && (t.tag.NoTag? || forall x :: x in t.tag.text ==> !IsSpace(x) && x != '|')
  }

  predicate ClauseOk(c: Clause) {
    match c
    case All(cs) => forall x :: x in cs ==> TermOk(x.version)
    case Hyphen(lower, upper) => TermOk(lower) && TermOk(upper)
  }

  // ----- canonical text -----

  function TagText(tag: Tag): string {
    match tag
    case NoTag => ""
    case Prerelease(text) => "-" + text
    case Build(text) => "+" + text
  }

  function Mark(w: Wildcard): string {
    match w
    case LowerX => "x"
    case UpperX => "X"
    case Star => "*"
  }

  function Marks(ws: seq<Wildcard>): seq<string> {
    if ws == [] then [] else [Mark(ws[0])] + Marks(ws[1..])
  }

  /** The dotted parts of a version: its numbers, then its wildcards. */
  function Parts(ns: seq<nat>, ws: seq<Wildcard>): seq<string> {
    if ns == [] then Marks(ws) else [Decimal.Print(ns[0])] + Parts(ns[1..], ws)
  }

  function JoinDots(parts: seq<string>): string {
    if parts == [] then "" else if |parts| == 1 then parts[0] else parts[0] + ['.'] + JoinDots(parts[1..])
  }

  function CoreText(t: VersionTerm): string {
    JoinDots(Parts(t.Numbers(), t.wildcards))
  }

  function TermText(t: VersionTerm): string {
    CoreText(t) + TagText(t.tag)
  }

  function OperatorText(op: Operator): string {
    match op
    case Bare => ""
    case Eq => "="
    case Less => "<"
    case AtMost => "<="
    case Greater => ">"
    case AtLeast => ">="
    case Caret => "^"
    case Tilde => "~"
  }

  function ComparatorText(c: Comparator): string {
    OperatorText(c.op) + TermText(c.version)
  }

  function ComparatorsText(cs: seq<Comparator>): string
    requires cs != []
  {
    if |cs| == 1 then ComparatorText(cs[0]) else ComparatorText(cs[0]) + " " + ComparatorsText(cs[1..])
  }

  function ClauseText(c: Clause): string {
    match c
    case All(cs) => if cs == [] then "*" else ComparatorsText(cs)
    case Hyphen(lower, upper) => TermText(lower) + " - " + TermText(upper)
  }

  function ClauseTexts(r: seq<Clause>): (texts: seq<string>)
    ensures |texts| == |r|
  {
    if r == [] then [] else [ClauseText(r[0])] + ClauseTexts(r[1..])
  }

  function Join(texts: seq<string>): string
    requires texts != []
  {
    if |texts| == 1 then texts[0] else texts[0] + " || " + Join(texts[1..])
  }

  function RangeText(r: seq<Clause>): string
    requires r != []
  {
    Join(ClauseTexts(r))
  }

  // ----- splitting -----

  lemma {:induction false} SplitOrWithout(s: string)
    requires '|' !in s
    ensures SplitOr(s) == [s]
  {
    if s != "" {
      SplitOrWithout(s[1..]);
      assert s[0] in s;
      assert [s[0]] + s[1..] == s;
    }
  }

  lemma {:induction false} SplitOrAtFirst(a: string, rest: string)
    requires '|' !in a
    ensures SplitOr(a + "||" + rest) == [a] + SplitOr(rest)
  {
    var s := a + "||" + rest;
    if a == "" {
      assert s[2..] == rest && s[..2] == "||";
    } else {
      SplitOrAtFirst(a[1..], rest);
      assert s[1..] == a[1..] + "||" + rest;
      assert s[0] == a[0] && a[0] in a;
      assert [a[0]] + a[1..] == a;
    }
  }

  /** A non-empty string without white space. */
  predicate IsWord(s: string) {
    s != "" && forall c :: c in s ==> !IsSpace(c)
  }

  lemma {:induction false} WordsOfWord(word: string, s: string)
    requires word + s != "" && forall c :: c in s ==> !IsSpace(c)
    ensures Words(s, word) == [word + s]
    decreases s
  {
    if s == "" {
      assert word + s == word;
    } else {
      assert s[0] in s;
      WordsOfWord(word + [s[0]], s[1..]);
      assert word + [s[0]] + s[1..] == word + s;
    }
  }

  lemma {:induction false} WordsAtSpace(word: string, s: string, rest: string)
    requires word + s != "" && forall c :: c in s ==> !IsSpace(c)
    ensures Words(s + " " + rest, word) == [word + s] + Words(rest, "")
    decreases s
  {
    var t := s + " " + rest;
    if s == "" {
      assert t[0] == ' ' && t[1..] == rest && word + s == word;
    } else {
      assert s[0] in s && t[0] == s[0] && t[1..] == s[1..] + " " + rest;
      WordsAtSpace(word + [s[0]], s[1..], rest);
      assert word + [s[0]] + s[1..] == word + s;
    }
  }

  lemma {:induction false} NoDash(s: string)
    requires forall i :: 0 <= i < |s| - 1 && s[i] == ' ' ==> s[i + 1] != '-'
    ensures DashCount(s) == 0
  {
    if s != "" {
      NoDash(s[1..]);
    }
  }

  lemma {:induction false} OneDash(a: string, b: string)
    requires (forall c :: c in a ==> !IsSpace(c)) && (forall c :: c in b ==> !IsSpace(c))
    ensures DashCount(a + " - " + b) == 1 && DashIndex(a + " - " + b) == |a|
  {
    var s := a + " - " + b;
    if a == "" {
      assert s[..3] == " - " && s[3..] == b;
      assert forall i :: 0 <= i < |b| ==> b[i] in b;
      NoDash(b);
    } else {
      assert s[0] == a[0] && a[0] in a && s[1..] == a[1..] + " - " + b;
      OneDash(a[1..], b);
    }
  }

  // ----- one version -----

  lemma {:induction false} PrintReadsBack(n: nat)
    requires n <= U64_MAX
    ensures ParseNoLeadingZero(Decimal.Print(n)) == Some(n)
    ensures '.' !in Decimal.Print(n) && !IsWildcard(Decimal.Print(n)) && Decimal.Print(n) != ""
  {
    var s := Decimal.Print(n);
    Decimal.PrintIsCanonical(n);
    assert s[0] in s;
  }

  lemma {:induction false} TagStarts(core: string, tag: string)
    requires forall i :: 0 <= i < |core| ==> core[i] != '-' && core[i] != '+'
    requires tag == "" || tag[0] == '-' || tag[0] == '+'
    ensures TagIndex(core + tag) == |core|
  {
    if core != "" {
      assert (core + tag)[1..] == core[1..] + tag;
      TagStarts(core[1..], tag);
    } else {
      assert core + tag == tag;
    }
  }

  /** A part of a version: a number or a wildcard. */
  predicate PartOk(s: string) {
    s != "" && forall i :: 0 <= i < |s| ==> IsDigit(s[i]) || s[i] == 'x' || s[i] == 'X' || s[i] == '*'
  }

  lemma {:induction false} NumeralIsPart(n: nat)
    ensures PartOk(Decimal.Print(n)) && IsDigit(Decimal.Print(n)[0])
  {
    var s := Decimal.Print(n);
    Decimal.PrintIsCanonical(n);
    assert forall i :: 0 <= i < |s| ==> s[i] in s;
  }

  lemma {:induction false} MarksAreParts(ws: seq<Wildcard>)
    ensures |Marks(ws)| == |ws| && forall p :: p in Marks(ws) ==> PartOk(p)
  {
    if ws != [] {
      MarksAreParts(ws[1..]);
    }
  }

  lemma {:induction false} PartsAreParts(ns: seq<nat>, ws: seq<Wildcard>)
    ensures |Parts(ns, ws)| == |ns| + |ws| && forall p :: p in Parts(ns, ws) ==> PartOk(p)
    ensures ns != [] ==> IsDigit(Parts(ns, ws)[0][0])
  {
    if ns == [] {
      MarksAreParts(ws);
    } else {
      NumeralIsPart(ns[0]);
      PartsAreParts(ns[1..], ws);
    }
  }

  /** Parts joined by dots. */
  predicate CoreOk(s: string) {
    s != "" && forall i :: 0 <= i < |s| ==> IsDigit(s[i]) || s[i] == '.' || s[i] == 'x' || s[i] == 'X' || s[i] == '*'
  }

  lemma {:induction false} JoinedParts(parts: seq<string>)
    requires parts != [] && forall p :: p in parts ==> PartOk(p)
    ensures CoreOk(JoinDots(parts)) && parts[0] <= JoinDots(parts)
    ensures Split(JoinDots(parts), '.') == parts
  {
    var first := parts[0];
    assert PartOk(first) && '.' !in first;
    if |parts| == 1 {
      SplitWithout(first, '.');
      assert parts == [first];
    } else {
      JoinedParts(parts[1..]);
      SplitAtFirst(first, '.', JoinDots(parts[1..]));
      assert parts == [first] + parts[1..];
    }
  }

  lemma ReadOneMark(w: Wildcard, rest: seq<string>, i: nat, read: seq<nat>, hit: bool)
    requires i < 3
    ensures ReadParts([Mark(w)] + rest, i, read, hit) == ReadParts(rest, i + 1, read, true)
  {
    assert ([Mark(w)] + rest)[1..] == rest;
  }

  lemma {:induction false} ReadMarks(ws: seq<Wildcard>, i: nat, read: seq<nat>, hit: bool)
    requires i + |ws| <= 3
    ensures ReadParts(Marks(ws), i, read, hit) == Some(read)
    decreases ws
  {
    if ws != [] {
      ReadOneMark(ws[0], Marks(ws[1..]), i, read, hit);
      ReadMarks(ws[1..], i + 1, read, true);
    }
  }

  lemma ReadOneNumber(n: nat, rest: seq<string>, i: nat, read: seq<nat>)
    requires i < 3 && n <= U64_MAX
    ensures ReadParts([Decimal.Print(n)] + rest, i, read, false) == ReadParts(rest, i + 1, read + [n], false)
  {
    PrintReadsBack(n);
    assert ([Decimal.Print(n)] + rest)[1..] == rest;
  }

  /** Reading the parts gives the numbers back and skips the wildcards. */
  lemma {:induction false} PartsReadBack(ns: seq<nat>, ws: seq<Wildcard>, i: nat, read: seq<nat>)
    requires i + |ns| + |ws| <= 3 && forall n :: n in ns ==> n < U64_MAX
    ensures ReadParts(Parts(ns, ws), i, read, false) == Some(read + ns)
    decreases ns
  {
    if ns == [] {
      ReadMarks(ws, i, read, false);
      assert read + ns == read;
    } else {
      assert ns[0] in ns && forall n :: n in ns[1..] ==> n in ns;
      ReadOneNumber(ns[0], Parts(ns[1..], ws), i, read);
      PartsReadBack(ns[1..], ws, i + 1, read + [ns[0]]);
      assert read + [ns[0]] + ns[1..] == read + ns;
    }
  }

  lemma CoreReads(t: VersionTerm)
    requires TermOk(t)
    ensures CoreOk(CoreText(t)) && IsDigit(CoreText(t)[0])
    ensures ReadParts(Split(CoreText(t), '.'), 0, [], false) == Some(t.Numbers())
  {
    PartsAreParts(t.Numbers(), t.wildcards);
    JoinedParts(Parts(t.Numbers(), t.wildcards));
    assert PartOk(Parts(t.Numbers(), t.wildcards)[0]);
    PartsReadBack(t.Numbers(), t.wildcards, 0, []);
    assert [] + t.Numbers() == t.Numbers();
  }

  /** The text of a version is one word that starts with a digit and holds no bar. */
  lemma {:induction false} TermIsWord(t: VersionTerm)
    requires TermOk(t)
    ensures IsWord(TermText(t)) && IsDigit(TermText(t)[0]) && '|' !in TermText(t)
  {
    CoreReads(t);
    assert forall c :: c in TagText(t.tag) ==> !IsSpace(c) && c != '|';
    WordsJoin(CoreText(t), TagText(t.tag));
  }

  lemma WordsJoin(s: string, t: string)
    requires CoreOk(s) && forall c :: c in t ==> !IsSpace(c) && c != '|'
    ensures IsWord(s + t) && '|' !in s + t && (s + t)[0] == s[0]
  {
    forall c | c in s
      ensures !IsSpace(c) && c != '|'
    {
      var i :| 0 <= i < |s| && s[i] == c;
    }
  }

  lemma {:induction false} WordIsTrimmed(s: string)
    requires IsWord(s)
    ensures Trim(s) == s
  {
    assert s[0] in s && s[|s| - 1] in s;
    TrimOfTrimmed(s);
  }

  lemma TaggedReads(core: string, tag: string, ns: seq<nat>)
    requires CoreOk(core) && IsDigit(core[0]) && IsWord(core + tag) && (tag == "" || tag[0] == '-' || tag[0] == '+')
    requires ReadParts(Split(core, '.'), 0, [], false) == Some(ns) && ns != []
    ensures ParsePartialVersion(core + tag) ==
            Some(PartialVersion(Nth(ns, 0), Nth(ns, 1), Nth(ns, 2), tag != "" && tag[0] == '-'))
  {
    var s := core + tag;
    WordIsTrimmed(s);
    assert StripV(s) == s;
    TagStarts(core, tag);
    assert s[..|core|] == core;
    assert tag != "" ==> s[|core|] == tag[0];
  }

  /** Reading a printed version gives the version back. */
  lemma TermReadsBack(t: VersionTerm)
    requires TermOk(t)
    ensures ParsePartialVersion(TermText(t)) == Some(Denotes(t))
  {
    TermIsWord(t);
    CoreReads(t);
    TaggedReads(CoreText(t), TagText(t.tag), t.Numbers());
  }

  // ----- comparators -----

  lemma {:induction false} ComparatorIsWord(c: Comparator)
    requires TermOk(c.version)
    ensures IsWord(ComparatorText(c)) && '|' !in ComparatorText(c) && ComparatorText(c)[0] != '-'
    ensures !MatchesEverything(ComparatorText(c))
  {
    TermIsWord(c.version);
    OperatorJoins(c.op, TermText(c.version));
  }

  lemma OperatorJoins(op: Operator, term: string)
    requires IsWord(term) && IsDigit(term[0]) && '|' !in term
    ensures var s := OperatorText(op) + term;
            && IsWord(s) && '|' !in s && s[0] != '-' && !MatchesEverything(s)
            && SplitOperator(s) == (op, term)
  {
    var text := OperatorText(op);
    var s := text + term;
    assert s[|text|] == term[0] && s[|text|..] == term;
    assert text != "" ==> s[0] == text[0];
    assert |text| == 2 ==> s[1] == text[1];
    assert forall x :: x in text ==> !IsSpace(x) && x != '|';
  }

  lemma {:induction false} ComparatorReadsBack(c: Comparator)
    requires TermOk(c.version)
    ensures ParseComparatorBounds(ComparatorText(c)) == Some(ComparatorBounds(c.op, Denotes(c.version)))
  {
    ComparatorIsWord(c);
    WordIsTrimmed(ComparatorText(c));
    TermIsWord(c.version);
    OperatorJoins(c.op, TermText(c.version));
    WordIsTrimmed(TermText(c.version));
    TermReadsBack(c.version);
  }

  /** A space after an operator is accepted, but the operator is then a word of its own that admits every
      version: the text means what the version means without it. */
  lemma SpaceDropsOperator(op: Operator, t: VersionTerm)
    requires op != Bare && TermOk(t)
    ensures ParseRangeClause(OperatorText(op) + " " + TermText(t)) == Some(ComparatorBounds(Bare, Denotes(t)))
  {
    var text, term := OperatorText(op), TermText(t);
    var s := text + " " + term;
    TermIsWord(t);
    OperatorAlone(op);
    OneWordList(term);
    OneMoreWord(text, term);
    TrimOfTrimmed(s);
    NoDash(s);
    ComparatorReadsBack(Comparator(Bare, t));
    assert OperatorText(Bare) + term == term;
    CollectStep(text, [term], [], []);
    CollectStep(term, [], [] + [], ComparatorBounds(Bare, Denotes(t)));
    assert [text] + [term] == [text, term] && [term] + [] == [term];
    assert [] + [] + ComparatorBounds(Bare, Denotes(t)) == ComparatorBounds(Bare, Denotes(t));
  }

  lemma OperatorAlone(op: Operator)
    requires op != Bare
    ensures IsWord(OperatorText(op)) && '|' !in OperatorText(op) && OperatorText(op)[0] != '-'
    ensures ParseComparatorBounds(OperatorText(op)) == Some([])
  {
    var text := OperatorText(op);
    assert forall x :: x in text ==> !IsSpace(x) && x != '|';
    WordIsTrimmed(text);
    assert SplitOperator(text).1 == "" && Trim("") == "";
  }

  // ----- clauses -----

  function Tokens(cs: seq<Comparator>): seq<string> {
    if cs == [] then [] else [ComparatorText(cs[0])] + Tokens(cs[1..])
  }

  /** All bounds of a comparator list, in order. */
  function BoundsOf(cs: seq<Comparator>): seq<Bound> {
    if cs == [] then [] else ComparatorBounds(cs[0].op, Denotes(cs[0].version)) + BoundsOf(cs[1..])
  }

  function ClauseBounds(c: Clause): seq<Bound> {
    match c
    case All(cs) => BoundsOf(cs)
    case Hyphen(lower, upper) => HyphenBounds(Denotes(lower), Denotes(upper))
  }

  /** What the text of a clause is like: trimmed, without a bar, and not mistaken for a hyphen range. */
  predicate ListText(s: string) {
    && Trimmed(s) && '|' !in s && s != "" && s[0] != '-'
    && forall i :: 0 <= i < |s| - 1 && s[i] == ' ' ==> s[i + 1] != '-'
  }

  lemma WordIsListText(s: string)
    requires IsWord(s) && '|' !in s && s[0] != '-'
    ensures ListText(s)
  {
    assert forall i :: 0 <= i < |s| ==> s[i] in s;
  }

  lemma JoinedListText(s: string, t: string)
    requires IsWord(s) && '|' !in s && s[0] != '-' && ListText(t)
    ensures ListText(s + " " + t)
  {
    assert forall i :: 0 <= i < |s| ==> s[i] in s;
    var j := s + " " + t;
    assert j[|j| - 1] == t[|t| - 1];
  }

  lemma OneWordList(first: string)
    requires IsWord(first) && '|' !in first && first[0] != '-'
    ensures ListText(first) && Words(first, "") == [first]
  {
    WordIsListText(first);
    WordsOfWord("", first);
    assert "" + first == first;
  }

  lemma OneMoreWord(first: string, rest: string)
    requires IsWord(first) && '|' !in first && first[0] != '-' && ListText(rest)
    ensures var s := first + " " + rest;
            ListText(s) && !MatchesEverything(s) && Words(s, "") == [first] + Words(rest, "")
  {
    JoinedListText(first, rest);
    WordsAtSpace("", first, rest);
    assert "" + first == first;
  }

  lemma {:induction false} ComparatorsTextIsList(cs: seq<Comparator>)
    requires cs != [] && forall c :: c in cs ==> TermOk(c.version)
    ensures ListText(ComparatorsText(cs))
    ensures Words(ComparatorsText(cs), "") == Tokens(cs)
    ensures !MatchesEverything(ComparatorsText(cs))
  {
    ComparatorIsWord(cs[0]);
    if |cs| == 1 {
      OneWordList(ComparatorText(cs[0]));
      assert cs[1..] == [];
    } else {
      ComparatorsTextIsList(cs[1..]);
      OneMoreWord(ComparatorText(cs[0]), ComparatorsText(cs[1..]));
    }
  }

  lemma CollectStep(text: string, rest: seq<string>, bounds: seq<Bound>, b: seq<Bound>)
    requires ParseComparatorBounds(text) == Some(b)
    ensures CollectBounds([text] + rest, bounds) == CollectBounds(rest, bounds + b)
  {
    assert ([text] + rest)[1..] == rest;
  }

  lemma TokenStep(c: Comparator, rest: seq<string>, bounds: seq<Bound>)
    requires TermOk(c.version)
    ensures CollectBounds([ComparatorText(c)] + rest, bounds)
            == CollectBounds(rest, bounds + ComparatorBounds(c.op, Denotes(c.version)))
  {
    ComparatorReadsBack(c);
    CollectStep(ComparatorText(c), rest, bounds, ComparatorBounds(c.op, Denotes(c.version)));
  }

  lemma GroupBounds(x: seq<Bound>, y: seq<Bound>, z: seq<Bound>)
    ensures x + y + z == x + (y + z)
  {
  }

  lemma {:induction false} TokensReadBack(cs: seq<Comparator>, bounds: seq<Bound>)
    requires forall c :: c in cs ==> TermOk(c.version)
    ensures CollectBounds(Tokens(cs), bounds) == Some(bounds + BoundsOf(cs))
    decreases cs
  {
    if cs == [] {
      assert bounds + [] == bounds;
    } else {
      var b := ComparatorBounds(cs[0].op, Denotes(cs[0].version));
      TokenStep(cs[0], Tokens(cs[1..]), bounds);
      TokensReadBack(cs[1..], bounds + b);
      GroupBounds(bounds, b, BoundsOf(cs[1..]));
    }
  }

  lemma HyphenShape(a: string, b: string)
    requires IsWord(a) && IsWord(b) && '|' !in a && '|' !in b
    ensures var s := a + " - " + b; BranchText(s) && !MatchesEverything(s)
  {
    var s := a + " - " + b;
    assert s[0] == a[0] && s[|s| - 1] == b[|b| - 1];
    assert a[0] in a && b[|b| - 1] in b;
  }

  lemma HyphenSplits(a: string, b: string)
    requires IsWord(a) && IsWord(b) && '|' !in a && '|' !in b
    ensures ParseRangeClause(a + " - " + b) ==
            match (ParsePartialVersion(a), ParsePartialVersion(b))
            case (Some(lower), Some(upper)) => Some(HyphenBounds(lower, upper))
            case _ => None
  {
    var s := a + " - " + b;
    HyphenShape(a, b);
    TrimOfTrimmed(s);
    OneDash(a, b);
    assert s[..|a|] == a && s[|a| + 3..] == b;
    WordIsTrimmed(a);
    WordIsTrimmed(b);
  }

  /** What the text of an OR branch is like. */
  predicate BranchText(s: string) {
    s != "" && Trimmed(s) && '|' !in s
  }

  /** Reading a printed clause gives its bounds. */
  lemma ClauseReadsBack(c: Clause)
    requires ClauseOk(c)
    ensures BranchText(ClauseText(c)) && ParseRangeClause(ClauseText(c)) == Some(ClauseBounds(c))
  {
    match c
    case Hyphen(lower, upper) =>
      TermIsWord(lower);
      TermIsWord(upper);
      HyphenShape(TermText(lower), TermText(upper));
      HyphenSplits(TermText(lower), TermText(upper));
      TermReadsBack(lower);
      TermReadsBack(upper);
    case All(cs) =>
      if cs == [] {
        TrimOfTrimmed("*");
      } else {
        var s := ComparatorsText(cs);
        ComparatorsTextIsList(cs);
        TrimOfTrimmed(s);
        NoDash(s);
        TokensReadBack(cs, []);
        assert [] + BoundsOf(cs) == BoundsOf(cs);
      }
  }

  lemma {:induction false} BoundsOfMean(cs: seq<Comparator>, v: Triple)
    ensures EvalAll(v, BoundsOf(cs)) <==> Admits(All(cs), v)
  {
    if cs != [] {
      BoundsOfMean(cs[1..], v);
      ComparatorMeaning(cs[0].op, Denotes(cs[0].version), v);
      assert forall x :: x in cs <==> x == cs[0] || x in cs[1..];
      assert EvalAll(v, BoundsOf(cs)) <==>
        EvalAll(v, ComparatorBounds(cs[0].op, Denotes(cs[0].version))) && EvalAll(v, BoundsOf(cs[1..]));
    }
  }

  /** The bounds of a clause admit exactly the versions the clause admits. */
  lemma ClauseMeaning(c: Clause, v: Triple)
    ensures EvalAll(v, ClauseBounds(c)) <==> Admits(c, v)
  {
    match c
    case All(cs) => BoundsOfMean(cs, v);
    case Hyphen(lower, upper) => HyphenMeaning(Denotes(lower), Denotes(upper), v);
  }

  // ----- ranges -----

  predicate Pad(s: string) {
    s == "" || s == " "
  }

  lemma TrimOfPadded(s: string, lead: string, trail: string)
    requires BranchText(s) && Pad(lead) && Pad(trail)
    ensures Trim(lead + s + trail) == s
  {
    var t, u := lead + s + trail, s + trail;
    assert u[0] == s[0] && TrimStart(u) == u;
    if lead == " " {
      assert t[0] == ' ' && t[1..] == u;
    } else {
      assert t == u;
    }
    assert TrimEnd(s) == s;
    if trail == " " {
      assert u[|u| - 1] == ' ' && u[..|u| - 1] == s;
    } else {
      assert u == s;
    }
  }

  /** The pieces between the bars, with the spaces that surround the bars. */
  function Pieces(lead: string, texts: seq<string>): seq<string>
    requires texts != []
    decreases texts
  {
    if |texts| == 1 then [lead + texts[0] + ""] else [lead + texts[0] + " "] + Pieces(" ", texts[1..])
  }

  lemma {:induction false} JoinSplits(lead: string, texts: seq<string>)
    requires texts != [] && Pad(lead) && forall t :: t in texts ==> BranchText(t)
    ensures SplitOr(lead + Join(texts)) == Pieces(lead, texts)
    decreases texts
  {
    var text := texts[0];
    assert BranchText(text);
    if |texts| == 1 {
      assert lead + text + "" == lead + text;
      SplitOrWithout(lead + text);
    } else {
      var rest := " " + Join(texts[1..]);
      JoinSplits(" ", texts[1..]);
      SplitOrAtFirst(lead + text + " ", rest);
      assert lead + Join(texts) == (lead + text + " ") + "||" + rest;
    }
  }

  lemma PaddedReadsAlike(text: string, lead: string, trail: string)
    requires BranchText(text) && Pad(lead) && Pad(trail)
    ensures ParseRangeClause(lead + text + trail) == ParseRangeClause(text)
  {
    TrimOfTrimmed(text);
    TrimOfPadded(text, lead, trail);
  }

  lemma CollectOneMore(text: string, rest: seq<string>, found: seq<seq<Bound>>)
    ensures CollectClauses([text] + rest, found) ==
            match ParseRangeClause(text)
            case None => None
            case Some(b) => CollectClauses(rest, found + [b])
  {
    assert ([text] + rest)[1..] == rest;
  }

  /** The spaces around the bars do not matter. */
  lemma {:induction false} PiecesReadAlike(lead: string, texts: seq<string>, found: seq<seq<Bound>>)
    requires texts != [] && Pad(lead) && forall t :: t in texts ==> BranchText(t)
    ensures CollectClauses(Pieces(lead, texts), found) == CollectClauses(texts, found)
    decreases texts
  {
    assert BranchText(texts[0]);
    var trail := if |texts| == 1 then "" else " ";
    var rest := if |texts| == 1 then [] else Pieces(" ", texts[1..]);
    PaddedReadsAlike(texts[0], lead, trail);
    CollectOneMore(lead + texts[0] + trail, rest, found);
    CollectOneMore(texts[0], texts[1..], found);
    assert [texts[0]] + texts[1..] == texts;
    if |texts| > 1 && ParseRangeClause(texts[0]).Some? {
      PiecesReadAlike(" ", texts[1..], found + [ParseRangeClause(texts[0]).value]);
    }
  }

  function AllBounds(r: seq<Clause>): seq<seq<Bound>> {
    if r == [] then [] else [ClauseBounds(r[0])] + AllBounds(r[1..])
  }

  lemma {:induction false} ClausesReadBack(r: seq<Clause>, found: seq<seq<Bound>>)
    requires forall c :: c in r ==> ClauseOk(c)
    ensures CollectClauses(ClauseTexts(r), found) == Some(found + AllBounds(r))
    ensures forall t :: t in ClauseTexts(r) ==> BranchText(t)
    decreases r
  {
    if r == [] {
      assert found + [] == found;
    } else {
      var b, texts := ClauseBounds(r[0]), ClauseTexts(r);
      ClauseReadsBack(r[0]);
      ClausesReadBack(r[1..], found + [b]);
      assert texts[1..] == ClauseTexts(r[1..]);
      assert found + [b] + AllBounds(r[1..]) == found + AllBounds(r);
    }
  }

  lemma {:induction false} AllBoundsMean(r: seq<Clause>, v: Triple)
    ensures AnyHolds(v, AllBounds(r)) <==> Member(r, v)
  {
    if r != [] {
      AllBoundsMean(r[1..], v);
      ClauseMeaning(r[0], v);
      assert forall c :: c in r <==> c == r[0] || c in r[1..];
      assert forall b :: b in AllBounds(r) <==> b == ClauseBounds(r[0]) || b in AllBounds(r[1..]);
      assert ClauseBounds(r[0]) in AllBounds(r) && r[0] in r;
    }
  }

  lemma {:induction false} JoinIsTrimmed(texts: seq<string>)
    requires texts != [] && forall t :: t in texts ==> BranchText(t)
    ensures Trimmed(Join(texts)) && Join(texts) != ""
  {
    assert BranchText(texts[0]);
    if |texts| > 1 {
      JoinIsTrimmed(texts[1..]);
      var s, rest := Join(texts), Join(texts[1..]);
      assert s[0] == texts[0][0] && s[|s| - 1] == rest[|rest| - 1];
    }
  }

  lemma RangeTextIsNotEmpty(r: seq<Clause>)
    requires r != [] && forall c :: c in r ==> ClauseOk(c)
    ensures RangeText(r) != ""
  {
    ClausesReadBack(r, []);
    JoinIsTrimmed(ClauseTexts(r));
  }

  /** The engine is right: on the text of any range, `satisfies` decides membership in the versions
      the range stands for. */
  lemma SatisfiesMeansMember(r: seq<Clause>, v: Triple)
    requires r != [] && forall c :: c in r ==> ClauseOk(c)
    ensures Satisfies(v, RangeText(r)) <==> Member(r, v)
  {
    var texts, s := ClauseTexts(r), RangeText(r);
    ClausesReadBack(r, []);
    JoinIsTrimmed(texts);
    TrimOfTrimmed(s);
    assert "" + s == s;
    JoinSplits("", texts);
    PiecesReadAlike("", texts, []);
    assert [] + AllBounds(r) == AllBounds(r);
    AllBoundsMean(r, v);
  }
}
