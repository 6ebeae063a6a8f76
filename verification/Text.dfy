/** Strings as sequences of Unicode scalar values, with the few operations the server applies to them. */
module Text {

  predicate IsDigit(c: char) {
    '0' <= c <= '9'
  }

  predicate AllDigits(s: string) {
    forall c :: c in s ==> IsDigit(c)
  }

  // ----- letter case, restricted to ASCII -----

  function LowerChar(c: char): char {
    if 'A' <= c <= 'Z' then (c as int + 32) as char else c
  }

  /** ASCII lower case; also the folding under which the id columns are compared. */
  function Fold(s: string): (r: string)
    ensures |r| == |s| && forall i :: 0 <= i < |s| ==> r[i] == LowerChar(s[i])
  {
    seq(|s|, i requires 0 <= i < |s| => LowerChar(s[i]))
  }

  lemma FoldTwice(s: string)
    ensures Fold(Fold(s)) == Fold(s)
  {
  }

  const UPPER := "ABCDEFGHIJKLMNOPQRSTUVWXYZ"
  const LOWER := "abcdefghijklmnopqrstuvwxyz"

  lemma AlphabetInOrder()
    ensures |UPPER| == |LOWER| == 26
    ensures forall k :: 0 <= k < 26 ==> UPPER[k] as int == 'A' as int + k && LOWER[k] as int == 'a' as int + k
  {
  }

  lemma ShiftedByAlphabet(c: char, upper: string, lower: string)
    requires |upper| == |lower| == 26
    requires forall k :: 0 <= k < 26 ==> upper[k] as int == 'A' as int + k && lower[k] as int == 'a' as int + k
    ensures forall k :: 0 <= k < 26 && c == upper[k] ==> LowerChar(c) == lower[k]
    ensures c !in upper ==> LowerChar(c) == c
  {
    if 'A' <= c <= 'Z' {
      assert upper[c as int - 'A' as int] == c;
    }
  }

  /** Each capital of the alphabet becomes the small letter at its place, and nothing else changes. */
  lemma FoldByAlphabet(s: string, i: nat)
    requires i < |s|
    ensures forall k :: 0 <= k < 26 && s[i] == UPPER[k] ==> Fold(s)[i] == LOWER[k]
    ensures s[i] !in UPPER ==> Fold(s)[i] == s[i]
  {
    AlphabetInOrder();
    ShiftedByAlphabet(s[i], UPPER, LOWER);
  }

  // ----- white space -----

  /** The Unicode White_Space property. */
  predicate IsSpace(c: char) {
    '\t' <= c <= '\r' || c == ' ' || c == '\U{85}' || c == '\U{A0}' || c == '\U{1680}'
    || '\U{2000}' <= c <= '\U{200A}' || c == '\U{2028}' || c == '\U{2029}' || c == '\U{202F}'
    || c == '\U{205F}' || c == '\U{3000}'
  }

  /** The 25 code points that have it. */
  lemma SpacesByCode(c: char)
    ensures IsSpace(c) <==>
              c as int in {0x9, 0xA, 0xB, 0xC, 0xD, 0x20, 0x85, 0xA0, 0x1680, 0x2000, 0x2001, 0x2002, 0x2003, 0x2004,
                           0x2005, 0x2006, 0x2007, 0x2008, 0x2009, 0x200A, 0x2028, 0x2029, 0x202F, 0x205F, 0x3000}
  {
  }

  function TrimStart(s: string): string {
    if s != "" && IsSpace(s[0]) then TrimStart(s[1..]) else s
  }

  function TrimEnd(s: string): string {
    if s != "" && IsSpace(s[|s| - 1]) then TrimEnd(s[..|s| - 1]) else s
  }

  function Trim(s: string): string {
    TrimEnd(TrimStart(s))
  }

  /** A string that neither starts nor ends with white space. */
  predicate Trimmed(s: string) {
    s == "" || (!IsSpace(s[0]) && !IsSpace(s[|s| - 1]))
  }

  lemma TrimOfTrimmed(s: string)
    requires Trimmed(s)
    ensures Trim(s) == s
  {
  }

  lemma {:induction false} TrimEndKeepsStart(s: string)
    requires s == "" || !IsSpace(s[0])
    ensures TrimEnd(s) == "" || (TrimEnd(s)[0] == s[0] && !IsSpace(TrimEnd(s)[|TrimEnd(s)| - 1]))
  {
    if s != "" && IsSpace(s[|s| - 1]) {
      TrimEndKeepsStart(s[..|s| - 1]);
    }
  }

  lemma {:induction false} TrimStartStops(s: string)
    ensures TrimStart(s) == "" || !IsSpace(TrimStart(s)[0])
  {
    if s != "" && IsSpace(s[0]) {
      TrimStartStops(s[1..]);
    }
  }

  lemma TrimTrims(s: string)
    ensures Trimmed(Trim(s))
  {
    TrimStartStops(s);
    TrimEndKeepsStart(TrimStart(s));
  }

  lemma {:induction false} TrimStartDrops(lead: string, rest: string)
    requires (forall c :: c in lead ==> IsSpace(c)) && (rest == "" || !IsSpace(rest[0]))
    ensures TrimStart(lead + rest) == rest
  {
    if lead == "" {
      assert lead + rest == rest;
    } else {
      assert lead[0] in lead && (lead + rest)[1..] == lead[1..] + rest;
      TrimStartDrops(lead[1..], rest);
    }
  }

  lemma {:induction false} TrimEndDrops(front: string, trail: string)
    requires (forall c :: c in trail ==> IsSpace(c)) && (front == "" || !IsSpace(front[|front| - 1]))
    ensures TrimEnd(front + trail) == front
  {
    if trail == "" {
      assert front + trail == front;
    } else {
      var n := |trail| - 1;
      assert trail[n] in trail && (front + trail)[..|front| + n] == front + trail[..n];
      TrimEndDrops(front, trail[..n]);
    }
  }

  /** Trimming removes the white space around a text, and no more. */
  lemma {:induction false} TrimDrops(lead: string, core: string, trail: string)
    requires (forall c :: c in lead ==> IsSpace(c)) && (forall c :: c in trail ==> IsSpace(c)) && Trimmed(core)
    ensures Trim(lead + core + trail) == core
  {
    if core == "" {
      assert lead + core + trail == lead + trail + "";
      forall c | c in lead + trail
        ensures IsSpace(c)
      {
      }
      TrimStartDrops(lead + trail, "");
    } else {
      assert lead + core + trail == lead + (core + trail);
      TrimStartDrops(lead, core + trail);
      TrimEndDrops(core, trail);
    }
  }

  // ----- byte-wise order -----

  /** Lexicographic order by scalar value, which is the byte order of the UTF-8 encodings. */
  predicate Less(a: string, b: string) {
    b != "" && (a == "" || a[0] < b[0] || (a[0] == b[0] && Less(a[1..], b[1..])))
  }

  predicate AtMost(a: string, b: string) {
    a == b || Less(a, b)
  }

  lemma {:induction false} LessIsIrreflexive(a: string)
    ensures !Less(a, a)
  {
    if a != "" {
      LessIsIrreflexive(a[1..]);
    }
  }

  lemma {:induction false} LessIsTransitive(a: string, b: string, c: string)
    requires Less(a, b) && Less(b, c)
    ensures Less(a, c)
  {
    if a != "" && a[0] == b[0] == c[0] {
      LessIsTransitive(a[1..], b[1..], c[1..]);
    }
  }

  lemma {:induction false} LessIsTotal(a: string, b: string)
    ensures a == b || Less(a, b) || Less(b, a)
  {
    if a != "" && b != "" && a[0] == b[0] {
      LessIsTotal(a[1..], b[1..]);
      assert a == [a[0]] + a[1..] && b == [b[0]] + b[1..];
    }
  }

  // ----- splitting -----

  /** `str::split` at a character: always at least one part. */
  function Split<T(==)>(s: seq<T>, c: T): (parts: seq<seq<T>>)
    ensures parts != []
  {
    if s == [] then [[]]
    else if s[0] == c then [[]] + Split(s[1..], c)
    else
      var rest := Split(s[1..], c);
      [[s[0]] + rest[0]] + rest[1..]
  }

  lemma {:induction false} SplitWithout<T>(s: seq<T>, c: T)
    requires c !in s
    ensures Split(s, c) == [s]
  {
    if s != [] {
      SplitWithout(s[1..], c);
      assert [s[0]] + s[1..] == s;
    }
  }

  lemma {:induction false} SplitAtFirst<T>(a: seq<T>, c: T, rest: seq<T>)
    requires c !in a
    ensures Split(a + [c] + rest, c) == [a] + Split(rest, c)
  {
    var s := a + [c] + rest;
    if a == [] {
      assert s[1..] == rest;
    } else {
      SplitAtFirst(a[1..], c, rest);
      assert s[1..] == a[1..] + [c] + rest;
      assert [a[0]] + a[1..] == a;
    }
  }

  /** The parts do not hold the separator. */
  lemma {:induction false} PartsAreFree<T>(s: seq<T>, c: T)
    ensures forall part :: part in Split(s, c) ==> c !in part
  {
    if s != [] {
      PartsAreFree(s[1..], c);
      assert Split(s[1..], c)[0] in Split(s[1..], c);
    }
  }
}
