/** Storage keys: percent-encoding of path segments and the joining of paths. */
module Uri {
  import opened Wrappers
  import opened Text

  newtype byte = x: int | 0 <= x < 256

  // ----- UTF-8 -----

  function Utf8Char(c: char): seq<byte> {
    var n := c as int;
    if n < 0x80 then [n as byte]
    else if n < 0x800 then [(0xC0 + n / 64) as byte, (0x80 + n % 64) as byte]
    else if n < 0x1_0000 then [(0xE0 + n / 4096) as byte, (0x80 + n / 64 % 64) as byte, (0x80 + n % 64) as byte]
    else [(0xF0 + n / 0x4_0000) as byte, (0x80 + n / 4096 % 64) as byte, (0x80 + n / 64 % 64) as byte, (0x80 + n % 64) as byte]
  }

  function Utf8(s: string): seq<byte> {
    if s == "" then [] else Utf8Char(s[0]) + Utf8(s[1..])
  }

  /** The length of a character's encoding, from its first byte. */
  function HeadLength(b: byte): nat {
    if b < 0x80 then 1 else if b < 0xE0 then 2 else if b < 0xF0 then 3 else 4
  }

  /** The scalar value of the encoded character at the start. */
  function HeadValue(bytes: seq<byte>): int
    requires bytes != [] && HeadLength(bytes[0]) <= |bytes|
  {
    var b := bytes[0] as int;
    match HeadLength(bytes[0])
    case 1 => b
    case 2 => (b - 0xC0) * 64 + (bytes[1] as int - 0x80)
    case 3 => (b - 0xE0) * 4096 + (bytes[1] as int - 0x80) * 64 + (bytes[2] as int - 0x80)
    case _ => (b - 0xF0) * 0x4_0000 + (bytes[1] as int - 0x80) * 4096 + (bytes[2] as int - 0x80) * 64 + (bytes[3] as int - 0x80)
  }

  lemma CharReadsBack(c: char)
    ensures var e := Utf8Char(c);
            e != [] && |e| == HeadLength(e[0]) && HeadValue(e) == c as int
  {
    var n := c as int;
    assert n == n / 64 * 64 + n % 64;
    assert n / 64 == n / 64 / 64 * 64 + n / 64 % 64 && n / 64 / 64 == n / 4096;
    assert n / 4096 == n / 4096 / 64 * 64 + n / 4096 % 64 && n / 4096 / 64 == n / 0x4_0000;
  }

  lemma {:induction false} Utf8IsInjective(s: string, t: string)
    requires Utf8(s) == Utf8(t)
    ensures s == t
  {
    if s != "" {
      CharReadsBack(s[0]);
    }
    if t != "" {
      CharReadsBack(t[0]);
    }
    if s != "" && t != "" {
      var a, b := Utf8Char(s[0]), Utf8Char(t[0]);
      assert Utf8(s)[0] == a[0] && Utf8(t)[0] == b[0];
      assert a == Utf8(s)[..|a|] == b;
      assert Utf8(s[1..]) == Utf8(s)[|a|..] == Utf8(t[1..]);
      Utf8IsInjective(s[1..], t[1..]);
      assert s == [s[0]] + s[1..] && t == [t[0]] + t[1..];
    }
  }

  // ----- percent-encoding -----

  predicate Unreserved(b: byte) {
    || 0x41 <= b <= 0x5A || 0x61 <= b <= 0x7A || 0x30 <= b <= 0x39
    || b as int as char in "-_.!~*'()"
  }

  function HexDigit(n: int): char
    requires 0 <= n < 16
  {
    if n < 10 then (n + '0' as int) as char else (n - 10 + 'A' as int) as char
  }

  function EncodeByte(b: byte): string {
    if Unreserved(b) then [b as int as char] else ['%', HexDigit(b as int / 16), HexDigit(b as int % 16)]
  }

  function EncodeBytes(bytes: seq<byte>): string {
    if bytes == [] then "" else EncodeBytes(bytes[..|bytes| - 1]) + EncodeByte(bytes[|bytes| - 1])
  }

  method EncodeUriComponent(segment: string) returns (out: string)
    ensures out == EncodeBytes(Utf8(segment))
  {
    out := "";
    var bytes := Utf8(segment);
    for i := 0 to |bytes|
      invariant out == EncodeBytes(bytes[..i])
    {
      assert bytes[..i + 1][..i] == bytes[..i];
      var b := bytes[i];
      if Unreserved(b) {
        out := out + [b as int as char];
      } else {
        out := out + ['%', HexDigit(b as int / 16), HexDigit(b as int % 16)];
      }
    }
    assert bytes[..|bytes|] == bytes;
  }

  function HexValue(c: char): Option<int> {
    if '0' <= c <= '9' then Some(c as int - '0' as int)
    else if 'A' <= c <= 'F' then Some(c as int - 'A' as int + 10)
    else if 'a' <= c <= 'f' then Some(c as int - 'a' as int + 10)
    else None
  }

  lemma HexRange(c: char)
    ensures HexValue(c).Some? ==> 0 <= HexValue(c).value < 16
  {
  }

  /** Percent-decoding as in section 2.1 of RFC 3986; None for a malformed escape. */
  function Decode(s: string): Option<seq<byte>> {
    if s == "" then Some([])
    else if s[0] == '%' then
      if |s| < 3 || HexValue(s[1]).None? || HexValue(s[2]).None? then None
      else
        match Decode(s[3..])
        case None => None
        case Some(rest) =>
          HexRange(s[1]);
          HexRange(s[2]);
          Some([(HexValue(s[1]).value * 16 + HexValue(s[2]).value) as byte] + rest)
    else if s[0] as int >= 256 then None
    else
      match Decode(s[1..])
      case None => None
      case Some(rest) => Some([s[0] as int as byte] + rest)
  }

  lemma {:induction false} DecodeOneByte(b: byte, rest: string, decoded: seq<byte>)
    requires Decode(rest) == Some(decoded)
    ensures Decode(EncodeByte(b) + rest) == Some([b] + decoded)
  {
    var s := EncodeByte(b) + rest;
    if Unreserved(b) {
      assert s[1..] == rest && s[0] != '%';
    } else {
      assert s[3..] == rest;
      assert HexValue(HexDigit(b as int / 16)) == Some(b as int / 16);
      assert HexValue(HexDigit(b as int % 16)) == Some(b as int % 16);
    }
  }

  lemma {:induction false} EncodeFront(b: byte, bytes: seq<byte>)
    ensures EncodeBytes([b] + bytes) == EncodeByte(b) + EncodeBytes(bytes)
  {
    var all := [b] + bytes;
    if bytes == [] {
      assert all[..|all| - 1] == [];
    } else {
      var front, last := bytes[..|bytes| - 1], bytes[|bytes| - 1];
      EncodeFront(b, front);
      assert all[..|all| - 1] == [b] + front && all[|all| - 1] == last;
      assert EncodeByte(b) + (EncodeBytes(front) + EncodeByte(last)) == EncodeByte(b) + EncodeBytes(front) + EncodeByte(last);
    }
  }

  /** Decoding undoes encoding, for every byte sequence. */
  lemma {:induction false} DecodeUndoesEncode(bytes: seq<byte>)
    ensures Decode(EncodeBytes(bytes)) == Some(bytes)
  {
    if bytes != [] {
      DecodeUndoesEncode(bytes[1..]);
      DecodeOneByte(bytes[0], EncodeBytes(bytes[1..]), bytes[1..]);
      EncodeFront(bytes[0], bytes[1..]);
      assert bytes == [bytes[0]] + bytes[1..];
    }
  }

  /** The unreserved characters of section 2.3 of RFC 2396. */
  predicate UnreservedChar(c: char) {
    'A' <= c <= 'Z' || 'a' <= c <= 'z' || '0' <= c <= '9' || c in "-_.!~*'()"
  }

  /** The output holds unreserved characters and escapes only, in particular no slash; and it leaves every
      byte as it is exactly when all of them are unreserved. */
  lemma {:induction false} EncodedAlphabet(bytes: seq<byte>)
    ensures forall i :: 0 <= i < |EncodeBytes(bytes)| ==> UnreservedChar(EncodeBytes(bytes)[i]) || EncodeBytes(bytes)[i] == '%'
    ensures |EncodeBytes(bytes)| >= |bytes|
    ensures |EncodeBytes(bytes)| == |bytes| <==> forall i :: 0 <= i < |bytes| ==> UnreservedChar(bytes[i] as int as char)
  {
    if bytes != [] {
      var front, b := bytes[..|bytes| - 1], bytes[|bytes| - 1];
      EncodedAlphabet(front);
      assert bytes == front + [b];
      if Unreserved(b) {
        assert UnreservedChar(b as int as char);
      } else {
        assert UnreservedChar(HexDigit(b as int / 16)) && UnreservedChar(HexDigit(b as int % 16));
        assert !UnreservedChar(bytes[|bytes| - 1] as int as char);
      }
    }
  }

  const HEX_DIGITS := "0123456789ABCDEF"

  /** Every escape is a percent sign and two hexadecimal digits in upper case. */
  lemma {:induction false} EscapesAreUpperCase(bytes: seq<byte>, i: nat)
    requires i < |EncodeBytes(bytes)| && EncodeBytes(bytes)[i] == '%'
    ensures i + 2 < |EncodeBytes(bytes)|
    ensures EncodeBytes(bytes)[i + 1] in HEX_DIGITS && EncodeBytes(bytes)[i + 2] in HEX_DIGITS
  {
    var front, b := bytes[..|bytes| - 1], bytes[|bytes| - 1];
    if i < |EncodeBytes(front)| {
      EscapesAreUpperCase(front, i);
    } else {
      HexDigitIsUpperCase(b as int / 16);
      HexDigitIsUpperCase(b as int % 16);
      assert '%' !in "-_.!~*'()";
    }
  }

  lemma HexDigitIsUpperCase(n: int)
    requires 0 <= n < 16
    ensures HexDigit(n) in HEX_DIGITS && HexDigit(n) == HEX_DIGITS[n] && HexDigit(n) != '%'
  {
    assert HexDigit(n) == HEX_DIGITS[n];
  }

  // ----- paths -----

  function Slashes(path: string): string {
    if path == "" then "" else [if path[0] == '\\' then '/' else path[0]] + Slashes(path[1..])
  }

  function NonEmpty<T>(parts: seq<seq<T>>): seq<seq<T>> {
    if parts == [] then [] else (if parts[0] == [] then [] else [parts[0]]) + NonEmpty(parts[1..])
  }

  /** The non-empty segments of a path, either slash separating. */
  function Segments(path: string): seq<string> {
    NonEmpty(Split(Slashes(path), '/'))
  }

  function EncodeAll(segments: seq<string>): seq<string> {
    if segments == [] then [] else [EncodeBytes(Utf8(segments[0]))] + EncodeAll(segments[1..])
  }

  function JoinSlash(parts: seq<string>): string {
    if parts == [] then "" else if |parts| == 1 then parts[0] else parts[0] + "/" + JoinSlash(parts[1..])
  }

  /** The key of a path relative to the storage base. */
  function RelativeKey(path: string): string {
    JoinSlash(EncodeAll(Segments(path)))
  }

  /** Joining a base path and a relative path; the URL around it is taken as text. */
  function JoinStorageUri(basePath: string, path: string): string {
    basePath + "/" + RelativeKey(path)
  }

  function DecodeAll(parts: seq<string>): Option<seq<seq<byte>>> {
    if parts == [] then Some([])
    else
      match (Decode(parts[0]), DecodeAll(parts[1..]))
      case (Some(b), Some(rest)) => Some([b] + rest)
      case _ => None
  }

  function Utf8All(segments: seq<string>): seq<seq<byte>> {
    if segments == [] then [] else [Utf8(segments[0])] + Utf8All(segments[1..])
  }

  predicate PlainPart(s: string) {
    s != "" && '/' !in s
  }

  lemma {:induction false} JoinSlashSplits(parts: seq<string>)
    requires forall p :: p in parts ==> PlainPart(p)
    ensures parts != [] ==> Split(JoinSlash(parts), '/') == parts
  {
    if parts != [] {
      assert PlainPart(parts[0]);
      if |parts| == 1 {
        SplitWithout(parts[0], '/');
        assert [parts[0]] == parts;
      } else {
        JoinSlashSplits(parts[1..]);
        SplitAtFirst(parts[0], '/', JoinSlash(parts[1..]));
        assert [parts[0]] + parts[1..] == parts;
      }
    }
  }

  lemma {:induction false} EncodedSegmentIsPlain(s: string)
    requires s != ""
    ensures PlainPart(EncodeBytes(Utf8(s)))
  {
    CharReadsBack(s[0]);
    EncodedAlphabet(Utf8(s));
    assert !UnreservedChar('/');
  }

  lemma {:induction false} EncodeAllIsPlain(segments: seq<string>)
    requires forall s :: s in segments ==> s != ""
    ensures forall p :: p in EncodeAll(segments) ==> PlainPart(p)
  {
    if segments != [] {
      assert segments[0] in segments && forall t :: t in segments[1..] ==> t in segments;
      EncodedSegmentIsPlain(segments[0]);
      EncodeAllIsPlain(segments[1..]);
    }
  }

  lemma {:induction false} EncodeAllDecodes(segments: seq<string>)
    ensures DecodeAll(EncodeAll(segments)) == Some(Utf8All(segments))
  {
    if segments != [] {
      DecodeUndoesEncode(Utf8(segments[0]));
      EncodeAllDecodes(segments[1..]);
      assert EncodeAll(segments)[1..] == EncodeAll(segments[1..]);
    }
  }

  lemma {:induction false} NonEmptyParts<T>(parts: seq<seq<T>>)
    ensures forall p :: p in NonEmpty(parts) ==> p != [] && p in parts
  {
    if parts != [] {
      NonEmptyParts(parts[1..]);
    }
  }

  /** key stands for the segments: split at its slashes and decoded it gives them back. */
  predicate IsKeyFor(key: string, segments: seq<string>) {
    if segments == [] then key == "" else DecodeAll(Split(key, '/')) == Some(Utf8All(segments))
  }

  /** Splitting and decoding a key gives back exactly the path's non-empty segments. */
  lemma KeyReadsBack(path: string)
    ensures IsKeyFor(RelativeKey(path), Segments(path))
  {
    NonEmptyParts(Split(Slashes(path), '/'));
    EncodeAllIsPlain(Segments(path));
    EncodeAllDecodes(Segments(path));
    JoinSlashSplits(EncodeAll(Segments(path)));
  }

  lemma {:induction false} Utf8AllIsInjective(a: seq<string>, b: seq<string>)
    requires Utf8All(a) == Utf8All(b)
    ensures a == b
  {
    if a != [] && b != [] {
      assert Utf8(a[0]) == Utf8All(a)[0] == Utf8All(b)[0] == Utf8(b[0]);
      Utf8IsInjective(a[0], b[0]);
      assert Utf8All(a[1..]) == Utf8All(a)[1..] == Utf8All(b)[1..] == Utf8All(b[1..]);
      Utf8AllIsInjective(a[1..], b[1..]);
      assert a == [a[0]] + a[1..] && b == [b[0]] + b[1..];
    }
  }

  /** A key stands for one list of non-empty segments. */
  lemma KeyIsForOne(key: string, a: seq<string>, b: seq<string>)
    requires IsKeyFor(key, a) && IsKeyFor(key, b)
    requires (forall s :: s in a ==> s != "") && (forall s :: s in b ==> s != "")
    ensures a == b
  {
    if a != [] && b != [] {
      Utf8AllIsInjective(a, b);
    } else if a != [] {
      EmptyKeyHasNoSegments(a);
    } else if b != [] {
      EmptyKeyHasNoSegments(b);
    }
  }

  lemma EmptyKeyHasNoSegments(a: seq<string>)
    requires IsKeyFor("", a) && forall s :: s in a ==> s != ""
    ensures a == []
  {
    if a != [] {
      assert a[0] in a;
      assert Utf8(a[0]) == Utf8All(a)[0] == [];
      Utf8IsInjective(a[0], "");
    }
  }

  /** Two paths share a key exactly when they have the same non-empty segments. */
  lemma SameKeySameSegments(p: string, q: string)
    ensures RelativeKey(p) == RelativeKey(q) <==> Segments(p) == Segments(q)
  {
    KeyReadsBack(p);
    KeyReadsBack(q);
    if RelativeKey(p) == RelativeKey(q) {
      NonEmptyParts(Split(Slashes(p), '/'));
      NonEmptyParts(Split(Slashes(q), '/'));
      KeyIsForOne(RelativeKey(p), Segments(p), Segments(q));
    }
  }
}
