/** Canonical request paths: percent decoding, API version stripping and dot segments. */
module Paths {
  import opened Basics
  import opened Segments
  import opened Utf8

  const MAX_PATH_LEN := 8192
  const SLASH: Byte := 47
  const DOT: Byte := 46
  const PERCENT: Byte := 37
  const LOWER_V: Byte := 118

  function HexDigit(b: Byte): Option<nat> {
    if 48 <= b <= 57 then Some(b as int - 48)
    else if 97 <= b <= 102 then Some(b as int - 87)
    else if 65 <= b <= 70 then Some(b as int - 55)
    else None
  }

  /** The byte that a `%HH` triplet at the start of `e` stands for, if there is one. */
  function Triplet(e: seq<Byte>): Option<Byte> {
    if |e| < 3 || e[0] != PERCENT || HexDigit(e[1]).None? || HexDigit(e[2]).None? then None
    else
      var v := HexDigit(e[1]).value * 16 + HexDigit(e[2]).value;
      Some(v as Byte)
  }

  /**
   `e` writes the bytes of `s` in order, each either literally, unless it is a percent sign, or
   as a percent-encoded triplet (section 2.1 of RFC 3986).
   */
  ghost predicate Encodes(e: seq<Byte>, s: seq<Byte>) {
    if s == [] then e == []
    else
      || (e != [] && e[0] == s[0] && s[0] != PERCENT && Encodes(e[1..], s[1..]))
      || (Triplet(e) == Some(s[0]) && Encodes(e[3..], s[1..]))
  }

  /** Decoding from the front. */
  function Decoded(e: seq<Byte>): Option<seq<Byte>> {
    if e == [] then Some([])
    else if e[0] != PERCENT then
      var rest := Decoded(e[1..]);
      if rest.None? then None else Some([e[0]] + rest.value)
    else if Triplet(e).None? then None
    else
      var rest := Decoded(e[3..]);
      if rest.None? then None else Some([Triplet(e).value] + rest.value)
  }

  /** Decoding inverts exactly the encodings: it succeeds with `s` if and only if `e` encodes `s`. */
  lemma {:induction false} DecodedIffEncodes(e: seq<Byte>, s: seq<Byte>)
    ensures Decoded(e) == Some(s) <==> Encodes(e, s)
  {
    if e != [] && e[0] != PERCENT {
      if s != [] {
        DecodedIffEncodes(e[1..], s[1..]);
        assert s == [s[0]] + s[1..];
      }
    } else if Triplet(e).Some? && s != [] {
      DecodedIffEncodes(e[3..], s[1..]);
      assert s == [s[0]] + s[1..];
    }
  }

  lemma {:induction false} DecodedShrinks(e: seq<Byte>)
    ensures Decoded(e).Some? ==> |Decoded(e).value| <= |e|
    ensures Decoded(e).Some? && PERCENT in e ==> |Decoded(e).value| < |e|
    ensures PERCENT !in e ==> Decoded(e) == Some(e)
  {
    if e != [] {
      if e[0] != PERCENT {
        DecodedShrinks(e[1..]);
        assert e == [e[0]] + e[1..];
      } else if Triplet(e).Some? {
        DecodedShrinks(e[3..]);
      }
    }
  }

  /** The value of a hexadecimal digit is its place in the alphabet of either case. */
  lemma HexDigitIff(b: Byte, v: nat)
    ensures HexDigit(b) == Some(v) <==>
              v < 16 && (b as int == "0123456789abcdef"[v] as int || b as int == "0123456789ABCDEF"[v] as int)
  {
  }

  /** A triplet is a percent sign, the high digit and the low digit. */
  lemma TripletIff(e: seq<Byte>, b: Byte)
    ensures Triplet(e) == Some(b) <==>
              && |e| >= 3 && e[0] == 37
              && HexDigit(e[1]) == Some(b as int / 16) && HexDigit(e[2]) == Some(b as int % 16)
  {
  }

  method PercentDecode(s: seq<Byte>) returns (r: Option<seq<Byte>>)
    ensures r.Some? ==> Encodes(s, r.value)
    ensures r.None? ==> forall d :: !Encodes(s, d)
    ensures r == Decoded(s)
  {
    forall d ensures Decoded(s) == Some(d) <==> Encodes(s, d) {
      DecodedIffEncodes(s, d);
    }
    var out: seq<Byte> := [];
    var i := 0;
    PrefixedNothing(Decoded(s));
    assert s[0..] == s;
    while i < |s|
      invariant i <= |s|
      invariant Prefixed(out, Decoded(s[i..])) == Decoded(s)
    {
      var b := s[i];
      ghost var e := s[i..];
      if b == PERCENT {
        if i + 2 >= |s| {
          return None;
        }
        var h, l := HexDigit(s[i + 1]), HexDigit(s[i + 2]);
        assert e[1] == s[i + 1] && e[2] == s[i + 2];
        if h.None? || l.None? {
          return None;
        }
        assert e[3..] == s[i + 3..];
        PrefixedStep(out, (h.value * 16 + l.value) as Byte, Decoded(s[i + 3..]));
        out := out + [(h.value * 16 + l.value) as Byte];
        i := i + 3;
      } else {
        assert e[1..] == s[i + 1..];
        PrefixedStep(out, b, Decoded(s[i + 1..]));
        out := out + [b];
        i := i + 1;
      }
    }
    assert s[i..] == [];
    assert out + [] == out;
    return Some(out);
  }

  predicate VersionByte(b: Byte) {
    48 <= b <= 57 || b == DOT
  }

  /** Where a path's version prefix ends: just before the slash that follows `/v` and the version. */
  function VersionEnd(path: seq<Byte>): Option<nat> {
    if |path| < 3 || path[0] != SLASH || path[1] != LOWER_V then None
    else
      var end := FindSlash(path[2..]);
      if end.None? then None
      else
        var version := path[2..2 + end.value];
        if version == [] || version == [DOT] || exists i :: 0 <= i < |version| && !VersionByte(version[i]) then None
        else Some(2 + end.value)
  }

  function FindSlash(s: seq<Byte>): (r: Option<nat>)
    ensures r.Some? ==> r.value < |s| && s[r.value] == SLASH && SLASH !in s[..r.value]
    ensures r.None? ==> SLASH !in s
  {
    if s == [] then None
    else if s[0] == SLASH then Some(0)
    else
      var r := FindSlash(s[1..]);
      if r.None? then None else
        assert s[..r.value + 1] == [s[0]] + s[1..][..r.value];
        Some(r.value + 1)
  }

  function StripVersion(path: seq<Byte>): (r: seq<Byte>)
    ensures |r| <= |path|
    ensures path != [] && path[0] == SLASH ==> r != [] && r[0] == SLASH
  {
    if VersionEnd(path).Some? then path[VersionEnd(path).value..] else path
  }

  /** `p` is `/v`, a version of digits and dots other than a lone dot, and `r`, which starts with a slash. */
  ghost predicate VersionPrefix(p: seq<Byte>, version: seq<Byte>, r: seq<Byte>) {
    && p == [47, 118] + version + r
    && r != [] && r[0] == 47
    && version != [] && version != [46]
    && forall i :: 0 <= i < |version| ==> version[i] == 46 || 48 <= version[i] <= 57
  }

  /** Exactly what is stripped, and from which paths; every other path stays as it is. */
  lemma StripVersionIff(p: seq<Byte>, r: seq<Byte>)
    ensures StripVersion(p) == r && r != p <==> exists version :: VersionPrefix(p, version, r)
    ensures StripVersion(p) != p ==> exists version :: VersionPrefix(p, version, StripVersion(p))
  {
    if StripVersion(p) != p {
      var end := VersionEnd(p).value;
      var version := p[2..end];
      assert p[2..][..end - 2] == version;
      assert p == [47, 118] + version + p[end..];
      assert p[end] == p[2..][end - 2];
      assert VersionPrefix(p, version, p[end..]);
    }
    forall version | VersionPrefix(p, version, r)
      ensures StripVersion(p) == r && r != p
    {
      PrefixStripped(p, version, r);
    }
  }

  lemma PrefixStripped(p: seq<Byte>, version: seq<Byte>, r: seq<Byte>)
    requires VersionPrefix(p, version, r)
    ensures StripVersion(p) == r && r != p
  {
    assert p[2..] == version + r;
    assert (version + r)[|version|] == SLASH;
    assert SLASH !in version;
    FirstSlash(version, r);
    assert p[2..2 + |version|] == version;
    assert p[2 + |version|..] == r;
  }

  lemma {:induction false} FirstSlash(a: seq<Byte>, r: seq<Byte>)
    requires SLASH !in a && r != [] && r[0] == SLASH
    ensures FindSlash(a + r) == Some(|a|)
  {
    if a == [] {
      assert a + r == r;
    } else {
      assert a[0] in a && (a + r)[1..] == a[1..] + r;
      FirstSlash(a[1..], r);
    }
  }

  predicate Control(b: Byte) {
    b < 0x20 || b == 0x7F
  }

  type Stack = seq<seq<Byte>>

  /** One path segment against the stack of segments kept so far. */
  function Enter(stack: Stack, segment: seq<Byte>): Stack {
    if segment == [] || segment == [DOT] then stack
    else if segment == [DOT, DOT] then (if stack == [] then [] else stack[..|stack| - 1])
    else stack + [segment]
  }

  function Walk(stack: Stack, segments: seq<seq<Byte>>): Stack
    decreases segments
  {
    if segments == [] then stack else Walk(Enter(stack, segments[0]), segments[1..])
  }

  /** A stack as a path, with the trailing slash kept when any segment remains. */
  function Render(stack: Stack, trailing: bool): seq<Byte> {
    [SLASH] + Join(stack, SLASH) + if trailing && stack != [] then [SLASH] else []
  }

  predicate EndsInSlash(path: seq<Byte>) {
    |path| > 1 && path[|path| - 1] == SLASH
  }

  function Normalized(path: seq<Byte>): seq<Byte> {
    Render(Walk([], Split(path, SLASH)), EndsInSlash(path))
  }

  /** The bytes of an acceptable path after decoding. */
  function Accepted(raw: seq<Byte>): Option<seq<Byte>> {
    if raw == [] || raw[0] != SLASH || |raw| > MAX_PATH_LEN then None
    else
      var decoded := Decoded(raw);
      if decoded.None? || (exists i :: 0 <= i < |decoded.value| && Control(decoded.value[i])) || !Valid(decoded.value)
      then None else decoded
  }

  function Canonical(raw: seq<Byte>): Option<seq<Byte>> {
    var decoded := Accepted(raw);
    if decoded.None? then None else Some(Normalized(StripVersion(decoded.value)))
  }

  method CanonicalizePath(raw: seq<Byte>) returns (r: Option<seq<Byte>>)
    ensures r == Canonical(raw)
  {
    if raw == [] || raw[0] != SLASH {
      return None;
    }
    if |raw| > MAX_PATH_LEN {
      return None;
    }
    var decodedBytes := PercentDecode(raw);
    if decodedBytes.None? {
      return None;
    }
    if exists i :: 0 <= i < |decodedBytes.value| && Control(decodedBytes.value[i]) {
      return None;
    }
    if !Valid(decodedBytes.value) {
      return None;
    }
    var decoded := StripVersion(decodedBytes.value);
    var trailingSlash := |decoded| > 1 && decoded[|decoded| - 1] == SLASH;
    var parts := Split(decoded, SLASH);
    var segments: Stack := [];
    assert parts[0..] == parts;
    WalkKeepsClean([], parts);
    for i := 0 to |parts|
      invariant Walk(segments, parts[i..]) == Walk([], parts)
    {
      var seg := parts[i];
      assert parts[i..][1..] == parts[i + 1..];
      if seg == [] || seg == [DOT] {
      } else if seg == [DOT, DOT] {
        if segments != [] {
          segments := segments[..|segments| - 1];
        }
      } else {
        segments := segments + [seg];
      }
    }
    var out := [SLASH] + Join(segments, SLASH);
    JoinNonEmpty(segments);
    assert out + [] == out;
    if trailingSlash && |out| > 1 {
      out := out + [SLASH];
    }
    return Some(out);
  }

  ghost predicate Plain(segment: seq<Byte>) {
    segment != [] && segment != [DOT] && segment != [DOT, DOT]
  }

  ghost predicate Clean(stack: Stack) {
    forall i :: 0 <= i < |stack| ==> Plain(stack[i])
  }

  /** What the walk keeps: plain segments, each of them one of the segments walked. */
  lemma {:induction false} WalkKeepsClean(stack: Stack, segments: seq<seq<Byte>>)
    requires Clean(stack)
    ensures Clean(Walk(stack, segments))
    ensures forall x :: x in Walk(stack, segments) ==> x in stack || x in segments
    decreases segments
  {
    if segments != [] {
      WalkKeepsClean(Enter(stack, segments[0]), segments[1..]);
    }
  }

  lemma JoinNonEmpty(stack: Stack)
    requires Clean(stack)
    ensures |Join(stack, SLASH)| > 0 <==> stack != []
  {
  }

  /** Total length of the segments with one slash each. */
  ghost function Weight(segments: seq<seq<Byte>>): nat {
    if segments == [] then 0 else |segments[0]| + 1 + Weight(segments[1..])
  }

  lemma {:induction false} WeightExtends(a: seq<seq<Byte>>, s: seq<Byte>)
    ensures Weight(a + [s]) == Weight(a) + |s| + 1
  {
    if a != [] {
      WeightExtends(a[1..], s);
      assert (a + [s])[1..] == a[1..] + [s];
    }
  }

  lemma {:induction false} WeightOfJoin(parts: seq<seq<Byte>>)
    requires parts != []
    ensures |Join(parts, SLASH)| + 1 == Weight(parts)
  {
    if |parts| > 1 {
      WeightOfJoin(parts[1..]);
    } else {
      assert Weight(parts[1..]) == 0;
    }
  }

  lemma {:induction false} WalkWeight(stack: Stack, segments: seq<seq<Byte>>)
    ensures Weight(Walk(stack, segments)) <= Weight(stack) + Weight(segments)
    decreases segments
  {
    if segments != [] {
      var s := segments[0];
      if s == [DOT, DOT] && stack != [] {
        WeightExtends(stack[..|stack| - 1], stack[|stack| - 1]);
        assert stack == stack[..|stack| - 1] + [stack[|stack| - 1]];
      } else {
        WeightExtends(stack, s);
      }
      WalkWeight(Enter(stack, s), segments[1..]);
    }
  }

  lemma {:induction false} WalkAppend(stack: Stack, a: seq<seq<Byte>>, b: seq<seq<Byte>>)
    ensures Walk(stack, a + b) == Walk(Walk(stack, a), b)
    decreases a
  {
    if a == [] {
      assert a + b == b;
    } else {
      assert (a + b)[1..] == a[1..] + b;
      WalkAppend(Enter(stack, a[0]), a[1..], b);
    }
  }

  /** Plain segments simply pile up. */
  lemma {:induction false} WalkPlain(stack: Stack, segments: Stack)
    requires Clean(segments)
    ensures Walk(stack, segments) == stack + segments
    decreases segments
  {
    if segments != [] {
      WalkPlain(stack + [segments[0]], segments[1..]);
      assert stack + segments == stack + [segments[0]] + segments[1..];
    } else {
      assert stack + segments == stack;
    }
  }

  /** A path that starts with a slash: an empty first segment, and the rest weighs what the path does. */
  lemma PathParts(path: seq<Byte>) returns (rest: seq<seq<Byte>>)
    requires path != [] && path[0] == SLASH
    ensures Split(path, SLASH) == [[]] + rest && rest == Split(path[1..], SLASH)
    ensures Weight(rest) == |path|
    ensures Walk([], Split(path, SLASH)) == Walk([], rest)
    ensures EndsInSlash(path) ==> rest[|rest| - 1] == [] && |rest| > 1
  {
    rest := Split(path[1..], SLASH);
    JoinSplit(path[1..], SLASH);
    WeightOfJoin(rest);
    assert ([[]] + rest)[1..] == rest;
    if EndsInSlash(path) {
      SplitSeparates(path[1..], SLASH);
      LastPieceEmpty(path[1..]);
    }
  }

  lemma {:induction false} LastPieceEmpty(s: seq<Byte>)
    requires s != [] && s[|s| - 1] == SLASH
    ensures var parts := Split(s, SLASH); |parts| > 1 && parts[|parts| - 1] == []
  {
    if |s| > 1 {
      LastPieceEmpty(s[1..]);
    } else {
      assert s[1..] == [];
    }
  }

  /** Normalizing never lengthens a path. */
  lemma NormalizedLength(path: seq<Byte>)
    requires path != [] && path[0] == SLASH
    ensures |Normalized(path)| <= |path|
  {
    var rest := PathParts(path);
    var stack := Walk([], rest);
    WalkWeight([], rest);
    if stack != [] {
      WeightOfJoin(stack);
      if EndsInSlash(path) {
        var front := rest[..|rest| - 1];
        var last: seq<seq<Byte>> := [[]];
        assert rest == front + last;
        WalkAppend([], front, last);
        assert last[1..] == [];
        WalkWeight([], front);
        WeightExtends(front, []);
      }
    }
  }

  /** The segments of a rendered stack. */
  lemma RenderedParts(stack: Stack, trailing: bool)
    requires Clean(stack) && Separable(stack, SLASH)
    ensures Split(Render(stack, trailing), SLASH)
         == [[]] + if stack == [] then [[]] else if trailing then stack + [[]] else stack
    ensures EndsInSlash(Render(stack, trailing)) <==> trailing && stack != []
  {
    var body := Join(stack, SLASH);
    JoinNonEmpty(stack);
    if stack == [] {
      assert Render(stack, trailing) == [] + [SLASH] + [];
      SplitPrefix([], SLASH, []);
    } else if trailing {
      var longer := stack + [[]];
      JoinAppendEmpty(stack);
      assert Render(stack, trailing) == [SLASH] + Join(longer, SLASH);
      SplitAfterSlash(longer, Render(stack, trailing));
    } else {
      assert Render(stack, trailing) == [SLASH] + body;
      SplitAfterSlash(stack, Render(stack, trailing));
      LastByte(stack);
    }
  }

  lemma SplitAfterSlash(parts: seq<seq<Byte>>, path: seq<Byte>)
    requires parts != [] && Separable(parts, SLASH)
    requires path == [SLASH] + Join(parts, SLASH)
    ensures Split(path, SLASH) == [[]] + parts
  {
    SplitJoin(parts, SLASH);
    assert path[1..] == Join(parts, SLASH);
  }

  lemma {:induction false} JoinAppendEmpty(stack: Stack)
    requires stack != []
    ensures Join(stack + [[]], SLASH) == Join(stack, SLASH) + [SLASH]
  {
    if |stack| > 1 {
      JoinAppendEmpty(stack[1..]);
      assert (stack + [[]])[1..] == stack[1..] + [[]];
    } else {
      var last: seq<seq<Byte>> := [[]];
      assert (stack + last)[1..] == last && Join(last, SLASH) == [];
    }
  }

  lemma {:induction false} LastByte(stack: Stack)
    requires stack != [] && Clean(stack) && Separable(stack, SLASH)
    ensures var body := Join(stack, SLASH); body != [] && body[|body| - 1] != SLASH
  {
    if |stack| > 1 {
      LastByte(stack[1..]);
    } else {
      var s := stack[0];
      assert s[|s| - 1] in s;
    }
  }

  /** The stack behind a canonical path, and the bytes it is made of. */
  lemma CanonicalStack(raw: seq<Byte>) returns (stack: Stack, trailing: bool)
    requires Canonical(raw).Some?
    ensures Canonical(raw) == Some(Render(stack, trailing))
    ensures Clean(stack) && Separable(stack, SLASH)
    ensures forall i :: 0 <= i < |stack| ==> Valid(stack[i])
    ensures forall i, b :: 0 <= i < |stack| && b in stack[i] ==> !Control(b)
    ensures trailing == EndsInSlash(StripVersion(Accepted(raw).value))
    ensures stack == Walk([], Split(StripVersion(Accepted(raw).value), SLASH))
  {
    var decoded := Accepted(raw).value;
    var path := StripVersion(decoded);
    var parts := Split(path, SLASH);
    stack, trailing := Walk([], parts), EndsInSlash(path);
    WalkKeepsClean([], parts);
    SplitSeparates(path, SLASH);
    SplitElements(path, SLASH);
    StrippedValid(decoded);
    JoinSplit(path, SLASH);
    JoinedValid(parts, SLASH);
    forall i | 0 <= i < |stack|
      ensures SLASH !in stack[i] && Valid(stack[i]) && forall b :: b in stack[i] ==> !Control(b)
    {
      assert stack[i] in stack;
      var j :| 0 <= j < |parts| && parts[j] == stack[i];
      forall b | b in parts[j] ensures !Control(b) {
        assert b in path;
        assert b in decoded;
      }
    }
  }

  lemma StrippedValid(path: seq<Byte>)
    requires Valid(path)
    ensures Valid(StripVersion(path))
  {
    if VersionEnd(path).Some? {
      var k := VersionEnd(path).value;
      assert path[k] == path[2..][k - 2] == SLASH;
      assert path == path[..k] + [SLASH] + path[k + 1..];
      AsciiSplits(path[..k], SLASH, path[k + 1..]);
      assert path[k..][1..] == path[k + 1..];
    }
  }

  /** What acceptance asks of a raw path and of the text that it encodes. */
  ghost predicate Acceptable(raw: seq<Byte>, text: seq<Byte>) {
    && raw != [] && raw[0] == 47 && |raw| <= 8192
    && Encodes(raw, text)
    && (forall i :: 0 <= i < |text| ==> 32 <= text[i] && text[i] != 127)
    && Valid(text)
  }

  /** Exactly which raw paths are accepted, and what becomes of them. */
  lemma AcceptedIff(raw: seq<Byte>)
    ensures Canonical(raw).Some? <==> exists text :: Acceptable(raw, text)
    ensures forall text :: Acceptable(raw, text) ==> Canonical(raw) == Some(Normalized(StripVersion(text)))
  {
    if Canonical(raw).Some? {
      var text := Accepted(raw).value;
      DecodedIffEncodes(raw, text);
      forall i | 0 <= i < |text| ensures 32 <= text[i] && text[i] != 127 {
        assert !Control(text[i]);
      }
      assert Acceptable(raw, text);
    }
    forall text | Acceptable(raw, text)
      ensures Canonical(raw) == Some(Normalized(StripVersion(text)))
    {
      DecodedIffEncodes(raw, text);
    }
  }

  lemma {:induction false} AsciiValid(s: seq<Byte>)
    requires forall i :: 0 <= i < |s| ==> s[i] <= 127
    ensures Valid(s)
  {
    if s != [] {
      AsciiValid(s[1..]);
    }
  }

  /** Ordinary paths are accepted: printable ASCII after a slash, within the length limit, and no percent sign. */
  lemma OrdinaryPathAccepted(raw: seq<Byte>)
    requires raw != [] && raw[0] == 47 && |raw| <= 8192
    requires forall i :: 0 <= i < |raw| ==> 32 <= raw[i] <= 126 && raw[i] != 37
    ensures Canonical(raw) == Some(Normalized(StripVersion(raw)))
  {
    DecodedShrinks(raw);
    AsciiValid(raw);
    DecodedIffEncodes(raw, raw);
    AcceptedIff(raw);
    assert Acceptable(raw, raw);
  }

  /** Beyond the root, the canonical path ends in a slash exactly when the stripped text did. */
  lemma TrailingSlashKept(raw: seq<Byte>, text: seq<Byte>)
    requires Acceptable(raw, text)
    ensures Canonical(raw).Some?
    ensures var stripped, out := StripVersion(text), Canonical(raw).value;
            && stripped != [] && out != []
            && (out == [47] || (out[|out| - 1] == 47 <==> |stripped| > 1 && stripped[|stripped| - 1] == 47))
  {
    AcceptedIff(raw);
    DecodedIffEncodes(raw, text);
    DecodedFirst(raw);
    var stack, trailing := CanonicalStack(raw);
    RenderedParts(stack, trailing);
  }

  /**
   Canonical form. An accepted path comes out starting with a slash, with no empty, `.` or `..`
   segment between its slashes, no control byte, well-formed, and no longer than it came in.
   */
  lemma CanonicalForm(raw: seq<Byte>)
    requires Canonical(raw).Some?
    ensures var out := Canonical(raw).value;
            && out != [] && out[0] == SLASH
            && |out| <= |raw| <= MAX_PATH_LEN
            && (forall b :: b in out ==> !Control(b))
            && Valid(out)
            && var parts := Split(out, SLASH);
               && |parts| >= 2 && parts[0] == []
               && (forall i :: 1 <= i < |parts| - 1 ==> Plain(parts[i]))
               && (parts[|parts| - 1] == [] || Plain(parts[|parts| - 1]))
  {
    var stack, trailing := CanonicalStack(raw);
    var out := Canonical(raw).value;
    RenderedParts(stack, trailing);
    DecodedShrinks(raw);
    DecodedFirst(raw);
    NormalizedLength(StripVersion(Accepted(raw).value));
    var parts := Split(out, SLASH);
    JoinSplit(out, SLASH);
    forall i | 0 <= i < |parts| ensures Valid(parts[i]) && forall b :: b in parts[i] ==> !Control(b) {
      assert parts[i] == [] || parts[i] == stack[i - 1];
    }
    JoinedValid(parts, SLASH);
    JoinElements(parts);
  }

  lemma DecodedFirst(raw: seq<Byte>)
    requires Accepted(raw).Some?
    ensures Accepted(raw).value != [] && Accepted(raw).value[0] == SLASH
  {
  }

  lemma {:induction false} JoinElements(parts: seq<seq<Byte>>)
    requires forall i, b :: 0 <= i < |parts| && b in parts[i] ==> !Control(b)
    ensures forall b :: b in Join(parts, SLASH) ==> !Control(b)
  {
    if |parts| > 1 {
      JoinElements(parts[1..]);
    }
  }

  /** A canonical path with a percent sign or a version prefix comes out shorter, or is refused. */
  lemma ReducibleShrinks(raw: seq<Byte>)
    requires Canonical(raw).Some?
    ensures var out := Canonical(raw).value;
            PERCENT in out || StripVersion(out) != out ==>
              Canonical(out).None? || |Canonical(out).value| < |out|
  {
    var out := Canonical(raw).value;
    DecodedShrinks(out);
    if Accepted(out).Some? {
      DecodedFirst(out);
      NormalizedLength(StripVersion(Accepted(out).value));
    }
  }

  lemma IrreducibleFixed(raw: seq<Byte>)
    requires Canonical(raw).Some?
    requires var out := Canonical(raw).value; PERCENT !in out && StripVersion(out) == out
    ensures Canonical(Canonical(raw).value) == Canonical(raw)
  {
    var out := Canonical(raw).value;
    var stack, trailing := CanonicalStack(raw);
    CanonicalForm(raw);
    DecodedShrinks(out);
    assert forall i :: 0 <= i < |out| ==> out[i] in out;
    assert Accepted(out) == Some(out);
    RenderedParts(stack, trailing);
    RewalkStack(stack, trailing);
    RenderTrailing(stack, trailing);
  }

  lemma RenderTrailing(stack: Stack, trailing: bool)
    ensures Render(stack, trailing) == Render(stack, trailing && stack != [])
  {
  }

  /**
   Exactly which canonical paths are fixed points: those without a percent sign and without a
   strippable version prefix.
   */
  lemma CanonicalFixpointIff(raw: seq<Byte>)
    requires Canonical(raw).Some?
    ensures var out := Canonical(raw).value;
            Canonical(out) == Some(out) <==> PERCENT !in out && StripVersion(out) == out
  {
    ReducibleShrinks(raw);
    var out := Canonical(raw).value;
    if PERCENT !in out && StripVersion(out) == out {
      IrreducibleFixed(raw);
    }
  }

  lemma RewalkStack(stack: Stack, trailing: bool)
    requires Clean(stack) && Separable(stack, SLASH)
    ensures Walk([], Split(Render(stack, trailing), SLASH)) == stack
  {
    RenderedParts(stack, trailing);
    var tail: seq<seq<Byte>> := if stack == [] || trailing then [[]] else [];
    var parts := Split(Render(stack, trailing), SLASH);
    assert parts == [[]] + (stack + tail);
    assert parts[1..] == stack + tail;
    WalkAppend([], stack, tail);
    WalkPlain([], stack);
    assert [] + stack == stack;
    assert tail != [] ==> tail[1..] == [];
  }

  /** Every way of percent-encoding a path leads to the same canonical path. */
  lemma EncodingIrrelevant(e: seq<Byte>, f: seq<Byte>, s: seq<Byte>)
    requires Encodes(e, s) && Encodes(f, s)
    requires e != [] && f != [] && e[0] == SLASH == f[0]
    requires |e| <= MAX_PATH_LEN && |f| <= MAX_PATH_LEN
    ensures Canonical(e) == Canonical(f)
  {
    DecodedIffEncodes(e, s);
    DecodedIffEncodes(f, s);
  }

  /**
   What normalizing means for segments: empty and `.` segments vanish, `..` cancels the plain
   segment before it and vanishes at the root, and plain segments alone stay as they are.
   Rewriting with these rules reaches the canonical segments from any path.
   */
  lemma DotSegmentRules(a: seq<seq<Byte>>, segment: seq<Byte>, b: seq<seq<Byte>>)
    ensures segment == [] || segment == [DOT] ==> Walk([], a + [segment] + b) == Walk([], a + b)
    ensures Plain(segment) ==> Walk([], a + [segment, [DOT, DOT]] + b) == Walk([], a + b)
    ensures Walk([], [[DOT, DOT]] + b) == Walk([], b)
    ensures Clean(a) ==> Walk([], a) == a
  {
    WalkAppend([], a, b);
    WalkAppend([], a + [segment], b);
    WalkAppend([], a, [segment]);
    WalkAppend([], a + [segment, [DOT, DOT]], b);
    WalkAppend([], a, [segment, [DOT, DOT]]);
    var stack := Walk([], a);
    assert [segment][1..] == [];
    if Plain(segment) {
      var pair := [segment, [DOT, DOT]];
      assert pair[1..] == [[DOT, DOT]] && pair[1..][1..] == [];
      assert Enter(stack + [segment], [DOT, DOT]) == stack;
      assert Walk(stack, pair) == Walk(stack + [segment], pair[1..]) == Walk(stack, []);
    }
    assert ([[DOT, DOT]] + b)[1..] == b;
    if Clean(a) {
      WalkPlain([], a);
      assert [] + a == a;
    }
  }
}
