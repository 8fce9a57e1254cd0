/** Well-formed UTF-8, as section 4 of RFC 3629 lays out its byte sequences. */
module Utf8 {
  import opened Segments

  newtype Byte = x: int | 0 <= x < 256

  predicate Tail(s: seq<Byte>, i: nat) {
    i < |s| && 0x80 <= s[i] <= 0xBF
  }

  /** Length of the character that a byte sequence starts with, or zero when it starts with none. */
  function CharLength(s: seq<Byte>): (n: nat)
    ensures n <= 4 && n <= |s|
    ensures forall i :: 1 <= i < n ==> 0x80 <= s[i]
  {
    if s == [] then 0
    else if s[0] <= 0x7F then 1
    else if 0xC2 <= s[0] <= 0xDF && Tail(s, 1) then 2
    else if 0xE0 <= s[0] <= 0xEF && Tail(s, 1) && Tail(s, 2)
            && (s[0] == 0xE0 ==> s[1] >= 0xA0) && (s[0] == 0xED ==> s[1] <= 0x9F) then 3
    else if 0xF0 <= s[0] <= 0xF4 && Tail(s, 1) && Tail(s, 2) && Tail(s, 3)
            && (s[0] == 0xF0 ==> s[1] >= 0x90) && (s[0] == 0xF4 ==> s[1] <= 0x8F) then 4
    else 0
  }

  predicate Valid(s: seq<Byte>) {
    s == [] || (CharLength(s) > 0 && Valid(s[CharLength(s)..]))
  }

  /** The first character depends on its own bytes only. */
  lemma CharLengthLocal(a: seq<Byte>, b: seq<Byte>)
    requires CharLength(a) > 0
    ensures CharLength(a + b) == CharLength(a)
  {
  }

  lemma {:induction false} ConcatValid(a: seq<Byte>, b: seq<Byte>)
    requires Valid(a) && Valid(b)
    ensures Valid(a + b)
  {
    if a == [] {
      assert a + b == b;
    } else {
      var n := CharLength(a);
      CharLengthLocal(a, b);
      assert (a + b)[n..] == a[n..] + b;
      ConcatValid(a[n..], b);
    }
  }

  lemma CharEndsBefore(a: seq<Byte>, c: Byte, b: seq<Byte>)
    requires c <= 0x7F && a != [] && CharLength(a + [c] + b) > 0
    ensures CharLength(a + [c] + b) == CharLength(a)
  {
    var s := a + [c] + b;
    assert s[|a|] == c;
    assert CharLength(s) <= |a|;
    assert forall i :: 0 <= i < |a| ==> s[i] == a[i];
  }

  /** An ASCII byte is never inside a character, so both sides of it are well-formed on their own. */
  lemma {:induction false} AsciiSplits(a: seq<Byte>, c: Byte, b: seq<Byte>)
    requires c <= 0x7F
    requires Valid(a + [c] + b)
    ensures Valid(a) && Valid(b)
  {
    var s := a + [c] + b;
    var n := CharLength(s);
    if a == [] {
      assert s[1..] == b;
    } else {
      CharEndsBefore(a, c, b);
      assert s[n..] == a[n..] + [c] + b;
      AsciiSplits(a[n..], c, b);
    }
  }

  lemma {:induction false} JoinedValid(parts: seq<seq<Byte>>, sep: Byte)
    requires sep <= 0x7F
    ensures Valid(Join(parts, sep)) <==> forall i :: 0 <= i < |parts| ==> Valid(parts[i])
  {
    if |parts| >= 2 {
      JoinedValid(parts[1..], sep);
      var rest := Join(parts[1..], sep);
      if Valid(Join(parts, sep)) {
        AsciiSplits(parts[0], sep, rest);
        forall i | 0 <= i < |parts| ensures Valid(parts[i]) {
          assert i > 0 ==> parts[i] == parts[1..][i - 1];
        }
      } else if forall i :: 0 <= i < |parts| ==> Valid(parts[i]) {
        assert Valid([sep]) by {
          assert [sep][1..] == [];
        }
        ConcatValid(parts[0], [sep]);
        ConcatValid(parts[0] + [sep], rest);
      }
    }
  }

  /** The code points that UTF-8 encodes. */
  ghost predicate Scalar(c: int) {
    0 <= c <= 0x10FFFF && !(0xD800 <= c <= 0xDFFF)
  }

  /** The bytes of one code point, as the table of section 3 of RFC 3629 distributes its bits. */
  ghost function Encode(c: int): seq<Byte>
    requires Scalar(c)
  {
    if c <= 0x7F then [c as Byte]
    else if c <= 0x7FF then [(0xC0 + c / 64) as Byte, (0x80 + c % 64) as Byte]
    else if c <= 0xFFFF then [(0xE0 + c / 4096) as Byte, (0x80 + c / 64 % 64) as Byte, (0x80 + c % 64) as Byte]
    else [(0xF0 + c / 262144) as Byte, (0x80 + c / 4096 % 64) as Byte, (0x80 + c / 64 % 64) as Byte, (0x80 + c % 64) as Byte]
  }

  ghost function EncodeAll(cs: seq<int>): seq<Byte>
    requires forall i :: 0 <= i < |cs| ==> Scalar(cs[i])
  {
    if cs == [] then [] else Encode(cs[0]) + EncodeAll(cs[1..])
  }

  /** The code point that a byte sequence starts with. */
  ghost function FirstPoint(s: seq<Byte>): int
    requires CharLength(s) > 0
  {
    var n := CharLength(s);
    if n == 1 then s[0] as int
    else if n == 2 then (s[0] as int - 0xC0) * 64 + (s[1] as int - 0x80)
    else if n == 3 then (s[0] as int - 0xE0) * 4096 + (s[1] as int - 0x80) * 64 + (s[2] as int - 0x80)
    else (s[0] as int - 0xF0) * 262144 + (s[1] as int - 0x80) * 4096 + (s[2] as int - 0x80) * 64 + (s[3] as int - 0x80)
  }

  /** Six bits at a time. */
  lemma SixBits(high: nat, low: nat)
    requires low < 64
    ensures (high * 64 + low) / 64 == high && (high * 64 + low) % 64 == low
  {
  }

  lemma SixBitGroups(a: nat, b: nat, c: nat, d: nat)
    requires b < 64 && c < 64 && d < 64
    ensures var x := a * 262144 + b * 4096 + c * 64 + d;
            x / 262144 == a && x / 4096 % 64 == b && x / 64 % 64 == c && x % 64 == d
  {
    var x := a * 262144 + b * 4096 + c * 64 + d;
    SixBits(a * 4096 + b * 64 + c, d);
    SixBits(a * 64 + b, c);
    SixBits(a, b);
    assert x / 4096 == a * 64 + b;
    assert x / 262144 == a;
  }

  lemma ThreeBytesEncode(s: seq<Byte>)
    requires CharLength(s) == 3
    ensures Scalar(FirstPoint(s)) && Encode(FirstPoint(s)) == s[..3]
  {
    var b0, b1, b2 := s[0] as int - 0xE0, s[1] as int - 0x80, s[2] as int - 0x80;
    SixBitGroups(0, b0, b1, b2);
    var c := b0 * 4096 + b1 * 64 + b2;
    assert FirstPoint(s) == c && c / 4096 == b0;
    assert 0x800 <= c <= 0xFFFF;
  }

  lemma FourBytesEncode(s: seq<Byte>)
    requires CharLength(s) == 4
    ensures Scalar(FirstPoint(s)) && Encode(FirstPoint(s)) == s[..4]
  {
    var b0, b1, b2, b3 := s[0] as int - 0xF0, s[1] as int - 0x80, s[2] as int - 0x80, s[3] as int - 0x80;
    SixBitGroups(b0, b1, b2, b3);
    var c := b0 * 262144 + b1 * 4096 + b2 * 64 + b3;
    assert FirstPoint(s) == c;
    assert 0x10000 <= c <= 0x10FFFF;
  }

  lemma FirstPointEncodes(s: seq<Byte>)
    requires CharLength(s) > 0
    ensures Scalar(FirstPoint(s)) && Encode(FirstPoint(s)) == s[..CharLength(s)]
  {
    if CharLength(s) == 2 {
      SixBits(s[0] as int - 0xC0, s[1] as int - 0x80);
    } else if CharLength(s) == 3 {
      ThreeBytesEncode(s);
    } else if CharLength(s) == 4 {
      FourBytesEncode(s);
    }
  }

  lemma ShortEncodingIsChar(c: int)
    requires Scalar(c) && c <= 0x7FF
    ensures CharLength(Encode(c)) == |Encode(c)| > 0
  {
  }

  lemma MiddleEncodingIsChar(c: int)
    requires Scalar(c) && 0x800 <= c <= 0xFFFF
    ensures CharLength(Encode(c)) == |Encode(c)| > 0
  {
  }

  lemma LongEncodingIsChar(c: int)
    requires Scalar(c) && 0x10000 <= c
    ensures CharLength(Encode(c)) == |Encode(c)| > 0
  {
  }

  lemma EncodeIsChar(c: int)
    requires Scalar(c)
    ensures CharLength(Encode(c)) == |Encode(c)| > 0
  {
    if c <= 0x7FF {
      ShortEncodingIsChar(c);
    } else if c <= 0xFFFF {
      MiddleEncodingIsChar(c);
    } else {
      LongEncodingIsChar(c);
    }
  }

  /** Well-formed byte sequences are exactly the encodings of sequences of code points. */
  lemma {:induction false} EncodingValid(cs: seq<int>)
    requires forall i :: 0 <= i < |cs| ==> Scalar(cs[i])
    ensures Valid(EncodeAll(cs))
  {
    if cs != [] {
      EncodingValid(cs[1..]);
      EncodeIsChar(cs[0]);
      assert Encode(cs[0])[|Encode(cs[0])|..] == [];
      ConcatValid(Encode(cs[0]), EncodeAll(cs[1..]));
    }
  }

  lemma {:induction false} ValidEncodes(s: seq<Byte>) returns (cs: seq<int>)
    requires Valid(s)
    ensures forall i :: 0 <= i < |cs| ==> Scalar(cs[i])
    ensures EncodeAll(cs) == s
  {
    cs := [];
    if s != [] {
      FirstPointEncodes(s);
      var rest := ValidEncodes(s[CharLength(s)..]);
      cs := [FirstPoint(s)] + rest;
      assert s == s[..CharLength(s)] + s[CharLength(s)..];
    }
  }
}
