/** What the segments of a dotted path denote: object keys and array indices. */
module JsonPaths {
  import opened Basics
  import opened Json

  lemma {:induction false} LeadingZeroValue(s: string)
    requires Digits(s)
    ensures DigitsValue("0" + s) == DigitsValue(s)
  {
    var zs := "0" + s;
    if s == [] {
      assert zs[..0] == [];
    } else {
      LeadingZeroValue(s[..|s| - 1]);
      assert zs[..|s|] == "0" + s[..|s| - 1];
    }
  }

  lemma ParseDigits(s: string)
    requires s != "" && Digits(s)
    ensures ParseIndex(s) == if DigitsValue(s) > USIZE_MAX then None else Some(DigitsValue(s))
  {
    assert IsDigit(s[0]);
  }

  /** Leading zeros do not matter: `0` and `00` denote the same element. */
  lemma LeadingZeroAliases(s: string)
    requires s != "" && Digits(s)
    ensures ParseIndex("0" + s) == ParseIndex(s)
  {
    LeadingZeroValue(s);
    ParseDigits(s);
    ParseDigits("0" + s);
  }

  /** A number as it is usually written. */
  ghost function Decimal(n: nat): (s: string)
    ensures s != "" && Digits(s)
  {
    if n < 10 then [DigitOf(n)] else Decimal(n / 10) + [DigitOf(n % 10)]
  }

  ghost function DigitOf(d: nat): (c: char)
    requires d < 10
    ensures IsDigit(c)
  {
    "0123456789"[d]
  }

  ghost function Zeros(k: nat): (s: string)
    ensures |s| == k && forall i :: 0 <= i < k ==> s[i] == '0'
  {
    seq(k, i => '0')
  }

  lemma DigitAt(d: nat)
    requires d < 10
    ensures DigitOf(d) as int == '0' as int + d
  {
  }

  lemma DigitAppended(s: string, d: nat)
    requires d < 10 && Digits(s)
    ensures Digits(s + [DigitOf(d)]) && DigitsValue(s + [DigitOf(d)]) == DigitsValue(s) * 10 + d
  {
    var t := s + [DigitOf(d)];
    assert t[..|t| - 1] == s;
    DigitAt(d);
  }

  lemma {:induction false} DecimalValue(n: nat)
    ensures DigitsValue(Decimal(n)) == n
  {
    if n < 10 {
      DigitAppended([], n);
      assert [] + [DigitOf(n)] == Decimal(n);
    } else {
      DecimalValue(n / 10);
      DigitAppended(Decimal(n / 10), n % 10);
    }
  }

  lemma {:induction false} ZerosAliases(k: nat, s: string)
    requires Digits(s)
    ensures Digits(Zeros(k) + s) && DigitsValue(Zeros(k) + s) == DigitsValue(s)
  {
    if k == 0 {
      assert Zeros(0) + s == s;
    } else {
      ZerosAliases(k - 1, s);
      LeadingZeroValue(Zeros(k - 1) + s);
      assert "0" + (Zeros(k - 1) + s) == Zeros(k) + s;
    }
  }

  /** A text of digits is the number it denotes with some zeros in front. */
  lemma {:induction false} DigitsAreDecimal(s: string) returns (k: nat)
    requires s != "" && Digits(s)
    ensures s == Zeros(k) + Decimal(DigitsValue(s))
  {
    var n := |s| - 1;
    var d := s[n] as int - '0' as int;
    assert IsDigit(s[n]);
    DigitAt(d);
    assert s == s[..n] + [DigitOf(d)];
    if n == 0 {
      k := 0;
      assert DigitsValue(s) == d;
    } else {
      k := DigitsAreDecimal(s[..n]);
      k := OneMoreDigit(s[..n], k, d);
    }
  }

  lemma OneMoreDigit(s: string, k: nat, d: nat) returns (k': nat)
    requires s != "" && Digits(s) && d < 10
    requires s == Zeros(k) + Decimal(DigitsValue(s))
    ensures s + [DigitOf(d)] == Zeros(k') + Decimal(DigitsValue(s + [DigitOf(d)]))
  {
    var v := DigitsValue(s);
    DigitAppended(s, d);
    if v == 0 {
      ZerosGrow(k);
      k' := k + 1;
    } else {
      TenTimes(v, d);
      ConcatAssociates(Zeros(k), Decimal(v), [DigitOf(d)]);
      k' := k;
    }
  }

  lemma ZerosGrow(k: nat)
    ensures Zeros(k) + Decimal(0) == Zeros(k + 1)
  {
    DigitAt(0);
  }

  lemma ConcatAssociates(a: string, b: string, c: string)
    ensures a + b + c == a + (b + c)
  {
  }

  lemma TenTimes(v: nat, d: nat)
    requires v > 0 && d < 10
    ensures Decimal(v * 10 + d) == Decimal(v) + [DigitOf(d)]
  {
    assert (v * 10 + d) / 10 == v && (v * 10 + d) % 10 == d;
  }

  /** Any number of zeros, and the number. */
  ghost predicate Padded(s: string, n: nat) {
    exists k: nat :: s == Zeros(k) + Decimal(n)
  }

  lemma PaddedIff(s: string, n: nat)
    ensures Padded(s, n) <==> s != "" && Digits(s) && DigitsValue(s) == n
  {
    if k: nat :| s == Zeros(k) + Decimal(n) {
      DecimalValue(n);
      ZerosAliases(k, Decimal(n));
    }
    if s != "" && Digits(s) {
      var k := DigitsAreDecimal(s);
    }
  }

  /** The text without a plus sign in front. */
  ghost function Unsigned(s: string): string {
    if |s| > 1 && s[0] == '+' then s[1..] else s
  }

  lemma ParseUnsigned(s: string)
    ensures var digits := Unsigned(s);
            ParseIndex(s) == if digits != "" && Digits(digits) && DigitsValue(digits) <= 18_446_744_073_709_551_615
                             then Some(DigitsValue(digits)) else None
  {
  }

  /** Exactly which segments denote which array index: an optional plus sign, any zeros, and the number. */
  lemma ParseIndexIff(s: string, n: nat)
    ensures ParseIndex(s) == Some(n)
            <==> n <= 18_446_744_073_709_551_615 && (Padded(s, n) || exists t :: s == "+" + t && Padded(t, n))
  {
    ParseUnsigned(s);
    PaddedIff(Unsigned(s), n);
    if Padded(s, n) {
      PaddedIff(s, n);
      assert IsDigit(s[0]);
    }
    if t :| s == "+" + t && Padded(t, n) {
      PaddedIff(t, n);
      assert s[1..] == t;
    }
    assert |s| > 1 && s[0] == '+' ==> s == "+" + s[1..];
  }

  /** A non-empty segment selects the field of that name, or the item at the index that it denotes. */
  ghost predicate Selects(a: Value, segment: string, b: Value) {
    && segment != ""
    && match a
       case Obj(fields) => segment in fields && fields[segment] == b
       case Arr(items) => exists i: nat :: i < |items| && ParseIndex(segment) == Some(i) && items[i] == b
       case _ => false
  }

  /** The values met on the way, each selected from the one before. */
  ghost predicate Chain(vs: seq<Value>, segments: seq<string>) {
    |vs| == |segments| + 1 && forall i :: 0 <= i < |segments| ==> Selects(vs[i], segments[i], vs[i + 1])
  }

  ghost predicate Connects(v: Value, segments: seq<string>, w: Value) {
    exists vs :: Chain(vs, segments) && vs[0] == v && vs[|segments|] == w
  }

  lemma SelectsIff(a: Value, segment: string, b: Value)
    ensures Selects(a, segment, b) <==> Descend(a, segment).Some? && Descend(a, segment).value.1 == b
  {
  }

  lemma ConnectsFirst(v: Value, segments: seq<string>, w: Value)
    requires segments != []
    ensures Connects(v, segments, w) <==>
              Descend(v, segments[0]).Some? && Connects(Descend(v, segments[0]).value.1, segments[1..], w)
  {
    if Connects(v, segments, w) {
      ConnectsDown(v, segments, w);
    }
    var step := Descend(v, segments[0]);
    if step.Some? && Connects(step.value.1, segments[1..], w) {
      SelectsIff(v, segments[0], step.value.1);
      ConnectsUp(v, step.value.1, segments, w);
    }
  }

  lemma ConnectsDown(v: Value, segments: seq<string>, w: Value)
    requires segments != [] && Connects(v, segments, w)
    ensures Descend(v, segments[0]).Some? && Connects(Descend(v, segments[0]).value.1, segments[1..], w)
  {
    var vs :| Chain(vs, segments) && vs[0] == v && vs[|segments|] == w;
    SelectsIff(vs[0], segments[0], vs[1]);
    ChainShrinks(segments, vs);
    assert vs[1..][|segments| - 1] == w;
  }

  lemma ConnectsUp(v: Value, b: Value, segments: seq<string>, w: Value)
    requires segments != [] && Selects(v, segments[0], b) && Connects(b, segments[1..], w)
    ensures Connects(v, segments, w)
  {
    var vs :| Chain(vs, segments[1..]) && vs[0] == b && vs[|segments| - 1] == w;
    ChainGrows(v, segments, vs);
    assert ([v] + vs)[|segments|] == w;
  }

  lemma ChainShrinks(segments: seq<string>, vs: seq<Value>)
    requires segments != [] && Chain(vs, segments)
    ensures Chain(vs[1..], segments[1..])
  {
    forall i | 0 <= i < |segments| - 1 ensures Selects(vs[1..][i], segments[1..][i], vs[1..][i + 1]) {
      assert Selects(vs[i + 1], segments[i + 1], vs[i + 2]);
    }
  }

  /** A path reads exactly the values that a chain of selections leads to. */
  lemma {:induction false} GetIff(v: Value, segments: seq<string>, w: Value)
    ensures Get(v, segments) == Some(w) <==> Connects(v, segments, w)
  {
    if segments == [] {
      assert v == w ==> Chain([v], segments);
    } else {
      ConnectsFirst(v, segments, w);
      if Descend(v, segments[0]).Some? {
        GetIff(Descend(v, segments[0]).value.1, segments[1..], w);
      }
    }
  }

  lemma ChainGrows(v: Value, segments: seq<string>, vs: seq<Value>)
    requires segments != [] && Chain(vs, segments[1..]) && Selects(v, segments[0], vs[0])
    ensures Chain([v] + vs, segments)
  {
    var all := [v] + vs;
    forall i | 0 <= i < |segments| ensures Selects(all[i], segments[i], all[i + 1]) {
      if i > 0 {
        assert segments[1..][i - 1] == segments[i];
        assert Selects(vs[i - 1], segments[1..][i - 1], vs[i]);
      }
    }
  }
}
