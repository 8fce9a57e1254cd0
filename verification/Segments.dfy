/** Splitting a sequence at a separator, and joining the pieces again. */
module Segments {

  function Split<T(==)>(s: seq<T>, sep: T): (parts: seq<seq<T>>)
    ensures |parts| >= 1
  {
    if s == [] then [[]]
    else
      var rest := Split(s[1..], sep);
      if s[0] == sep then [[]] + rest else [[s[0]] + rest[0]] + rest[1..]
  }

  function Join<T>(parts: seq<seq<T>>, sep: T): seq<T> {
    if parts == [] then []
    else if |parts| == 1 then parts[0]
    else parts[0] + [sep] + Join(parts[1..], sep)
  }

  ghost predicate Separable<T>(parts: seq<seq<T>>, sep: T) {
    forall i :: 0 <= i < |parts| ==> sep !in parts[i]
  }

  lemma {:induction false} SplitSeparates<T>(s: seq<T>, sep: T)
    ensures Separable(Split(s, sep), sep)
  {
    if s != [] {
      SplitSeparates(s[1..], sep);
    }
  }

  /** Every element of a piece comes from the sequence. */
  lemma {:induction false} SplitElements<T>(s: seq<T>, sep: T)
    ensures forall i, x :: 0 <= i < |Split(s, sep)| && x in Split(s, sep)[i] ==> x in s
  {
    if s != [] {
      SplitElements(s[1..], sep);
      var rest, parts := Split(s[1..], sep), Split(s, sep);
      forall i, x | 0 <= i < |parts| && x in parts[i]
        ensures x in s
      {
        if s[0] == sep {
          assert parts[i] == if i == 0 then [] else rest[i - 1];
          assert x in s[1..];
        } else if x != s[0] {
          assert parts[i] == if i == 0 then [s[0]] + rest[0] else rest[i];
          assert x in rest[i];
          assert x in s[1..];
        }
      }
    }
  }

  lemma {:induction false} SplitPrefix<T>(a: seq<T>, sep: T, b: seq<T>)
    requires sep !in a
    ensures Split(a + [sep] + b, sep) == [a] + Split(b, sep)
    ensures Split(a, sep) == [a]
  {
    if a == [] {
      assert a + [sep] + b == [sep] + b;
    } else {
      SplitPrefix(a[1..], sep, b);
      assert a[0] in a;
      assert (a + [sep] + b)[1..] == a[1..] + [sep] + b;
      assert [a[0]] + a[1..] == a;
    }
  }

  /** Splitting undoes joining. */
  lemma {:induction false} SplitJoin<T>(parts: seq<seq<T>>, sep: T)
    requires parts != [] && Separable(parts, sep)
    ensures Split(Join(parts, sep), sep) == parts
  {
    if |parts| == 1 {
      SplitPrefix(parts[0], sep, []);
    } else {
      SplitPrefix(parts[0], sep, Join(parts[1..], sep));
      SplitJoin(parts[1..], sep);
    }
  }

  /** Joining undoes splitting. */
  lemma {:induction false} JoinSplit<T>(s: seq<T>, sep: T)
    ensures Join(Split(s, sep), sep) == s
  {
    if s != [] {
      JoinSplit(s[1..], sep);
      var rest := Split(s[1..], sep);
      if s[0] != sep && |rest| > 1 {
        assert Split(s, sep)[1..] == rest[1..];
      }
    }
  }
}
