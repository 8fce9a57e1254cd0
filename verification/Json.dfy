/** JSON values and the positions that dotted paths denote in them. */
module Json {
  import opened Basics
  import opened Segments

  datatype Number = Natural(n: nat) | Negative(m: int) | Float(x: real)

  datatype Value =
    | Null
    | Bool(b: bool)
    | Num(number: Number)
    | Str(s: string)
    | Arr(items: seq<Value>)
    | Obj(fields: map<string, Value>)

  const USIZE_MAX: nat := 0xFFFF_FFFF_FFFF_FFFF

  predicate IsDigit(c: char) {
    '0' <= c <= '9'
  }

  predicate Digits(s: string) {
    forall i :: 0 <= i < |s| ==> IsDigit(s[i])
  }

  function DigitsValue(s: string): nat
    requires Digits(s)
  {
    if s == [] then 0
    else
      var last := s[|s| - 1];
      assert IsDigit(last);
      DigitsValue(s[..|s| - 1]) * 10 + (last as int - '0' as int)
  }

  /** An array index as a `usize` parses it: an optional plus sign, then digits, within range. */
  function ParseIndex(s: string): Option<nat> {
    var digits := if |s| > 1 && s[0] == '+' then s[1..] else s;
    if digits == [] || !Digits(digits) then None
    else if DigitsValue(digits) > USIZE_MAX then None
    else Some(DigitsValue(digits))
  }

  /** One step down into a value. Different segments may spell the same index. */
  datatype Key = Field(name: string) | Index(i: nat)

  function KeyOf(v: Value, segment: string): Option<Key> {
    match v
    case Obj(_) => Some(Field(segment))
    case Arr(_) => var i := ParseIndex(segment); if i.Some? then Some(Index(i.value)) else None
    case _ => None
  }

  function Child(v: Value, key: Key): Option<Value> {
    match v
    case Obj(fields) => if key.Field? then Lookup(fields, key.name) else None
    case Arr(items) => if key.Index? && key.i < |items| then Some(items[key.i]) else None
    case _ => None
  }

  function WithChild(v: Value, key: Key, child: Value): Value
    requires Child(v, key).Some?
  {
    if v.Obj? then Obj(v.fields[key.name := child]) else Arr(v.items[key.i := child])
  }

  /** The key and child that a non-empty segment selects, if there is one. */
  function Descend(v: Value, segment: string): Option<(Key, Value)> {
    var key := KeyOf(v, segment);
    if segment == "" || key.None? then None
    else
      var child := Child(v, key.value);
      if child.None? then None else Some((key.value, child.value))
  }

  /** What a list of segments reads. */
  function Get(v: Value, segments: seq<string>): Option<Value> {
    if segments == [] then Some(v)
    else
      var step := Descend(v, segments[0]);
      if step.None? then None else Get(step.value.1, segments[1..])
  }

  type Position = seq<Key>

  /** The position a list of segments resolves to. */
  function Locate(v: Value, segments: seq<string>): Option<Position> {
    if segments == [] then Some([])
    else
      var step := Descend(v, segments[0]);
      if step.None? then None
      else
        var rest := Locate(step.value.1, segments[1..]);
        if rest.None? then None else Some([step.value.0] + rest.value)
  }

  function At(v: Value, p: Position): Option<Value> {
    if p == [] then Some(v)
    else
      var child := Child(v, p[0]);
      if child.None? then None else At(child.value, p[1..])
  }

  /** Overwrites the value at an existing position, as assigning through a mutable reference does. */
  function PutAt(v: Value, p: Position, target: Value): Value
    requires At(v, p).Some?
  {
    if p == [] then target
    else WithChild(v, p[0], PutAt(Child(v, p[0]).value, p[1..], target))
  }

  method JsonGet(root: Value, path: string) returns (r: Option<Value>)
    ensures r == Get(root, Split(path, '.'))
  {
    var segments := Split(path, '.');
    var current := root;
    for i := 0 to |segments|
      invariant Get(current, segments[i..]) == Get(root, segments)
    {
      var segment := segments[i];
      assert segments[i..][0] == segment && segments[i..][1..] == segments[i + 1..];
      if segment == "" {
        return None;
      }
      if current.Obj? {
        if segment !in current.fields {
          return None;
        }
        current := current.fields[segment];
      } else if current.Arr? {
        var idx := ParseIndex(segment);
        if idx.None? || idx.value >= |current.items| {
          return None;
        }
        current := current.items[idx.value];
      } else {
        return None;
      }
    }
    return Some(current);
  }

  /** The mutable walk. The reference it returns is modelled by the position it points at. */
  method JsonGetMut(root: Value, path: string) returns (r: Option<Position>)
    ensures r == Locate(root, Split(path, '.'))
  {
    var segments := Split(path, '.');
    var lastIdx := |segments| - 1;
    var current := root;
    var walked: Position := [];
    PrefixedNothing(Locate(root, segments));
    assert segments[0..] == segments;
    for i := 0 to |segments|
      invariant i <= lastIdx
      invariant Locate(root, segments) == Prefixed(walked, Locate(current, segments[i..]))
    {
      var segment := segments[i];
      ghost var rest := segments[i..];
      assert rest[0] == segment && rest[1..] == segments[i + 1..];
      if segment == "" {
        return None;
      }
      var key: Key;
      var child: Value;
      if current.Obj? {
        if segment !in current.fields {
          return None;
        }
        key, child := Field(segment), current.fields[segment];
      } else if current.Arr? {
        var idx := ParseIndex(segment);
        if idx.None? || idx.value >= |current.items| {
          return None;
        }
        key, child := Index(idx.value), current.items[idx.value];
      } else {
        return None;
      }
      assert Descend(current, segment) == Some((key, child));
      if i == lastIdx {
        assert rest[1..] == [];
        assert walked + ([key] + []) == walked + [key];
        return Some(walked + [key]);
      }
      PrefixedStep(walked, key, Locate(child, rest[1..]));
      current := child;
      walked := walked + [key];
    }
    return None;
  }

  /** Reading and locating agree: a path resolves for one exactly when it does for the other. */
  lemma {:induction false} LocateAgreesWithGet(v: Value, segments: seq<string>)
    ensures Locate(v, segments).Some? <==> Get(v, segments).Some?
    ensures Locate(v, segments).Some? ==> At(v, Locate(v, segments).value) == Get(v, segments)
  {
    if segments != [] {
      var step := Descend(v, segments[0]);
      if step.Some? {
        LocateAgreesWithGet(step.value.1, segments[1..]);
      }
    }
  }

  /** A written path still resolves, and reads back what was written. */
  lemma {:induction false} PutThenGet(v: Value, segments: seq<string>, target: Value)
    requires Locate(v, segments).Some?
    ensures At(v, Locate(v, segments).value).Some?
    ensures Get(PutAt(v, Locate(v, segments).value, target), segments) == Some(target)
  {
    LocateAgreesWithGet(v, segments);
    if segments != [] {
      var step := Descend(v, segments[0]).value;
      LocateAgreesWithGet(step.1, segments[1..]);
      PutThenGet(step.1, segments[1..], target);
      var p := Locate(v, segments).value;
      assert p[1..] == Locate(step.1, segments[1..]).value;
    }
  }

  /** Writing what a position already holds changes nothing. */
  lemma {:induction false} PutSame(v: Value, p: Position)
    requires At(v, p).Some?
    ensures PutAt(v, p, At(v, p).value) == v
  {
    if p != [] {
      PutSame(Child(v, p[0]).value, p[1..]);
    }
  }

  /** The same constructor with the same keys: what a write leaves of the nodes above its target. */
  ghost predicate SameShape(a: Value, b: Value) {
    || (a.Obj? && b.Obj? && a.fields.Keys == b.fields.Keys)
    || (a.Arr? && b.Arr? && |a.items| == |b.items|)
  }

  ghost predicate Under(q: Position, p: Position) {
    p <= q
  }

  /** Writing one child is read back there, and leaves the others and the shape alone. */
  lemma ChildOfWritten(v: Value, key: Key, child: Value)
    requires Child(v, key).Some?
    ensures Child(WithChild(v, key, child), key) == Some(child)
    ensures forall other :: other != key ==> Child(WithChild(v, key, child), other) == Child(v, other)
    ensures SameShape(v, WithChild(v, key, child))
  {
  }

  /**
   A write changes nothing outside its target: a position neither under the target nor above it
   holds what it held, and one above it keeps its kind and its keys.
   */
  lemma {:induction false} PutFrame(v: Value, p: Position, target: Value, q: Position)
    requires At(v, p).Some?
    requires !Under(q, p)
    ensures !Under(p, q) ==> At(PutAt(v, p, target), q) == At(v, q)
    ensures Under(p, q) ==> At(v, q).Some? && At(PutAt(v, p, target), q).Some?
                            && SameShape(At(v, q).value, At(PutAt(v, p, target), q).value)
  {
    var child := Child(v, p[0]).value;
    ChildOfWritten(v, p[0], PutAt(child, p[1..], target));
    if q != [] && q[0] == p[0] {
      assert p == [p[0]] + p[1..] && q == [q[0]] + q[1..];
      assert Under(p, q) <==> Under(p[1..], q[1..]);
      PutFrame(child, p[1..], target, q[1..]);
    }
  }

  /** Positions under a target are read from what was written there. */
  lemma {:induction false} AtUnder(v: Value, p: Position, target: Value, q: Position)
    requires At(v, p).Some? && Under(q, p)
    ensures At(PutAt(v, p, target), q) == At(target, q[|p|..])
    ensures At(v, q) == At(At(v, p).value, q[|p|..])
  {
    if p != [] {
      assert q[0] == p[0] && Under(q[1..], p[1..]) && q[1..][|p| - 1..] == q[|p|..];
      var child := Child(v, p[0]).value;
      var written := PutAt(child, p[1..], target);
      ChildOfWritten(v, p[0], written);
      AtUnder(child, p[1..], target, q[1..]);
      assert At(PutAt(v, p, target), q) == At(written, q[1..]);
    } else {
      assert q[|p|..] == q;
    }
  }
}
