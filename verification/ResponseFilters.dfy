/** The response filter pipeline: redact, remove and replace at dotted paths, in list order. */
module ResponseFilters {
  import opened Basics
  import opened Segments
  import opened Json

  const REDACTED := "***REDACTED***"

  datatype Filter = Filter(field: string, action: string, replacement: Option<string>)

  /** The text a filter writes, if it is one that writes. */
  function Written(f: Filter): Option<string> {
    if f.action == "redact" then Some(REDACTED)
    else if f.action == "replace" then Some(if f.replacement.Some? then f.replacement.value else "")
    else None
  }

  /** Deletes a key of the object that the other segments resolve to; arrays keep their elements. */
  function RemoveKey(v: Value, segments: seq<string>): Value
    requires segments != []
  {
    RemoveAt(v, Locate(v, segments[..|segments| - 1]), segments[|segments| - 1])
  }

  function RemoveAt(v: Value, parent: Option<Position>, key: string): Value {
    if parent.None? || At(v, parent.value).None? || !At(v, parent.value).value.Obj? then v
    else PutAt(v, parent.value, Obj(At(v, parent.value).value.fields - {key}))
  }

  function WriteText(v: Value, segments: seq<string>, text: string): Value {
    var p := Locate(v, segments);
    if p.None? || At(v, p.value).None? then v else PutAt(v, p.value, Str(text))
  }

  function Apply(f: Filter, v: Value): Value {
    var segments := Split(f.field, '.');
    if Written(f).Some? then WriteText(v, segments, Written(f).value)
    else if f.action == "remove" then RemoveKey(v, segments)
    else v
  }

  function ApplyAll(fs: seq<Filter>, v: Value): Value {
    if fs == [] then v else ApplyAll(fs[1..], Apply(fs[0], v))
  }

  /** The two-or-more segment removal; the parent path is joined and split again on the way. */
  method JsonRemove(root: Value, path: string) returns (after: Value)
    ensures after == if |Split(path, '.')| < 2 then root else RemoveKey(root, Split(path, '.'))
  {
    var segments := Split(path, '.');
    if |segments| < 2 {
      return root;
    }
    var parentPath := Join(segments[..|segments| - 1], '.');
    var key := segments[|segments| - 1];
    var parent := JsonGetMut(root, parentPath);
    ParentLocated(root, path, parent);
    after := RemoveFrom(root, parent, key);
  }

  /** The removal itself, when the parent path resolved. */
  method RemoveFrom(root: Value, parent: Option<Position>, key: string) returns (after: Value)
    requires parent.Some? ==> At(root, parent.value).Some?
    ensures after == RemoveAt(root, parent, key)
  {
    if parent.Some? {
      var target := At(root, parent.value).value;
      if target.Obj? {
        return PutAt(root, parent.value, Obj(target.fields - {key}));
      }
    }
    return root;
  }

  lemma ParentLocated(root: Value, path: string, parent: Option<Position>)
    requires |Split(path, '.')| >= 2
    requires var segments := Split(path, '.'); parent == Locate(root, Split(Join(segments[..|segments| - 1], '.'), '.'))
    ensures parent.Some? ==> At(root, parent.value).Some?
    ensures var segments := Split(path, '.');
            RemoveKey(root, segments) == RemoveAt(root, parent, segments[|segments| - 1])
  {
    var segments := Split(path, '.');
    ParentSegments(path);
    LocateAgreesWithGet(root, segments[..|segments| - 1]);
  }

  /** Joining all segments but the last and splitting again gives them back. */
  lemma ParentSegments(path: string)
    requires |Split(path, '.')| >= 2
    ensures var segments := Split(path, '.'); var front := segments[..|segments| - 1];
            Split(Join(front, '.'), '.') == front
  {
    var segments := Split(path, '.');
    SplitSeparates(path, '.');
    SplitJoin(segments[..|segments| - 1], '.');
  }

  method ApplyResponseFilters(filters: seq<Filter>, body: Value) returns (json: Value)
    ensures json == ApplyAll(filters, body)
  {
    json := body;
    for i := 0 to |filters|
      invariant ApplyAll(filters[i..], json) == ApplyAll(filters, body)
    {
      var filter := filters[i];
      ghost var before := json;
      assert filters[i..][0] == filter && filters[i..][1..] == filters[i + 1..];
      LocateAgreesWithGet(json, Split(filter.field, '.'));
      if filter.action == "redact" {
        var target := JsonGetMut(json, filter.field);
        if target.Some? {
          json := PutAt(json, target.value, Str("***REDACTED***"));
        }
      } else if filter.action == "remove" {
        var segments := Split(filter.field, '.');
        if |segments| == 1 {
          JoinSplit(filter.field, '.');
          if json.Obj? {
            json := Obj(json.fields - {filter.field});
          }
        } else {
          json := JsonRemove(json, filter.field);
        }
      } else if filter.action == "replace" {
        var replacement := if filter.replacement.Some? then filter.replacement.value else "";
        var target := JsonGetMut(json, filter.field);
        if target.Some? {
          json := PutAt(json, target.value, Str(replacement));
        }
      }
      assert json == Apply(filter, before);
    }
  }

  /** What a filter does at the end of its path. */
  datatype Edit = Write(text: string) | Drop

  /** The effect of an edit on what one key of an object or array holds. */
  ghost function EditSlot(slot: Option<Value>, inObject: bool, segments: seq<string>, edit: Edit): (after: Option<Value>)
    requires segments != []
    ensures !inObject && slot.Some? ==> after.Some?
    decreases segments, 0
  {
    if |segments| == 1 && edit.Drop? then (if inObject then None else slot)
    else if slot.None? || segments[0] == "" then slot
    else if |segments| == 1 then Some(Str(edit.text))
    else Some(EditTree(slot.value, segments[1..], edit))
  }

  /** The edit as one recursive walk down the tree. */
  ghost function EditTree(v: Value, segments: seq<string>, edit: Edit): Value
    requires segments != []
    decreases segments, 1
  {
    match v
    case Obj(m) => Obj(Store(m, segments[0], EditSlot(Lookup(m, segments[0]), true, segments, edit)))
    case Arr(items) =>
      var i := ParseIndex(segments[0]);
      if i.None? || i.value >= |items| then v
      else Arr(items[i.value := EditSlot(Some(items[i.value]), false, segments, edit).value])
    case _ => v
  }

  lemma WriteLastSegment(v: Value, segments: seq<string>, text: string)
    requires |segments| == 1
    ensures EditTree(v, segments, Write(text)) == WriteText(v, segments, text)
  {
    var step := Descend(v, segments[0]);
    assert segments[1..] == [];
    if v.Obj? {
      StoreFrame(v.fields, segments[0], Lookup(v.fields, segments[0]));
    }
    if step.Some? {
      var p := [step.value.0];
      assert p + [] == p && p[1..] == [];
      assert Locate(step.value.1, []) == Some([]);
      assert Locate(v, segments) == Some(p);
      assert PutAt(v, p, Str(text)) == WithChild(v, p[0], Str(text));
      assert At(v, p).Some?;
      assert v.Obj? ==> EditTree(v, segments, Write(text)) == WithChild(v, p[0], Str(text));
      assert v.Arr? ==> EditTree(v, segments, Write(text)) == WithChild(v, p[0], Str(text));
    }
  }

  lemma {:induction false} WriteIsEdit(v: Value, segments: seq<string>, text: string)
    requires segments != []
    ensures EditTree(v, segments, Write(text)) == WriteText(v, segments, text)
  {
    if |segments| == 1 {
      WriteLastSegment(v, segments, text);
      return;
    }
    LocateAgreesWithGet(v, segments);
    var step := Descend(v, segments[0]);
    if v.Obj? {
      StoreFrame(v.fields, segments[0], Lookup(v.fields, segments[0]));
    }
    if step.Some? {
      LocateAgreesWithGet(step.value.1, segments[1..]);
      WriteIsEdit(step.value.1, segments[1..], text);
      var rest := Locate(step.value.1, segments[1..]);
      if rest.Some? {
        assert ([step.value.0] + rest.value)[1..] == rest.value;
      }
    }
  }

  lemma {:induction false} RemoveIsEdit(v: Value, segments: seq<string>)
    requires segments != []
    ensures EditTree(v, segments, Drop) == RemoveKey(v, segments)
  {
    var n := |segments| - 1;
    if v.Obj? {
      StoreFrame(v.fields, segments[0], Lookup(v.fields, segments[0]));
    }
    if n == 0 {
      assert At(v, []) == Some(v);
    } else {
      LocateAgreesWithGet(v, segments[..n]);
      var step := Descend(v, segments[0]);
      assert segments[..n][0] == segments[0] && segments[..n][1..] == segments[1..][..n - 1];
      if step.Some? {
        var child, tail := step.value.1, segments[1..];
        RemoveIsEdit(child, tail);
        var rest := if n == 1 then Some([]) else Locate(child, tail[..n - 1]);
        assert n == 1 ==> tail[..n - 1] == [];
        assert Locate(v, segments[..n]) == if rest.None? then None else Some([step.value.0] + rest.value);
        if rest.Some? {
          assert ([step.value.0] + rest.value)[1..] == rest.value;
        }
      }
    }
  }

  /** Two slots that an edit makes equal are still made equal by it after any other edit of both. */
  lemma {:induction false} SlotCongruence(x: Option<Value>, y: Option<Value>, inObject: bool,
                                          f: seq<string>, fe: Edit, h: seq<string>, he: Edit)
    requires f != [] && h != []
    requires EditSlot(x, inObject, f, fe) == EditSlot(y, inObject, f, fe)
    requires !inObject ==> x.Some? && y.Some?
    ensures EditSlot(EditSlot(x, inObject, h, he), inObject, f, fe)
         == EditSlot(EditSlot(y, inObject, h, he), inObject, f, fe)
    decreases f, 0
  {
    if x.Some? && y.Some? && |f| > 1 && |h| > 1 && f[0] != "" && h[0] != "" {
      TreeCongruence(x.value, y.value, f[1..], fe, h[1..], he);
    }
  }

  lemma {:induction false} TreeCongruence(d: Value, e: Value, f: seq<string>, fe: Edit, h: seq<string>, he: Edit)
    requires f != [] && h != []
    requires EditTree(d, f, fe) == EditTree(e, f, fe)
    ensures EditTree(EditTree(d, h, he), f, fe) == EditTree(EditTree(e, h, he), f, fe)
    decreases f, 2
  {
    if d.Obj? {
      ObjectCongruence(d, e, f, fe, h, he);
    } else if d.Arr? {
      ArrayCongruence(d, e, f, fe, h, he);
    }
  }

  ghost function MapEdit(m: map<string, Value>, k: string, f: Option<Value> -> Option<Value>): map<string, Value> {
    Store(m, k, f(Lookup(m, k)))
  }

  lemma MapCongruence(m: map<string, Value>, n: map<string, Value>, s: string, t: string,
                      f: Option<Value> -> Option<Value>, h: Option<Value> -> Option<Value>)
    requires MapEdit(m, s, f) == MapEdit(n, s, f)
    requires s == t ==> f(h(Lookup(m, s))) == f(h(Lookup(n, s)))
    ensures MapEdit(MapEdit(m, t, h), s, f) == MapEdit(MapEdit(n, t, h), s, f)
  {
    var m1, n1 := MapEdit(m, t, h), MapEdit(n, t, h);
    StoreFrame(m, s, f(Lookup(m, s)));
    StoreFrame(n, s, f(Lookup(n, s)));
    StoreFrame(m, t, h(Lookup(m, t)));
    StoreFrame(n, t, h(Lookup(n, t)));
    StoreFrame(m1, s, f(Lookup(m1, s)));
    StoreFrame(n1, s, f(Lookup(n1, s)));
    forall k ensures Lookup(MapEdit(m1, s, f), k) == Lookup(MapEdit(n1, s, f), k) {
      assert Lookup(MapEdit(m, s, f), k) == Lookup(MapEdit(n, s, f), k);
    }
    SameLookups(MapEdit(m1, s, f), MapEdit(n1, s, f));
  }

  lemma SameLookups(m: map<string, Value>, n: map<string, Value>)
    requires forall k :: Lookup(m, k) == Lookup(n, k)
    ensures m == n
  {
    forall k | k in m ensures k in n && m[k] == n[k] {
      assert Lookup(m, k) == Lookup(n, k);
    }
    forall k | k in n ensures k in m {
      assert Lookup(m, k) == Lookup(n, k);
    }
  }

  ghost function SeqEdit(a: seq<Value>, i: Option<nat>, f: Value -> Value): seq<Value> {
    if i.None? || i.value >= |a| then a else a[i.value := f(a[i.value])]
  }

  lemma SeqCongruence(a: seq<Value>, b: seq<Value>, i: Option<nat>, j: Option<nat>, f: Value -> Value, h: Value -> Value)
    requires SeqEdit(a, i, f) == SeqEdit(b, i, f)
    requires i == j && i.Some? && i.value < |a| && i.value < |b| ==> f(h(a[i.value])) == f(h(b[i.value]))
    ensures SeqEdit(SeqEdit(a, j, h), i, f) == SeqEdit(SeqEdit(b, j, h), i, f)
  {
    var af, bf := SeqEdit(a, i, f), SeqEdit(b, i, f);
    assert |a| == |af| == |bf| == |b|;
    forall k | 0 <= k < |a| && i != Some(k) ensures a[k] == b[k] {
      assert af[k] == bf[k];
    }
    if i.Some? && i.value < |a| {
      assert af[i.value] == bf[i.value];
    }
  }

  lemma ObjectCongruence(d: Value, e: Value, f: seq<string>, fe: Edit, h: seq<string>, he: Edit)
    requires f != [] && h != [] && d.Obj? && e.Obj?
    requires EditTree(d, f, fe) == EditTree(e, f, fe)
    ensures EditTree(EditTree(d, h, he), f, fe) == EditTree(EditTree(e, h, he), f, fe)
    decreases f, 1
  {
    var m, n, s := d.fields, e.fields, f[0];
    var inF := (x: Option<Value>) => EditSlot(x, true, f, fe);
    var inH := (x: Option<Value>) => EditSlot(x, true, h, he);
    assert inF(Lookup(m, s)) == inF(Lookup(n, s)) by {
      StoreFrame(m, s, inF(Lookup(m, s)));
      StoreFrame(n, s, inF(Lookup(n, s)));
    }
    SlotCongruence(Lookup(m, s), Lookup(n, s), true, f, fe, h, he);
    MapCongruence(m, n, s, h[0], inF, inH);
  }

  /** What an edit makes of the array item it meets. */
  ghost function ItemEdit(f: seq<string>, fe: Edit): Value -> Value
    requires f != []
  {
    (x: Value) => EditSlot(Some(x), false, f, fe).value
  }

  lemma EditsItem(items: seq<Value>, f: seq<string>, fe: Edit)
    requires f != []
    ensures EditTree(Arr(items), f, fe) == Arr(SeqEdit(items, ParseIndex(f[0]), ItemEdit(f, fe)))
  {
  }

  lemma ArrayCongruence(d: Value, e: Value, f: seq<string>, fe: Edit, h: seq<string>, he: Edit)
    requires f != [] && h != [] && d.Arr? && e.Arr?
    requires EditTree(d, f, fe) == EditTree(e, f, fe)
    ensures EditTree(EditTree(d, h, he), f, fe) == EditTree(EditTree(e, h, he), f, fe)
    decreases f, 1
  {
    var a, b := d.items, e.items;
    var i, j := ParseIndex(f[0]), ParseIndex(h[0]);
    var inF, inH := ItemEdit(f, fe), ItemEdit(h, he);
    EditsItem(a, f, fe);
    EditsItem(b, f, fe);
    EditsItem(a, h, he);
    EditsItem(b, h, he);
    assert |SeqEdit(a, i, inF)| == |a| && |SeqEdit(b, i, inF)| == |b|;
    if i.Some? && i.value < |a| {
      assert SeqEdit(a, i, inF)[i.value] == SeqEdit(b, i, inF)[i.value];
      SlotCongruence(Some(a[i.value]), Some(b[i.value]), false, f, fe, h, he);
    }
    SeqCongruence(a, b, i, j, inF, inH);
    EditsItem(SeqEdit(a, j, inH), f, fe);
    EditsItem(SeqEdit(b, j, inH), f, fe);
  }

  /** Editing twice is editing once. */
  lemma {:induction false} EditTwice(v: Value, f: seq<string>, fe: Edit)
    requires f != []
    ensures EditTree(EditTree(v, f, fe), f, fe) == EditTree(v, f, fe)
  {
    var child := if v.Obj? then Lookup(v.fields, f[0])
                 else if v.Arr? && ParseIndex(f[0]).Some? && ParseIndex(f[0]).value < |v.items|
                 then Some(v.items[ParseIndex(f[0]).value]) else None;
    if child.Some? && |f| > 1 {
      EditTwice(child.value, f[1..], fe);
    }
    if v.Obj? {
      var once := EditTree(v, f, fe).fields;
      StoreFrame(v.fields, f[0], EditSlot(child, true, f, fe));
      StoreFrame(once, f[0], Lookup(once, f[0]));
    }
  }

  /** A filter is one edit, or does nothing. */
  lemma ApplyIsEdit(f: Filter, v: Value)
    ensures Written(f).Some? ==> Apply(f, v) == EditTree(v, Split(f.field, '.'), Write(Written(f).value))
    ensures Written(f).None? && f.action == "remove" ==> Apply(f, v) == EditTree(v, Split(f.field, '.'), Drop)
    ensures Written(f).None? && f.action != "remove" ==> Apply(f, v) == v
  {
    if Written(f).Some? {
      WriteIsEdit(v, Split(f.field, '.'), Written(f).value);
    } else {
      RemoveIsEdit(v, Split(f.field, '.'));
    }
  }

  /** No filter can bring back a difference that another filter hides. */
  lemma FilterCongruence(f: Filter, h: Filter, d: Value, e: Value)
    requires Apply(f, d) == Apply(f, e)
    ensures Apply(f, Apply(h, d)) == Apply(f, Apply(h, e))
  {
    ApplyIsEdit(f, d);
    ApplyIsEdit(f, e);
    ApplyIsEdit(h, d);
    ApplyIsEdit(h, e);
    ApplyIsEdit(f, Apply(h, d));
    ApplyIsEdit(f, Apply(h, e));
    var fe := if Written(f).Some? then Write(Written(f).value) else Drop;
    var he := if Written(h).Some? then Write(Written(h).value) else Drop;
    if (Written(f).Some? || f.action == "remove") && (Written(h).Some? || h.action == "remove") {
      TreeCongruence(d, e, Split(f.field, '.'), fe, Split(h.field, '.'), he);
    }
  }

  lemma {:induction false} ListCongruence(f: Filter, hs: seq<Filter>, d: Value, e: Value)
    requires Apply(f, d) == Apply(f, e)
    ensures Apply(f, ApplyAll(hs, d)) == Apply(f, ApplyAll(hs, e))
  {
    if hs != [] {
      FilterCongruence(f, hs[0], d, e);
      ListCongruence(f, hs[1..], Apply(hs[0], d), Apply(hs[0], e));
    }
  }

  lemma {:induction false} ApplyAllConcat(a: seq<Filter>, b: seq<Filter>, v: Value)
    ensures ApplyAll(a + b, v) == ApplyAll(b, ApplyAll(a, v))
  {
    if a == [] {
      assert a + b == b;
    } else {
      assert (a + b)[1..] == a[1..] + b;
      ApplyAllConcat(a[1..], b, Apply(a[0], v));
    }
  }

  /** A list absorbs any of its own filters applied first. */
  lemma ListAbsorbs(fs: seq<Filter>, i: nat, v: Value)
    requires i < |fs|
    ensures ApplyAll(fs, Apply(fs[i], v)) == ApplyAll(fs, v)
  {
    var f, w := fs[i], Apply(fs[i], v);
    assert Apply(f, w) == w by {
      ApplyIsEdit(f, v);
      ApplyIsEdit(f, w);
      if Written(f).Some? || f.action == "remove" {
        EditTwice(v, Split(f.field, '.'), if Written(f).Some? then Write(Written(f).value) else Drop);
      }
    }
    ListCongruence(f, fs[..i], w, v);
    assert fs == fs[..i] + ([f] + fs[i + 1..]);
    ApplyAllConcat(fs[..i], [f] + fs[i + 1..], w);
    ApplyAllConcat(fs[..i], [f] + fs[i + 1..], v);
    assert ([f] + fs[i + 1..])[1..] == fs[i + 1..];
  }

  lemma {:induction false} ListAbsorbsAll(fs: seq<Filter>, gs: seq<Filter>, v: Value)
    requires forall g :: g in gs ==> g in fs
    ensures ApplyAll(fs, ApplyAll(gs, v)) == ApplyAll(fs, v)
  {
    if gs != [] {
      ListAbsorbsAll(fs, gs[1..], Apply(gs[0], v));
      assert gs[0] in fs;
      var i :| 0 <= i < |fs| && fs[i] == gs[0];
      ListAbsorbs(fs, i, v);
    }
  }

  /**
   Filtering is idempotent: a second pass of the whole list, in the same order, changes nothing,
   whatever the document and however the filters' paths overlap, nest or alias one another.
   */
  lemma FilteringIdempotent(fs: seq<Filter>, v: Value)
    ensures ApplyAll(fs, ApplyAll(fs, v)) == ApplyAll(fs, v)
  {
    ListAbsorbsAll(fs, fs, v);
  }

  /** A redacted or replaced path that resolved before reads back exactly the text written. */
  lemma WrittenReadsBack(f: Filter, v: Value)
    requires Written(f).Some?
    ensures var segments := Split(f.field, '.');
            Get(Apply(f, v), segments)
              == if Get(v, segments).Some? then Some(Str(Written(f).value)) else None
  {
    var segments := Split(f.field, '.');
    LocateAgreesWithGet(v, segments);
    if Locate(v, segments).Some? {
      PutThenGet(v, segments, Str(Written(f).value));
    }
  }

  /** A removed path reads as absent, unless it named an array element, which removal leaves alone. */
  lemma {:induction false} RemovedReadsAbsentIff(v: Value, segments: seq<string>)
    requires segments != []
    ensures var parent := Get(v, segments[..|segments| - 1]);
            Get(RemoveKey(v, segments), segments).Some?
            <==> (Get(v, segments).Some? && parent.Some? && parent.value.Arr?)
  {
    if |segments| == 1 {
      RemovedOwnKey(v, segments);
    } else {
      var step := Descend(v, segments[0]);
      RemovedBelow(v, segments);
      ParentBelow(v, segments);
      if step.Some? {
        RemovedReadsAbsentIff(step.value.1, segments[1..]);
      }
    }
  }

  lemma RemovedOwnKey(v: Value, segments: seq<string>)
    requires |segments| == 1
    ensures segments[..0] == []
    ensures Get(RemoveKey(v, segments), segments).Some? <==> Get(v, segments).Some? && v.Arr?
  {
    assert segments[..0] == [] && segments[1..] == [];
  }

  /** Removing further down is removing in the child that the first segment selects. */
  lemma RemovedBelow(v: Value, segments: seq<string>)
    requires |segments| > 1
    ensures var step := Descend(v, segments[0]);
            Get(RemoveKey(v, segments), segments)
              == if step.None? then None else Get(RemoveKey(step.value.1, segments[1..]), segments[1..])
  {
    RemoveIsEdit(v, segments);
    EditedBelow(v, segments, Drop);
    var step := Descend(v, segments[0]);
    if step.Some? {
      RemoveIsEdit(step.value.1, segments[1..]);
    }
  }

  /** An edit further down is seen through the child that the first segment selects. */
  lemma EditedBelow(v: Value, segments: seq<string>, edit: Edit)
    requires |segments| > 1
    ensures var step := Descend(v, segments[0]);
            Descend(EditTree(v, segments, edit), segments[0])
              == if step.None? then None else Some((step.value.0, EditTree(step.value.1, segments[1..], edit)))
  {
    if v.Obj? {
      StoreFrame(v.fields, segments[0], EditSlot(Lookup(v.fields, segments[0]), true, segments, edit));
    }
  }

  lemma ParentBelow(v: Value, segments: seq<string>)
    requires |segments| > 1
    ensures var n, step := |segments| - 1, Descend(v, segments[0]);
            Get(v, segments[..n]) == if step.None? then None else Get(step.value.1, segments[1..][..n - 1])
  {
    var n := |segments| - 1;
    assert segments[..n][0] == segments[0] && segments[..n][1..] == segments[1..][..n - 1];
  }

  lemma OtherChildKept(m: map<string, Value>, name: string, q: Position)
    requires q != [] && q[0] != Field(name)
    ensures At(Obj(m - {name}), q) == At(Obj(m), q)
  {
    assert Child(Obj(m - {name}), q[0]) == Child(Obj(m), q[0]);
  }

  /** A removal changes nothing but the removed key, what hangs under it, and the nodes above it. */
  lemma RemoveFrame(v: Value, segments: seq<string>, q: Position)
    requires segments != []
    requires var parent := Locate(v, segments[..|segments| - 1]);
             parent.Some? ==> !Under(q, parent.value + [Field(segments[|segments| - 1])]) && !Under(parent.value, q)
    ensures At(RemoveKey(v, segments), q) == At(v, q)
  {
    var n := |segments| - 1;
    var parent := Get(v, segments[..n]);
    if parent.Some? && parent.value.Obj? {
      var p := ObjectParent(v, segments);
      KeyRemovedElsewhere(v, p, parent.value.fields, segments[n], q);
    } else {
      NoObjectParent(v, segments);
    }
  }

  /** Writing back an object without one of its keys. */
  lemma KeyRemovedElsewhere(v: Value, p: Position, m: map<string, Value>, name: string, q: Position)
    requires At(v, p) == Some(Obj(m))
    requires !Under(q, p + [Field(name)]) && !Under(p, q)
    ensures At(PutAt(v, p, Obj(m - {name})), q) == At(v, q)
  {
    var target := Obj(m - {name});
    if Under(q, p) {
      AtUnder(v, p, target, q);
      OtherKeyBelow(p, q, Field(name));
      OtherChildKept(m, name, q[|p|..]);
    } else {
      PutFrame(v, p, target, q);
    }
  }

  lemma OtherKeyBelow(p: Position, q: Position, key: Key)
    requires Under(q, p) && !Under(q, p + [key]) && !Under(p, q)
    ensures q[|p|..] != [] && q[|p|..][0] != key
  {
    assert q == p + q[|p|..];
    assert q[|p|..] != [] && q[..|p| + 1] == p + [q[|p|]];
  }

  /** The object that the segments before the last resolve to, and what removal makes of it. */
  lemma ObjectParent(v: Value, segments: seq<string>) returns (p: Position)
    requires segments != []
    requires var parent := Get(v, segments[..|segments| - 1]); parent.Some? && parent.value.Obj?
    ensures Locate(v, segments[..|segments| - 1]) == Some(p)
    ensures At(v, p) == Get(v, segments[..|segments| - 1])
    ensures RemoveKey(v, segments)
         == PutAt(v, p, Obj(Get(v, segments[..|segments| - 1]).value.fields - {segments[|segments| - 1]}))
  {
    LocateAgreesWithGet(v, segments[..|segments| - 1]);
    p := Locate(v, segments[..|segments| - 1]).value;
  }

  lemma NoObjectParent(v: Value, segments: seq<string>)
    requires segments != []
    requires var parent := Get(v, segments[..|segments| - 1]); !(parent.Some? && parent.value.Obj?)
    ensures RemoveKey(v, segments) == v
  {
    LocateAgreesWithGet(v, segments[..|segments| - 1]);
  }

  /** One filter alone. */
  lemma OneFilter(f: Filter, v: Value)
    ensures ApplyAll([f], v) == Apply(f, v)
  {
    assert [f][1..] == [];
  }

  /** Redacting overwrites what the path resolves to, and does nothing when it resolves to nothing. */
  lemma RedactMeans(field: string, replacement: Option<string>, v: Value)
    ensures var segments, after := Split(field, '.'), ApplyAll([Filter(field, "redact", replacement)], v);
            && (Get(v, segments).None? ==> after == v)
            && (Get(v, segments).Some? ==>
                  && Get(after, segments) == Some(Str("***REDACTED***"))
                  && Locate(v, segments).Some? && At(v, Locate(v, segments).value).Some?
                  && after == PutAt(v, Locate(v, segments).value, Str("***REDACTED***")))
  {
    WriteMeans(Filter(field, "redact", replacement), v, "***REDACTED***");
  }

  /** Replacing writes the replacement there, or the empty text when there is none. */
  lemma ReplaceMeans(field: string, replacement: Option<string>, v: Value)
    ensures var segments, after := Split(field, '.'), ApplyAll([Filter(field, "replace", replacement)], v);
            var text := if replacement.Some? then replacement.value else "";
            && (Get(v, segments).None? ==> after == v)
            && (Get(v, segments).Some? ==>
                  && Get(after, segments) == Some(Str(text))
                  && Locate(v, segments).Some? && At(v, Locate(v, segments).value).Some?
                  && after == PutAt(v, Locate(v, segments).value, Str(text)))
  {
    WriteMeans(Filter(field, "replace", replacement), v, if replacement.Some? then replacement.value else "");
  }

  lemma WriteMeans(f: Filter, v: Value, text: string)
    requires Written(f) == Some(text)
    ensures var segments, after := Split(f.field, '.'), ApplyAll([f], v);
            && (Get(v, segments).None? ==> after == v)
            && (Get(v, segments).Some? ==>
                  && Get(after, segments) == Some(Str(text))
                  && Locate(v, segments).Some? && At(v, Locate(v, segments).value).Some?
                  && after == PutAt(v, Locate(v, segments).value, Str(text)))
  {
    OneFilter(f, v);
    LocateAgreesWithGet(v, Split(f.field, '.'));
    WrittenReadsBack(f, v);
  }

  /**
   Removing deletes the last key from the object that the rest of the path resolves to, if the
   object has it. Nothing else is ever removed: no array element, and nothing for a path whose
   other segments do not resolve to an object.
   */
  lemma RemoveMeans(field: string, replacement: Option<string>, v: Value)
    ensures var segments, after := Split(field, '.'), ApplyAll([Filter(field, "remove", replacement)], v);
            var n := |segments| - 1;
            var parent := Get(v, segments[..n]);
            if parent.Some? && parent.value.Obj? && segments[n] in parent.value.fields then
              && Get(after, segments).None?
              && Locate(v, segments[..n]).Some? && At(v, Locate(v, segments[..n]).value).Some?
              && after == PutAt(v, Locate(v, segments[..n]).value, Obj(parent.value.fields - {segments[n]}))
            else after == v
  {
    var f := Filter(field, "remove", replacement);
    var segments := Split(field, '.');
    var n := |segments| - 1;
    OneFilter(f, v);
    RemovedReadsAbsentIff(v, segments);
    var parent := Get(v, segments[..n]);
    if parent.Some? && parent.value.Obj? {
      var p := ObjectParent(v, segments);
      if segments[n] !in parent.value.fields {
        assert parent.value.fields - {segments[n]} == parent.value.fields;
        PutSame(v, p);
      }
    } else {
      NoObjectParent(v, segments);
    }
  }

  /**
   A removal of a path that reads nothing leaves the document alone, except that an empty last
   segment, which nothing reads, still names the empty key.
   */
  lemma UnreadRemovalIff(field: string, replacement: Option<string>, v: Value)
    requires Get(v, Split(field, '.')).None?
    ensures var segments := Split(field, '.');
            var parent := Get(v, segments[..|segments| - 1]);
            ApplyAll([Filter(field, "remove", replacement)], v) != v
            <==> segments[|segments| - 1] == "" && parent.Some? && parent.value.Obj? && "" in parent.value.fields
  {
    var segments := Split(field, '.');
    var n := |segments| - 1;
    RemoveMeans(field, replacement, v);
    GetParent(v, segments);
    var parent := Get(v, segments[..n]);
    if parent.Some? && parent.value.Obj? {
      LastSegmentRead(parent.value.fields, segments[n]);
    }
    if parent.Some? && parent.value.Obj? && segments[n] in parent.value.fields {
      var p := ObjectParent(v, segments);
      PutDiffers(v, p, Obj(parent.value.fields - {segments[n]}));
    }
  }

  lemma LastSegmentRead(m: map<string, Value>, name: string)
    ensures Get(Obj(m), [name]).Some? <==> name != "" && name in m
  {
    assert [name][1..] == [];
  }

  lemma PutDiffers(v: Value, p: Position, target: Value)
    requires At(v, p).Some? && At(v, p) != Some(target)
    ensures PutAt(v, p, target) != v
  {
    AtUnder(v, p, target, p);
    assert p[|p|..] == [];
  }

  /** The smallest such document: the empty path removes the empty key. */
  lemma EmptyKeyRemoved()
    ensures Get(Obj(map["" := Null]), Split("", '.')).None?
    ensures ApplyAll([Filter("", "remove", None)], Obj(map["" := Null])) == Obj(map[])
  {
    var v := Obj(map["" := Null]);
    RemoveMeans("", None, v);
    assert v.fields - {""} == map[];
  }

  /** Any other action does nothing. */
  lemma OtherActionMeansNothing(f: Filter, v: Value)
    requires f.action != "redact" && f.action != "remove" && f.action != "replace"
    ensures ApplyAll([f], v) == v
  {
    OneFilter(f, v);
  }

  /** The last segment is looked up in what the others resolve to. */
  lemma {:induction false} GetParent(v: Value, segments: seq<string>)
    requires segments != []
    ensures var parent := Get(v, segments[..|segments| - 1]);
            Get(v, segments) == if parent.None? then None else Get(parent.value, [segments[|segments| - 1]])
  {
    var n := |segments| - 1;
    if n == 0 {
      assert segments[..0] == [] && segments == [segments[0]];
    } else {
      var step := Descend(v, segments[0]);
      assert segments[..n][0] == segments[0] && segments[..n][1..] == segments[1..][..n - 1];
      if step.Some? {
        GetParent(step.value.1, segments[1..]);
      }
    }
  }
}
