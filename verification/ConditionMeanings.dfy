/** What each implemented operator says about a request, field by field. */
module ConditionMeanings {
  import opened Basics
  import opened Conditions
  import Json

  lemma InfixIff(needle: string, hay: string)
    ensures Infix(needle, hay) <==> exists a, b :: hay == a + needle + b
  {
    if i :| 0 <= i <= |hay| && OccursAt(needle, hay, i) {
      assert hay == hay[..i] + needle + hay[i + |needle|..];
    }
    forall a, b | hay == a + needle + b ensures Infix(needle, hay) {
      assert OccursAt(needle, hay, |a|);
    }
  }

  lemma PrefixIff(head: string, s: string)
    ensures head <= s <==> exists b :: s == head + b
  {
    if head <= s {
      assert s == head + s[|head|..];
    }
  }

  lemma SuffixIff(tail: string, s: string)
    ensures Suffix(tail, s) <==> exists a :: s == a + tail
  {
    if Suffix(tail, s) {
      assert s == s[..|s| - |tail|] + tail;
    }
    forall a | s == a + tail ensures Suffix(tail, s) {
      assert s[|s| - |tail|..] == tail;
    }
  }

  /** Case is ignored for the letters of the alphabet and for nothing else. */
  lemma LowerMeans(c: char)
    ensures forall i :: 0 <= i < 26 ==> Lower("ABCDEFGHIJKLMNOPQRSTUVWXYZ"[i]) == "abcdefghijklmnopqrstuvwxyz"[i]
    ensures c !in "ABCDEFGHIJKLMNOPQRSTUVWXYZ" ==> Lower(c) == c
  {
    var upper := "ABCDEFGHIJKLMNOPQRSTUVWXYZ";
    assert forall i :: 0 <= i < 26 ==> upper[i] as int == 'A' as int + i;
    if 'A' <= c <= 'Z' {
      assert upper[c as int - 'A' as int] == c;
    }
  }

  /** An And holds when none of its children fails, an Or when some child holds. */
  lemma TreeMeans(libs: Libs, nodes: seq<Node>, ctx: Context)
    ensures EvaluateNode(libs, And(nodes), ctx) <==> !exists n :: n in nodes && !EvaluateNode(libs, n, ctx)
    ensures EvaluateNode(libs, Or(nodes), ctx) <==> exists n :: n in nodes && EvaluateNode(libs, n, ctx)
  {
    forall n | n in nodes ensures exists i :: 0 <= i < |nodes| && nodes[i] == n {
      var i :| 0 <= i < |nodes| && nodes[i] == n;
    }
    if i :| 0 <= i < |nodes| && EvaluateNode(libs, nodes[i], ctx) {
      assert nodes[i] in nodes;
    }
    if i :| 0 <= i < |nodes| && !EvaluateNode(libs, nodes[i], ctx) {
      assert nodes[i] in nodes;
    }
  }

  /** Values that have a text, and values that have none. */
  lemma TextMeans(libs: Libs, s: string, n: Json.Number, items: seq<Yaml>)
    ensures Text(libs, Str(s)) == Some(s)
    ensures Text(libs, Bool(true)) == Some("true") && Text(libs, Bool(false)) == Some("false")
    ensures Text(libs, Num(n)) == Some(libs.showNumber(n))
    ensures Text(libs, Null) == Text(libs, Mapping) == Text(libs, Sequence(items)) == None
  {
  }

  ghost predicate Holds(libs: Libs, field: Field, op: Operator, value: Option<Yaml>, regex: Option<string>, ctx: Context) {
    EvaluateCondition(libs, Condition(field, op, value, regex), ctx)
  }

  ghost predicate HasText(libs: Libs, value: Option<Yaml>, text: string) {
    value.Some? && Text(libs, value.value) == Some(text)
  }

  /** One of the items of a sequence value has the text. */
  ghost predicate ListsText(libs: Libs, value: Option<Yaml>, text: string) {
    value.Some? && value.value.Sequence? && exists y :: y in value.value.items && Text(libs, y) == Some(text)
  }

  /** The value's text occurs in, begins or ends the given text. */
  ghost predicate OccursIn(libs: Libs, value: Option<Yaml>, hay: string) {
    exists a, w, b :: HasText(libs, value, w) && hay == a + w + b
  }

  ghost predicate Begins(libs: Libs, value: Option<Yaml>, hay: string) {
    exists w, b :: HasText(libs, value, w) && hay == w + b
  }

  ghost predicate Ends(libs: Libs, value: Option<Yaml>, hay: string) {
    exists a, w :: HasText(libs, value, w) && hay == a + w
  }

  lemma TextTests(libs: Libs, c: Condition, hay: string)
    ensures var val := ValueText(libs, c);
            && (OccursIn(libs, c.value, hay) <==> val.Some? && Infix(val.value, hay))
            && (Begins(libs, c.value, hay) <==> val.Some? && val.value <= hay)
            && (Ends(libs, c.value, hay) <==> val.Some? && Suffix(val.value, hay))
  {
    var val := ValueText(libs, c);
    if val.Some? {
      var w := val.value;
      assert HasText(libs, c.value, w);
      InfixIff(w, hay);
      PrefixIff(w, hay);
      SuffixIff(w, hay);
    }
  }

  lemma TextInIff(libs: Libs, items: seq<Yaml>, s: string)
    ensures TextIn(libs, items, s) <==> exists y :: y in items && Text(libs, y) == Some(s)
  {
    if y :| y in items && Text(libs, y) == Some(s) {
      var i :| 0 <= i < |items| && items[i] == y;
    }
  }

  lemma PathMeans(libs: Libs, value: Option<Yaml>, regex: Option<string>, ctx: Context)
    ensures Holds(libs, Path, Equals, value, regex, ctx) <==> HasText(libs, value, ctx.path)
    ensures Holds(libs, Path, Contains, value, regex, ctx) <==> OccursIn(libs, value, ctx.path)
    ensures Holds(libs, Path, StartsWith, value, regex, ctx) <==> Begins(libs, value, ctx.path)
    ensures Holds(libs, Path, EndsWith, value, regex, ctx) <==> Ends(libs, value, ctx.path)
    ensures Holds(libs, Path, Operator.Matches, value, regex, ctx) <==> regex.Some? && libs.isMatch(regex.value, ctx.path)
    ensures Holds(libs, Path, In, value, regex, ctx) <==> ListsText(libs, value, ctx.path)
  {
    TextTests(libs, Condition(Path, Contains, value, regex), ctx.path);
    TextTests(libs, Condition(Path, StartsWith, value, regex), ctx.path);
    TextTests(libs, Condition(Path, EndsWith, value, regex), ctx.path);
    if value.Some? && value.value.Sequence? {
      TextInIff(libs, value.value.items, ctx.path);
    }
  }

  lemma MethodMeans(libs: Libs, value: Option<Yaml>, regex: Option<string>, ctx: Context)
    ensures Holds(libs, Method, Equals, value, regex, ctx)
            <==> exists w :: HasText(libs, value, w) && EqIgnoreCase(ctx.verb, w)
    ensures Holds(libs, Method, In, value, regex, ctx)
            <==> exists w :: ListsText(libs, value, w) && EqIgnoreCase(ctx.verb, w)
  {
    if value.Some? && value.value.Sequence? {
      var items := value.value.items;
      if SomeMethod(libs, items, ctx.verb) {
        var i :| 0 <= i < |items| && Text(libs, items[i]).Some? && EqIgnoreCase(ctx.verb, Text(libs, items[i]).value);
        assert items[i] in items;
        assert ListsText(libs, value, Text(libs, items[i]).value);
      }
      forall w | ListsText(libs, value, w) && EqIgnoreCase(ctx.verb, w)
        ensures SomeMethod(libs, items, ctx.verb)
      {
        var y :| y in items && Text(libs, y) == Some(w);
        var i :| 0 <= i < |items| && items[i] == y;
      }
    }
  }

  /** The value of the first header with that name, in whatever case. */
  lemma {:induction false} FindHeaderIff(headers: seq<(string, string)>, name: string, v: string)
    ensures FindHeader(headers, name) == Some(v) <==>
              exists i :: FirstNamed(headers, name, i) && headers[i].1 == v
  {
    if headers != [] {
      var rest := headers[1..];
      FindHeaderIff(rest, name, v);
      if EqIgnoreCase(headers[0].0, name) {
        assert FirstNamed(headers, name, 0);
      } else {
        forall i | 0 <= i < |rest| ensures FirstNamed(rest, name, i) <==> FirstNamed(headers, name, i + 1) {
          NamedShift(headers, name, i);
        }
        if i :| FirstNamed(rest, name, i) && rest[i].1 == v {
          assert FirstNamed(headers, name, i + 1);
        }
        if i :| FirstNamed(headers, name, i) && headers[i].1 == v {
          assert FirstNamed(rest, name, i - 1);
        }
      }
    }
  }

  ghost predicate FirstNamed(headers: seq<(string, string)>, name: string, i: int) {
    0 <= i < |headers| && EqIgnoreCase(headers[i].0, name) && forall j :: 0 <= j < i ==> !EqIgnoreCase(headers[j].0, name)
  }

  lemma NamedShift(headers: seq<(string, string)>, name: string, i: nat)
    requires headers != [] && !EqIgnoreCase(headers[0].0, name) && i < |headers| - 1
    ensures FirstNamed(headers[1..], name, i) <==> FirstNamed(headers, name, i + 1)
  {
    var rest := headers[1..];
    assert forall j :: 0 <= j < |rest| ==> rest[j] == headers[j + 1];
    if FirstNamed(rest, name, i) {
      forall j | 0 <= j < i + 1 ensures !EqIgnoreCase(headers[j].0, name) {
        assert j > 0 ==> headers[j] == rest[j - 1];
      }
    }
    if FirstNamed(headers, name, i + 1) {
      forall j | 0 <= j < i ensures !EqIgnoreCase(rest[j].0, name) {
        assert rest[j] == headers[j + 1];
      }
    }
  }

  lemma HeaderMeans(libs: Libs, name: string, value: Option<Yaml>, regex: Option<string>, ctx: Context, v: string)
    requires FindHeader(ctx.headers, name) == Some(v)
    ensures Holds(libs, Header(name), Exists, value, regex, ctx)
    ensures Holds(libs, Header(name), Equals, value, regex, ctx) <==> HasText(libs, value, v)
    ensures Holds(libs, Header(name), Contains, value, regex, ctx) <==> OccursIn(libs, value, v)
    ensures Holds(libs, Header(name), StartsWith, value, regex, ctx) <==> Begins(libs, value, v)
    ensures Holds(libs, Header(name), EndsWith, value, regex, ctx) <==> Ends(libs, value, v)
    ensures Holds(libs, Header(name), Operator.Matches, value, regex, ctx) <==> regex.Some? && libs.isMatch(regex.value, v)
    ensures Holds(libs, Header(name), In, value, regex, ctx) <==> ListsText(libs, value, v)
  {
    TextTests(libs, Condition(Header(name), Contains, value, regex), v);
    TextTests(libs, Condition(Header(name), StartsWith, value, regex), v);
    TextTests(libs, Condition(Header(name), EndsWith, value, regex), v);
    if value.Some? && value.value.Sequence? {
      TextInIff(libs, value.value.items, v);
    }
  }

  /** Without the header only a negative test holds. */
  lemma NoHeaderMeans(libs: Libs, name: string, op: Operator, value: Option<Yaml>, regex: Option<string>, ctx: Context)
    requires FindHeader(ctx.headers, name).None?
    ensures Holds(libs, Header(name), op, value, regex, ctx)
            <==> op.NotExists? || op.NotEquals? || op.NotContains? || op.NotIn?
  {
  }

  lemma {:induction false} TextsIff(libs: Libs, items: seq<Yaml>, s: string)
    ensures s in Texts(libs, items) <==> exists y :: y in items && Text(libs, y) == Some(s)
  {
    if items != [] {
      TextsIff(libs, items[1..], s);
    }
  }

  lemma {:induction false} NetworksIff(libs: Libs, cidrs: seq<string>, net: Net)
    ensures net in Networks(libs, cidrs) <==> exists s :: s in cidrs && libs.parseNet(s) == Some(net)
  {
    if cidrs != [] {
      NetworksIff(libs, cidrs[1..], net);
    }
  }

  /** The value lists the text: as itself, or as an item of a sequence. */
  ghost predicate Mentions(libs: Libs, value: Option<Yaml>, s: string) {
    HasText(libs, value, s) || ListsText(libs, value, s)
  }

  ghost predicate MentionsNet(libs: Libs, value: Option<Yaml>, net: Net) {
    exists s :: Mentions(libs, value, s) && libs.parseNet(s) == Some(net)
  }

  lemma ListedIff(libs: Libs, c: Condition, s: string)
    ensures s in Listed(libs, c) <==> Mentions(libs, c.value, s)
  {
    if c.value.Some? && c.value.value.Sequence? {
      TextsIff(libs, c.value.value.items, s);
    }
  }

  lemma ListedNetIff(libs: Libs, c: Condition, net: Net)
    ensures net in Networks(libs, Listed(libs, c)) <==> MentionsNet(libs, c.value, net)
  {
    var cidrs := Listed(libs, c);
    NetworksIff(libs, cidrs, net);
    if s :| s in cidrs && libs.parseNet(s) == Some(net) {
      ListedIff(libs, c, s);
    }
    if s :| Mentions(libs, c.value, s) && libs.parseNet(s) == Some(net) {
      ListedIff(libs, c, s);
    }
  }

  /**
   An address is in a value when it parses and a network that the value mentions contains it;
   only a value without any network is searched for the address as text.
   */
  lemma IpMeans(libs: Libs, value: Option<Yaml>, regex: Option<string>, ctx: Context)
    ensures var ip := libs.parseIp(ctx.clientIp);
            && (Holds(libs, ClientIp, Equals, value, regex, ctx) <==> ip.Some? && HasText(libs, value, libs.showIp(ip.value)))
            && (Holds(libs, ClientIp, In, value, regex, ctx) <==>
                  ip.Some? &&
                  if exists net :: MentionsNet(libs, value, net)
                  then exists net :: MentionsNet(libs, value, net) && libs.contains(net, ip.value)
                  else Mentions(libs, value, libs.showIp(ip.value)))
  {
    var c := Condition(ClientIp, In, value, regex);
    var ip := libs.parseIp(ctx.clientIp);
    var nets := Networks(libs, Listed(libs, c));
    forall net ensures net in nets <==> MentionsNet(libs, value, net) {
      ListedNetIff(libs, c, net);
    }
    if nets != [] {
      assert nets[0] in nets;
    }
    if ip.Some? {
      ListedIff(libs, c, libs.showIp(ip.value));
      if i :| 0 <= i < |nets| && libs.contains(nets[i], ip.value) {
        assert nets[i] in nets;
      }
      if net :| MentionsNet(libs, value, net) && libs.contains(net, ip.value) {
        var i :| 0 <= i < |nets| && nets[i] == net;
      }
    }
  }

  /** How configuration values compare with JSON: same kind and same content, and whole numbers only with whole numbers. */
  lemma ValueEqualMeans(s: string, b: bool, j: Json.Value, x: real, n: nat, m: int, items: seq<Yaml>)
    ensures ValueEqual(Str(s), j) <==> j == Json.Str(s)
    ensures ValueEqual(Bool(b), j) <==> j == Json.Bool(b)
    ensures ValueEqual(Null, j) <==> j == Json.Null
    ensures !ValueEqual(Mapping, j) && !ValueEqual(Sequence(items), j)
    ensures j.Num? && j.number.Natural? ==>
              (ValueEqual(Num(Json.Natural(n)), j) <==> n == j.number.n) && !ValueEqual(Num(Json.Float(x)), j)
    ensures j.Num? && j.number.Negative? ==>
              (ValueEqual(Num(Json.Negative(m)), j) <==> m == j.number.m) && !ValueEqual(Num(Json.Float(x)), j)
    ensures j.Num? && j.number.Float? ==>
              && (ValueEqual(Num(Json.Natural(n)), j) <==> n as real == j.number.x)
              && (ValueEqual(Num(Json.Negative(m)), j) <==> m as real == j.number.x)
              && (ValueEqual(Num(Json.Float(x)), j) <==> x == j.number.x)
    ensures !j.Num? ==> !ValueEqual(Num(Json.Natural(n)), j) && !ValueEqual(Num(Json.Negative(m)), j) && !ValueEqual(Num(Json.Float(x)), j)
  {
  }

  lemma BodyMeans(libs: Libs, path: string, value: Option<Yaml>, regex: Option<string>, ctx: Context, j: Json.Value)
    requires BodyField(ctx.body, path) == Some(j)
    ensures var shown := if j.Str? then j.s else libs.showJson(j);
            && Holds(libs, Body(path), Exists, value, regex, ctx)
            && (Holds(libs, Body(path), Equals, value, regex, ctx) <==> value.Some? && ValueEqual(value.value, j))
            && (Holds(libs, Body(path), StartsWith, value, regex, ctx) <==> Begins(libs, value, shown))
            && (Holds(libs, Body(path), Operator.Matches, value, regex, ctx) <==> regex.Some? && libs.isMatch(regex.value, shown))
  {
    TextTests(libs, Condition(Body(path), StartsWith, value, regex), if j.Str? then j.s else libs.showJson(j));
  }

  /** A text or a shown value contains the value's text; an array has it as a text item. */
  lemma BodyContainsMeans(libs: Libs, path: string, value: Option<Yaml>, regex: Option<string>, ctx: Context, j: Json.Value)
    requires BodyField(ctx.body, path) == Some(j)
    ensures Holds(libs, Body(path), Contains, value, regex, ctx) <==>
              if j.Arr? then exists w :: HasText(libs, value, w) && Json.Str(w) in j.items
              else OccursIn(libs, value, if j.Str? then j.s else libs.showJson(j))
  {
    TextTests(libs, Condition(Body(path), Contains, value, regex), if j.Str? then j.s else libs.showJson(j));
    if j.Arr? {
      if w :| HasText(libs, value, w) && Json.Str(w) in j.items {
        var i :| 0 <= i < |j.items| && j.items[i] == Json.Str(w);
      }
    }
  }

  lemma BodyInMeans(libs: Libs, path: string, value: Option<Yaml>, regex: Option<string>, ctx: Context, j: Json.Value)
    requires BodyField(ctx.body, path) == Some(j)
    ensures Holds(libs, Body(path), In, value, regex, ctx) <==>
              value.Some? && value.value.Sequence? && exists y :: y in value.value.items && ValueEqual(y, j)
  {
    if value.Some? && value.value.Sequence? {
      var items := value.value.items;
      if y :| y in items && ValueEqual(y, j) {
        var i :| 0 <= i < |items| && items[i] == y;
      }
    }
  }

  /** Without the body field only an absence test holds. */
  lemma NoBodyMeans(libs: Libs, path: string, op: Operator, value: Option<Yaml>, regex: Option<string>, ctx: Context)
    requires BodyField(ctx.body, path).None?
    ensures Holds(libs, Body(path), op, value, regex, ctx) <==> op.NotExists?
  {
  }

  /** Operators that a field does not implement never hold. */
  lemma UnimplementedNeverHold(libs: Libs, c: Condition, ctx: Context)
    requires match c.field
             case Path => c.operator.Exists? || c.operator.NotExists? || c.operator.OtherOperator?
             case Method => !c.operator.Equals? && !c.operator.NotEquals? && !c.operator.In? && !c.operator.NotIn?
             case ClientIp => !c.operator.Equals? && !c.operator.NotEquals? && !c.operator.In? && !c.operator.NotIn?
             case Header(_) => c.operator.NotMatches? || c.operator.OtherOperator?
             case Body(_) => c.operator.NotMatches? || c.operator.EndsWith? || c.operator.OtherOperator?
             case OtherField => true
    ensures !EvaluateCondition(libs, c, ctx)
  {
  }
}
