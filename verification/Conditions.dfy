/** Rule conditions: leaf operators per request field, And/Or trees, and their negations. */
module Conditions {
  import opened Basics
  import opened Segments
  import Json

  /** Configuration values as the YAML reader delivers them. */
  datatype Yaml =
    | Null
    | Bool(b: bool)
    | Num(number: Json.Number)
    | Str(s: string)
    | Sequence(items: seq<Yaml>)
    | Mapping

  datatype Ip = V4(bits: nat) | V6(bits: nat)

  datatype Net = Net(base: Ip, prefix: nat)

  /** The external libraries that conditions lean on, left uninterpreted. */
  datatype Libs = Libs(
    isMatch: (string, string) -> bool,
    parseIp: string -> Option<Ip>,
    showIp: Ip -> string,
    parseNet: string -> Option<Net>,
    contains: (Net, Ip) -> bool,
    showNumber: Json.Number -> string,
    showJson: Json.Value -> string)

  /** The field and operator names of a condition, by the literal that they equal. */
  datatype Field = Method | Path | ClientIp | Header(name: string) | Body(path: string) | OtherField

  datatype Operator =
    | Equals | NotEquals | Contains | NotContains | StartsWith | EndsWith
    | Matches | NotMatches | In | NotIn | Exists | NotExists | OtherOperator

  datatype Condition = Condition(field: Field, operator: Operator, value: Option<Yaml>, regex: Option<string>)

  datatype Node = Leaf(condition: Condition) | And(all: seq<Node>) | Or(any: seq<Node>)

  datatype Context = Context(
    path: string, verb: string, headers: seq<(string, string)>, clientIp: string,
    body: Option<Json.Value>, userRole: Option<string>)

  function Text(libs: Libs, y: Yaml): Option<string> {
    match y
    case Str(s) => Some(s)
    case Bool(b) => Some(if b then "true" else "false")
    case Num(n) => Some(libs.showNumber(n))
    case _ => None
  }

  function ValueText(libs: Libs, c: Condition): Option<string> {
    if c.value.Some? then Text(libs, c.value.value) else None
  }

  predicate OccursAt(needle: string, hay: string, i: nat) {
    i + |needle| <= |hay| && hay[i..i + |needle|] == needle
  }

  predicate Infix(needle: string, hay: string) {
    exists i :: 0 <= i <= |hay| && OccursAt(needle, hay, i)
  }

  predicate Suffix(tail: string, s: string) {
    |tail| <= |s| && s[|s| - |tail|..] == tail
  }

  function Lower(ch: char): char {
    if 'A' <= ch <= 'Z' then ch + 32 as char else ch
  }

  predicate EqIgnoreCase(a: string, b: string) {
    |a| == |b| && forall i :: 0 <= i < |a| ==> Lower(a[i]) == Lower(b[i])
  }

  predicate TextIn(libs: Libs, items: seq<Yaml>, s: string) {
    exists i :: 0 <= i < |items| && Text(libs, items[i]) == Some(s)
  }

  predicate TextOutside(libs: Libs, items: seq<Yaml>, s: string) {
    forall i :: 0 <= i < |items| ==> Text(libs, items[i]) != Some(s)
  }

  predicate MatchPath(libs: Libs, c: Condition, path: string) {
    var val := ValueText(libs, c);
    match c.operator
    case Equals => val.Some? && path == val.value
    case NotEquals => val.Some? ==> path != val.value
    case Contains => val.Some? && Infix(val.value, path)
    case NotContains => val.Some? ==> !Infix(val.value, path)
    case StartsWith => val.Some? && val.value <= path
    case EndsWith => val.Some? && Suffix(val.value, path)
    case Matches => c.regex.Some? && libs.isMatch(c.regex.value, path)
    case NotMatches => c.regex.Some? ==> !libs.isMatch(c.regex.value, path)
    case In => c.value.Some? && c.value.value.Sequence? && TextIn(libs, c.value.value.items, path)
    case NotIn => c.value.Some? && c.value.value.Sequence? ==> TextOutside(libs, c.value.value.items, path)
    case _ => false
  }

  predicate SomeMethod(libs: Libs, items: seq<Yaml>, m: string) {
    exists i :: 0 <= i < |items| && Text(libs, items[i]).Some? && EqIgnoreCase(m, Text(libs, items[i]).value)
  }

  predicate NoMethod(libs: Libs, items: seq<Yaml>, m: string) {
    forall i :: 0 <= i < |items| && Text(libs, items[i]).Some? ==> !EqIgnoreCase(m, Text(libs, items[i]).value)
  }

  predicate MatchMethod(libs: Libs, c: Condition, m: string) {
    var val := ValueText(libs, c);
    match c.operator
    case Equals => val.Some? && EqIgnoreCase(m, val.value)
    case NotEquals => val.Some? ==> !EqIgnoreCase(m, val.value)
    case In => c.value.Some? && c.value.value.Sequence? && SomeMethod(libs, c.value.value.items, m)
    case NotIn => c.value.Some? && c.value.value.Sequence? ==> NoMethod(libs, c.value.value.items, m)
    case _ => false
  }

  function FindHeader(headers: seq<(string, string)>, name: string): Option<string> {
    if headers == [] then None
    else if EqIgnoreCase(headers[0].0, name) then Some(headers[0].1)
    else FindHeader(headers[1..], name)
  }

  predicate MatchHeader(libs: Libs, c: Condition, headers: seq<(string, string)>, name: string) {
    var hv := FindHeader(headers, name);
    var val := ValueText(libs, c);
    match c.operator
    case Equals => hv.Some? && val == hv
    case NotEquals => hv.Some? ==> val != hv
    case Contains => hv.Some? && val.Some? && Infix(val.value, hv.value)
    case NotContains => hv.Some? && val.Some? ==> !Infix(val.value, hv.value)
    case StartsWith => hv.Some? && val.Some? && val.value <= hv.value
    case EndsWith => hv.Some? && val.Some? && Suffix(val.value, hv.value)
    case Matches => hv.Some? && c.regex.Some? && libs.isMatch(c.regex.value, hv.value)
    case Exists => hv.Some?
    case NotExists => hv.None?
    case In => c.value.Some? && c.value.value.Sequence? && hv.Some? && TextIn(libs, c.value.value.items, hv.value)
    case NotIn => c.value.Some? && c.value.value.Sequence? && hv.Some? ==> TextOutside(libs, c.value.value.items, hv.value)
    case _ => false
  }

  /** The networks or addresses an IP condition lists: a sequence, or one scalar. */
  function Listed(libs: Libs, c: Condition): seq<string> {
    match c.value
    case Some(Sequence(items)) => Texts(libs, items)
    case Some(y) => if Text(libs, y).Some? then [Text(libs, y).value] else []
    case None => []
  }

  function Texts(libs: Libs, items: seq<Yaml>): seq<string> {
    if items == [] then []
    else (if Text(libs, items[0]).Some? then [Text(libs, items[0]).value] else []) + Texts(libs, items[1..])
  }

  function Networks(libs: Libs, cidrs: seq<string>): seq<Net> {
    if cidrs == [] then []
    else (if libs.parseNet(cidrs[0]).Some? then [libs.parseNet(cidrs[0]).value] else []) + Networks(libs, cidrs[1..])
  }

  predicate MatchIp(libs: Libs, c: Condition, client: string) {
    var ip := libs.parseIp(client);
    var val := ValueText(libs, c);
    var cidrs := Listed(libs, c);
    var nets := Networks(libs, cidrs);
    match c.operator
    case Equals => val.Some? && ip.Some? && libs.showIp(ip.value) == val.value
    case NotEquals => val.Some? && ip.Some? ==> libs.showIp(ip.value) != val.value
    case In =>
      ip.Some? && if nets == [] then libs.showIp(ip.value) in cidrs
                  else exists i :: 0 <= i < |nets| && libs.contains(nets[i], ip.value)
    case NotIn =>
      ip.Some? ==> if nets == [] then libs.showIp(ip.value) !in cidrs
                   else forall i :: 0 <= i < |nets| ==> !libs.contains(nets[i], ip.value)
    case _ => false
  }

  const I64_MAX: nat := 0x7FFF_FFFF_FFFF_FFFF

  function AsI64(n: Json.Number): Option<int> {
    match n
    case Natural(x) => if x <= I64_MAX then Some(x) else None
    case Negative(x) => Some(x)
    case Float(_) => None
  }

  function AsU64(n: Json.Number): Option<nat> {
    if n.Natural? then Some(n.n) else None
  }

  function AsF64(n: Json.Number): real {
    match n
    case Natural(x) => x as real
    case Negative(x) => x as real
    case Float(x) => x
  }

  predicate ValueEqual(y: Yaml, j: Json.Value) {
    match y
    case Str(s) => j == Json.Str(s)
    case Bool(b) => j == Json.Bool(b)
    case Num(n) =>
      if !j.Num? then false
      else if AsI64(j.number).Some? then AsI64(n) == AsI64(j.number)
      else if AsU64(j.number).Some? then AsU64(n) == AsU64(j.number)
      else AsF64(n) == AsF64(j.number)
    case _ => j.Null? && y.Null?
  }

  function BodyField(body: Option<Json.Value>, path: string): Option<Json.Value> {
    if body.Some? then Json.Get(body.value, Split(path, '.')) else None
  }

  predicate BodyContains(libs: Libs, j: Json.Value, s: string) {
    match j
    case Str(t) => Infix(s, t)
    case Arr(items) => exists i :: 0 <= i < |items| && items[i] == Json.Str(s)
    case _ => Infix(s, libs.showJson(j))
  }

  predicate BodyLacks(libs: Libs, j: Json.Value, s: string) {
    match j
    case Str(t) => !Infix(s, t)
    case Arr(items) => forall i :: 0 <= i < |items| ==> items[i] != Json.Str(s)
    case _ => !Infix(s, libs.showJson(j))
  }

  predicate MatchBody(libs: Libs, c: Condition, body: Option<Json.Value>, path: string) {
    var found := BodyField(body, path);
    if c.operator.Exists? then found.Some?
    else if c.operator.NotExists? then found.None?
    else if found.None? then false
    else
      var j := found.value;
      var val := ValueText(libs, c);
      var shown := if j.Str? then j.s else libs.showJson(j);
      match c.operator
      case Equals => c.value.Some? && ValueEqual(c.value.value, j)
      case NotEquals => c.value.Some? ==> !ValueEqual(c.value.value, j)
      case Contains => val.Some? && BodyContains(libs, j, val.value)
      case NotContains => val.Some? ==> BodyLacks(libs, j, val.value)
      case In =>
        c.value.Some? && c.value.value.Sequence? &&
        exists i :: 0 <= i < |c.value.value.items| && ValueEqual(c.value.value.items[i], j)
      case NotIn =>
        c.value.Some? && c.value.value.Sequence? ==>
          forall i :: 0 <= i < |c.value.value.items| ==> !ValueEqual(c.value.value.items[i], j)
      case StartsWith => val.Some? && val.value <= shown
      case Matches => c.regex.Some? && libs.isMatch(c.regex.value, shown)
      case _ => false
  }

  predicate EvaluateCondition(libs: Libs, c: Condition, ctx: Context) {
    match c.field
    case Method => MatchMethod(libs, c, ctx.verb)
    case Path => MatchPath(libs, c, ctx.path)
    case ClientIp => MatchIp(libs, c, ctx.clientIp)
    case Header(name) => MatchHeader(libs, c, ctx.headers, name)
    case Body(path) => MatchBody(libs, c, ctx.body, path)
    case OtherField => false
  }

  predicate EvaluateNode(libs: Libs, node: Node, ctx: Context) {
    match node
    case Leaf(c) => EvaluateCondition(libs, c, ctx)
    case And(nodes) => forall i :: 0 <= i < |nodes| ==> EvaluateNode(libs, nodes[i], ctx)
    case Or(nodes) => exists i :: 0 <= i < |nodes| && EvaluateNode(libs, nodes[i], ctx)
  }

  /** The operator spelled with the opposite `not_` prefix. */
  ghost function Opposite(op: Operator): Operator {
    match op
    case Equals => NotEquals
    case NotEquals => Equals
    case Contains => NotContains
    case NotContains => Contains
    case Matches => NotMatches
    case NotMatches => Matches
    case In => NotIn
    case NotIn => In
    case Exists => NotExists
    case NotExists => Exists
    case other => other
  }

  /** True when a field implements both an operator and its opposite. */
  ghost predicate Paired(c: Condition) {
    var eq := c.operator.Equals? || c.operator.NotEquals?;
    var part := c.operator.Contains? || c.operator.NotContains?;
    var rx := c.operator.Matches? || c.operator.NotMatches?;
    var member := c.operator.In? || c.operator.NotIn?;
    var presence := c.operator.Exists? || c.operator.NotExists?;
    match c.field
    case Path => eq || part || rx || member
    case Method => eq || member
    case ClientIp => eq || member
    case Header(_) => eq || part || member || presence
    case Body(_) => eq || part || member || presence
    case OtherField => false
  }

  /** A body operator other than a presence test has something to look at. */
  ghost predicate Observable(c: Condition, ctx: Context) {
    c.field.Body? && !c.operator.Exists? && !c.operator.NotExists? ==> BodyField(ctx.body, c.field.path).Some?
  }

  ghost function Negated(c: Condition): Condition {
    c.(operator := Opposite(c.operator))
  }

  lemma PathOpposite(libs: Libs, c: Condition, path: string)
    requires Paired(c) && c.field.Path?
    ensures MatchPath(libs, Negated(c), path) == !MatchPath(libs, c, path)
  {
  }

  lemma HeaderOpposite(libs: Libs, c: Condition, headers: seq<(string, string)>)
    requires Paired(c) && c.field.Header?
    ensures MatchHeader(libs, Negated(c), headers, c.field.name) == !MatchHeader(libs, c, headers, c.field.name)
  {
  }

  lemma IpOpposite(libs: Libs, c: Condition, client: string)
    requires Paired(c) && c.field.ClientIp?
    ensures MatchIp(libs, Negated(c), client) == !MatchIp(libs, c, client)
  {
  }

  lemma BodyOpposite(libs: Libs, c: Condition, ctx: Context)
    requires Paired(c) && c.field.Body?
    ensures Observable(c, ctx) ==>
              MatchBody(libs, Negated(c), ctx.body, c.field.path) == !MatchBody(libs, c, ctx.body, c.field.path)
    ensures !Observable(c, ctx) ==>
              !MatchBody(libs, Negated(c), ctx.body, c.field.path) && !MatchBody(libs, c, ctx.body, c.field.path)
  {
  }

  /**
   A paired leaf and its opposite disagree on a request exactly when the leaf is observable there;
   on an absent body field both are false.
   */
  lemma OppositeNegatesIff(libs: Libs, c: Condition, ctx: Context)
    requires Paired(c)
    ensures EvaluateCondition(libs, Negated(c), ctx) == !EvaluateCondition(libs, c, ctx) <==> Observable(c, ctx)
    ensures !Observable(c, ctx) ==> !EvaluateCondition(libs, Negated(c), ctx) && !EvaluateCondition(libs, c, ctx)
  {
    match c.field {
      case Path => PathOpposite(libs, c, ctx.path);
      case Header(_) => HeaderOpposite(libs, c, ctx.headers);
      case ClientIp => IpOpposite(libs, c, ctx.clientIp);
      case Body(_) => BodyOpposite(libs, c, ctx);
      case _ =>
    }
  }

  ghost function Dual(node: Node): Node {
    match node
    case Leaf(c) => Leaf(Negated(c))
    case And(nodes) => Or(seq(|nodes|, i requires 0 <= i < |nodes| => Dual(nodes[i])))
    case Or(nodes) => And(seq(|nodes|, i requires 0 <= i < |nodes| => Dual(nodes[i])))
  }

  ghost predicate Negatable(node: Node, ctx: Context) {
    match node
    case Leaf(c) => Paired(c) && Observable(c, ctx)
    case And(nodes) => forall i :: 0 <= i < |nodes| ==> Negatable(nodes[i], ctx)
    case Or(nodes) => forall i :: 0 <= i < |nodes| ==> Negatable(nodes[i], ctx)
  }

  /** De Morgan: swapping And with Or and every leaf with its opposite negates the whole tree. */
  lemma {:induction false} DualNegates(libs: Libs, node: Node, ctx: Context)
    requires Negatable(node, ctx)
    ensures EvaluateNode(libs, Dual(node), ctx) == !EvaluateNode(libs, node, ctx)
  {
    match node {
      case Leaf(c) => OppositeNegatesIff(libs, c, ctx);
      case And(nodes) =>
        forall i | 0 <= i < |nodes|
          ensures EvaluateNode(libs, Dual(node).any[i], ctx) == !EvaluateNode(libs, nodes[i], ctx)
        {
          DualNegates(libs, nodes[i], ctx);
        }
      case Or(nodes) =>
        forall i | 0 <= i < |nodes|
          ensures EvaluateNode(libs, Dual(node).all[i], ctx) == !EvaluateNode(libs, nodes[i], ctx)
        {
          DualNegates(libs, nodes[i], ctx);
        }
    }
  }

  /** Every leaf's field implements its operator and the opposite one. */
  ghost predicate PairedTree(node: Node) {
    match node
    case Leaf(c) => Paired(c)
    case And(nodes) => forall i :: 0 <= i < |nodes| ==> PairedTree(nodes[i])
    case Or(nodes) => forall i :: 0 <= i < |nodes| ==> PairedTree(nodes[i])
  }

  /** Whatever body fields are absent, a tree and its dual never both hold. */
  lemma {:induction false} DualExcludes(libs: Libs, node: Node, ctx: Context)
    requires PairedTree(node)
    ensures !(EvaluateNode(libs, Dual(node), ctx) && EvaluateNode(libs, node, ctx))
  {
    match node {
      case Leaf(c) => OppositeNegatesIff(libs, c, ctx);
      case And(nodes) =>
        forall i | 0 <= i < |nodes|
          ensures !(EvaluateNode(libs, Dual(node).any[i], ctx) && EvaluateNode(libs, nodes[i], ctx))
        {
          DualExcludes(libs, nodes[i], ctx);
        }
      case Or(nodes) =>
        forall i | 0 <= i < |nodes|
          ensures !(EvaluateNode(libs, Dual(node).all[i], ctx) && EvaluateNode(libs, nodes[i], ctx))
        {
          DualExcludes(libs, nodes[i], ctx);
        }
    }
  }
}
