/** Bearer tokens: taking one from the headers, comparing it, and the role it stands for. */
module Tokens {
  import opened Basics
  import opened Utf8

  type Text = seq<Byte>

  const MAX_TOKEN_LEN := 4096
  const TWO_32 := 0x1_0000_0000

  /** The exclusive or of two numbers' low `width` bits. */
  function Xor(a: nat, b: nat, width: nat): nat {
    if width == 0 then 0
    else 2 * Xor(a / 2, b / 2, width - 1) + if a % 2 != b % 2 then 1 else 0
  }

  function Or(a: nat, b: nat): (r: nat)
    ensures r == 0 <==> a == 0 && b == 0
  {
    if a == 0 && b == 0 then 0
    else 2 * Or(a / 2, b / 2) + if a % 2 == 1 || b % 2 == 1 then 1 else 0
  }

  ghost function Pow2(n: nat): (p: nat)
    ensures p > 0
  {
    if n == 0 then 1 else 2 * Pow2(n - 1)
  }

  ghost function Low(n: nat, width: nat): nat {
    if width == 0 then 0 else 2 * Low(n / 2, width - 1) + n % 2
  }

  lemma {:induction false} XorVanishes(a: nat, b: nat, width: nat)
    ensures Xor(a, b, width) == 0 <==> Low(a, width) == Low(b, width)
  {
    if width > 0 {
      XorVanishes(a / 2, b / 2, width - 1);
    }
  }

  /** A number is its low bits plus a multiple of 2^width. */
  lemma {:induction false} LowBits(n: nat, width: nat) returns (high: nat)
    ensures n == Low(n, width) + high * Pow2(width)
    ensures Low(n, width) < Pow2(width)
  {
    if width == 0 {
      high := n;
    } else {
      high := LowBits(n / 2, width - 1);
      assert 2 * (high * Pow2(width - 1)) == high * Pow2(width);
    }
  }

  function ByteAt(s: Text, i: nat): Byte {
    if i < |s| then s[i] else 0
  }

  /** One text continues the other by zero bytes only, a multiple of 2^32 of them. */
  ghost predicate ZeroExtends(longer: Text, shorter: Text) {
    && |shorter| <= |longer|
    && |longer| % TWO_32 == |shorter| % TWO_32
    && forall i :: 0 <= i < |longer| ==> longer[i] == ByteAt(shorter, i)
  }

  lemma Remainder32(n: nat, width: nat)
    requires Pow2(width) == TWO_32
    ensures Low(n, width) == n % TWO_32
  {
    var high := LowBits(n, width);
    SplitsUniquely(n, Low(n, width), high);
  }

  lemma SplitsUniquely(n: nat, low: nat, high: nat)
    requires n == low + high * TWO_32 && low < TWO_32
    ensures low == n % TWO_32
  {
  }

  lemma Xor32(a: nat, b: nat, width: nat)
    requires Pow2(width) == TWO_32
    ensures Xor(a, b, width) == 0 <==> a % TWO_32 == b % TWO_32
  {
    XorVanishes(a, b, width);
    Remainder32(a, width);
    Remainder32(b, width);
  }

  lemma Xor8(x: Byte, y: Byte, width: nat)
    requires Pow2(width) == 256
    ensures Xor(x as nat, y as nat, width) == 0 <==> x == y
  {
    XorVanishes(x as nat, y as nat, width);
    var p := LowBits(x as nat, width);
    var q := LowBits(y as nat, width);
    assert x as nat == Low(x as nat, width) + p * 256;
    assert y as nat == Low(y as nat, width) + q * 256;
  }

  lemma Powers()
    ensures Pow2(8) == 256 && Pow2(32) == TWO_32
  {
    assert Pow2(8) == 256;
    assert Pow2(16) == 65536;
    assert Pow2(24) == 0x1_00_0000;
  }

  /** What the comparison takes for equal. */
  ghost predicate Alike(a: Text, b: Text) {
    ZeroExtends(a, b) || ZeroExtends(b, a)
  }

  /** The comparison that looks at every byte of the longer text before it answers. */
  method ConstantTimeEq(a: Text, b: Text) returns (same: bool)
    ensures same <==> Alike(a, b)
  {
    var maxLen := if |a| >= |b| then |a| else |b|;
    var diff := Xor(|a|, |b|, 32);
    Powers();
    Xor32(|a|, |b|, 32);
    for i := 0 to maxLen
      invariant diff == 0 <==> Xor(|a|, |b|, 32) == 0 && forall j :: 0 <= j < i ==> ByteAt(a, j) == ByteAt(b, j)
    {
      Xor8(ByteAt(a, i), ByteAt(b, i), 8);
      diff := Or(diff, Xor(ByteAt(a, i) as nat, ByteAt(b, i) as nat, 8));
    }
    return diff == 0;
  }

  /** The comparison is equality between texts of one length and between texts shorter than 4 GiB. */
  lemma AlikeIsEquality(a: Text, b: Text)
    requires |a| == |b| || (|a| < TWO_32 && |b| < TWO_32)
    ensures Alike(a, b) <==> a == b
  {
    if Alike(a, b) {
      assert |a| == |b|;
      assert forall i :: 0 <= i < |a| ==> a[i] == b[i];
    }
  }

  /** The lengths are compared modulo 2^32, so a text padded with 2^32 zero bytes passes for the text. */
  lemma PaddingPasses(a: Text) returns (padded: Text)
    ensures padded != a && Alike(padded, a)
  {
    padded := a + seq(TWO_32, i => 0);
    assert |padded| == |a| + TWO_32;
    assert ZeroExtends(padded, a);
  }

  datatype TokenEntry = TokenEntry(token: Text, role: Option<string>)

  datatype Auth = Auth(tokens: Option<seq<TokenEntry>>, secret: Option<Text>)

  /** The authentication section, if any, and the secret taken from the environment. */
  datatype Config = Config(auth: Option<Auth>, envSecret: Text)

  function RoleName(t: TokenEntry): string {
    if t.role.Some? then t.role.value else "user"
  }

  ghost predicate FirstAlike(tokens: seq<TokenEntry>, token: Text, i: nat) {
    && i < |tokens|
    && Alike(tokens[i].token, token)
    && forall j :: 0 <= j < i ==> !Alike(tokens[j].token, token)
  }

  function TokensOf(c: Config): seq<TokenEntry> {
    if c.auth.Some? && c.auth.value.tokens.Some? then c.auth.value.tokens.value else []
  }

  /** The secret that stands for the administrator; the environment's counts only without an authentication section. */
  function SecretOf(c: Config): Text {
    match c.auth
    case None => c.envSecret
    case Some(a) => if a.secret.Some? then a.secret.value else []
  }

  /** A token stands for a role: the first entry that matches it decides, and the secret comes last. */
  ghost predicate Grants(c: Config, token: Text, role: string) {
    || (exists i: nat :: FirstAlike(TokensOf(c), token, i) && role == RoleName(TokensOf(c)[i]))
    || ((forall i: nat :: !FirstAlike(TokensOf(c), token, i))
        && SecretOf(c) != [] && Alike(SecretOf(c), token) && role == "admin")
  }

  /** The role that a token stands for, if any. */
  ghost function RoleOf(c: Config, token: Text): Option<string> {
    if role :| Grants(c, token, role) then Some(role) else None
  }

  lemma RoleOfIff(c: Config, token: Text, role: string)
    ensures RoleOf(c, token) == Some(role) <==> Grants(c, token, role)
  {
    var tokens := TokensOf(c);
    if i: nat :| FirstAlike(tokens, token, i) {
      assert forall j: nat :: FirstAlike(tokens, token, j) ==> j == i;
    }
  }

  method ResolveTokenRole(c: Config, token: Text) returns (role: Option<string>)
    ensures forall r :: Grants(c, token, r) <==> role == Some(r)
  {
    if c.auth.Some? {
      var matched: Option<string> := None;
      if c.auth.value.tokens.Some? {
        var tokens := c.auth.value.tokens.value;
        for i := 0 to |tokens|
          invariant matched.None? <==> forall j :: 0 <= j < i ==> !Alike(tokens[j].token, token)
          invariant matched.Some? ==>
                      exists j: nat :: j < i && FirstAlike(tokens, token, j) && matched.value == RoleName(tokens[j])
        {
          var eq := ConstantTimeEq(tokens[i].token, token);
          if eq && matched.None? {
            matched := Some(RoleName(tokens[i]));
          }
        }
      }
      if matched.Some? {
        ghost var first: nat :| FirstAlike(TokensOf(c), token, first) && matched.value == RoleName(TokensOf(c)[first]);
        assert forall i: nat :: FirstAlike(TokensOf(c), token, i) ==> i == first;
        return matched;
      }
      if c.auth.value.secret.Some? && |c.auth.value.secret.value| > 0 {
        var eq := ConstantTimeEq(c.auth.value.secret.value, token);
        if eq {
          return Some("admin");
        }
      }
      return None;
    }
    if |c.envSecret| > 0 {
      var eq := ConstantTimeEq(c.envSecret, token);
      if eq {
        return Some("admin");
      }
    }
    return None;
  }

  /** The check that some token could be accepted at all, for bearer authentication. */
  predicate StrictlyConfigured(c: Config) {
    match c.auth
    case Some(a) => (exists t :: t in TokensOf(c) && t.token != []) || (a.secret.Some? && a.secret.value != [])
    case None => c.envSecret != []
  }

  /** Every configured credential is shorter than 4 GiB. */
  ghost predicate Short(c: Config) {
    && (forall i :: 0 <= i < |TokensOf(c)| ==> |TokensOf(c)[i].token| < TWO_32)
    && |SecretOf(c)| < TWO_32
  }

  /** The token is one of the configured credentials. */
  ghost predicate Known(c: Config, token: Text) {
    (exists i :: 0 <= i < |TokensOf(c)| && TokensOf(c)[i].token == token) || (SecretOf(c) != [] && token == SecretOf(c))
  }

  lemma {:induction false} FirstExists(tokens: seq<TokenEntry>, token: Text, i: nat) returns (first: nat)
    requires i < |tokens| && Alike(tokens[i].token, token)
    ensures FirstAlike(tokens, token, first)
  {
    if j: nat :| j < i && Alike(tokens[j].token, token) {
      first := FirstExists(tokens, token, j);
    } else {
      first := i;
    }
  }

  /** A token stands for some role if and only if it is configured. */
  lemma GrantsIffKnown(c: Config, token: Text)
    requires Short(c) && |token| < TWO_32
    ensures Known(c, token) <==> exists role :: Grants(c, token, role)
  {
    var tokens := TokensOf(c);
    forall i | 0 <= i < |tokens| ensures Alike(tokens[i].token, token) <==> tokens[i].token == token {
      AlikeIsEquality(tokens[i].token, token);
    }
    AlikeIsEquality(SecretOf(c), token);
    if i: nat :| i < |tokens| && tokens[i].token == token {
      var first := FirstExists(tokens, token, i);
      assert Grants(c, token, RoleName(tokens[first]));
    } else if Known(c, token) {
      assert Grants(c, token, "admin");
    }
  }

  lemma ConfiguredCredential(c: Config) returns (token: Text)
    requires Short(c) && StrictlyConfigured(c)
    ensures 0 < |token| < TWO_32 && Known(c, token)
  {
    if SecretOf(c) != [] {
      token := SecretOf(c);
    } else {
      var t :| t in TokensOf(c) && t.token != [];
      token := t.token;
    }
  }

  /** The configuration check passes exactly when some non-empty token stands for a role. */
  lemma ConfiguredIffAccepting(c: Config)
    requires Short(c)
    ensures StrictlyConfigured(c) <==> exists token, role :: 0 < |token| < TWO_32 && Grants(c, token, role)
  {
    if token, role :| 0 < |token| < TWO_32 && Grants(c, token, role) {
      GrantsIffKnown(c, token);
    }
    if StrictlyConfigured(c) {
      var token := ConfiguredCredential(c);
      GrantsIffKnown(c, token);
      var role :| Grants(c, token, role);
    }
  }

  const BEARER: Text := [66, 101, 97, 114, 101, 114, 32]

  datatype Token = Missing | Malformed | Presented(token: Text)

  /** Bytes that a header value may contain and still be read as text. */
  predicate Visible(v: Text) {
    forall i :: 0 <= i < |v| ==> v[i] == 9 || 32 <= v[i] < 127
  }

  /** The token in the values of the authorization headers. */
  function ExtractBearerToken(values: seq<Text>): Token {
    if values == [] then Missing
    else if |values| > 1 || !Visible(values[0]) then Malformed
    else if BEARER <= values[0] && 0 < |values[0]| - |BEARER| <= MAX_TOKEN_LEN then Presented(values[0][|BEARER|..])
    else Malformed
  }

  /** A token is taken from the headers exactly when the one header is the scheme and a usable token. */
  lemma PresentedIff(values: seq<Text>, token: Text)
    ensures ExtractBearerToken(values) == Presented(token) <==>
              && values == [BEARER + token] && 0 < |token| <= 4096
              && forall i :: 0 <= i < |token| ==> token[i] == 9 || 32 <= token[i] < 127
  {
    if ExtractBearerToken(values) == Presented(token) {
      var v := values[0];
      assert v == BEARER + token;
      assert forall i :: 0 <= i < |token| ==> token[i] == v[|BEARER| + i];
    }
    if values == [BEARER + token] && Visible(token) {
      var v := values[0];
      assert v[|BEARER|..] == token;
      assert forall i :: 0 <= i < |v| ==> v[i] == if i < |BEARER| then BEARER[i] else token[i - |BEARER|];
    }
  }

  /** The scheme, spelled out. */
  lemma BearerSpelled()
    ensures |BEARER| == 7 && forall i :: 0 <= i < 7 ==> BEARER[i] as int == "Bearer "[i] as int
  {
  }

  /**
   Roles by configuration field. Without an authentication section only the environment's secret
   counts, if there is one, for the administrator. With one, the first entry with the token gives
   its role, `user` if it names none; a token of no entry is worth something only if it is the
   section's non-empty secret, for the administrator.
   */
  lemma RoleByFields(c: Config, token: Text)
    requires Short(c) && |token| < TWO_32
    ensures c.auth.None? ==> RoleOf(c, token) == if token != [] && token == c.envSecret then Some("admin") else None
    ensures c.auth.Some? ==>
              var a := c.auth.value;
              var tokens := if a.tokens.Some? then a.tokens.value else [];
              && (forall i :: 0 <= i < |tokens| && tokens[i].token == token && (forall j :: 0 <= j < i ==> tokens[j].token != token)
                    ==> RoleOf(c, token) == if tokens[i].role.Some? then tokens[i].role else Some("user"))
              && ((forall i :: 0 <= i < |tokens| ==> tokens[i].token != token)
                    ==> RoleOf(c, token) == if token != [] && a.secret == Some(token) then Some("admin") else None)
  {
    var tokens := TokensOf(c);
    forall i | 0 <= i < |tokens| ensures Alike(tokens[i].token, token) <==> tokens[i].token == token {
      AlikeIsEquality(tokens[i].token, token);
    }
    AlikeIsEquality(SecretOf(c), token);
    forall i: nat | FirstAlike(tokens, token, i)
      ensures RoleOf(c, token) == Some(RoleName(tokens[i]))
    {
      RoleOfIff(c, token, RoleName(tokens[i]));
    }
    RoleOfIff(c, token, "admin");
  }
}
