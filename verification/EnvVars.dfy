/** Substitution of `$name` by the value of an environment variable. */
module EnvVars {
  import opened Seqs

  /** The environment; an unset variable reads as the empty string. */
  type Env = string -> string

  predicate IsWordChar(c: char) {
    'a' <= c <= 'z' || 'A' <= c <= 'Z' || '0' <= c <= '9' || c == '_'
  }

  predicate IsWord(s: string) {
    forall k :: 0 <= k < |s| ==> IsWordChar(s[k])
  }

  predicate StartsInWord(s: string) {
    s != "" && IsWordChar(s[0])
  }

  /** A piece of the input: one character copied as it is, or a reference to a variable. */
  datatype Token = Literal(c: char) | Reference(name: string)
  {
    function Text(): string {
      match this
      case Literal(c) => [c]
      case Reference(name) => ['$'] + name
    }

    function Image(env: Env): string {
      match this
      case Literal(c) => [c]
      case Reference(name) => env(name)
    }
  }

  function Text(tokens: seq<Token>): string {
    if tokens == [] then "" else tokens[0].Text() + Text(tokens[1..])
  }

  function Image(env: Env, tokens: seq<Token>): string {
    if tokens == [] then "" else tokens[0].Image(env) + Image(env, tokens[1..])
  }

  /** How many word characters s starts with. */
  function WordLength(s: string): (n: nat)
    ensures n <= |s| && (forall k :: 0 <= k < n ==> IsWordChar(s[k])) && (n < |s| ==> !IsWordChar(s[n]))
  {
    if StartsInWord(s) then 1 + WordLength(s[1..]) else 0
  }

  function Scan(s: string): seq<Token> {
    if s == "" then []
    else if s[0] == '$' && StartsInWord(s[1..]) then
      var n := WordLength(s[1..]);
      [Reference(s[1..1 + n])] + Scan(s[1 + n..])
    else [Literal(s[0])] + Scan(s[1..])
  }

  function Replace(env: Env, s: string): string {
    Image(env, Scan(s))
  }

  lemma ScanLiteral(c: char, rest: string)
    requires c == '$' ==> !StartsInWord(rest)
    ensures Scan([c] + rest) == [Literal(c)] + Scan(rest)
  {
  }

  lemma ScanReference(name: string, rest: string)
    requires name != "" && IsWord(name) && !StartsInWord(rest)
    ensures Scan(['$'] + name + rest) == [Reference(name)] + Scan(rest)
  {
    var s := ['$'] + name + rest;
    assert s[1..] == name + rest;
    assert WordLength(name + rest) == |name| by {
      var t := name + rest;
      assert forall k :: 0 <= k < |name| ==> t[k] == name[k];
      assert |name| < |t| ==> t[|name|] == rest[0];
    }
    assert s[1..1 + |name|] == name && s[1 + |name|..] == rest;
  }

  lemma ImageOfCons(env: Env, token: Token, tokens: seq<Token>)
    ensures Image(env, [token] + tokens) == token.Image(env) + Image(env, tokens)
  {
  }

  lemma ReplaceLiteral(env: Env, s: string, i: nat)
    requires i < |s| && (s[i] == '$' ==> !StartsInWord(s[i + 1..]))
    ensures Replace(env, s[i..]) == [s[i]] + Replace(env, s[i + 1..])
  {
  }

  lemma ReplaceReference(env: Env, s: string, i: nat, j: nat)
    requires i + 1 < j <= |s| && s[i] == '$' && IsWord(s[i + 1..j]) && !StartsInWord(s[j..])
    ensures Replace(env, s[i..]) == env(s[i + 1..j]) + Replace(env, s[j..])
  {
    assert s[i..] == ['$'] + s[i + 1..j] + s[j..];
    ScanReference(s[i + 1..j], s[j..]);
    ImageOfCons(env, Reference(s[i + 1..j]), Scan(s[j..]));
  }

  /** One left-to-right pass; substituted values go to the output and are not looked at again. */
  method ReplaceEnvVars(env: Env, s: string) returns (r: string)
    ensures r == Replace(env, s)
  {
    r := "";
    var i := 0;
    while i < |s|
      invariant i <= |s|
      invariant r + Replace(env, s[i..]) == Replace(env, s)
    {
      var j := i + 1;
      while j < |s| && IsWordChar(s[j])
        invariant i + 1 <= j <= |s| && forall k :: i < k < j ==> IsWordChar(s[k])
      {
        j := j + 1;
      }
      if s[i] == '$' && i + 1 < j {
        ReplaceReference(env, s, i, j);
        Associative(r, env(s[i + 1..j]), Replace(env, s[j..]));
        r := r + env(s[i + 1..j]);
        i := j;
      } else {
        ReplaceLiteral(env, s, i);
        Associative(r, [s[i]], Replace(env, s[i + 1..]));
        r := r + [s[i]];
        i := i + 1;
      }
    }
  }

  // ---------------------------------------------------------------- the matches of \$[a-zA-Z0-9_]+

  /** A decomposition into literals and maximal matches that leaves no match behind in the literals. */
  ghost predicate Canonical(tokens: seq<Token>) {
    tokens == [] || (FitsBefore(tokens[0], Text(tokens[1..])) && Canonical(tokens[1..]))
  }

  ghost predicate FitsBefore(token: Token, rest: string) {
    match token
    case Literal(c) => c == '$' ==> !StartsInWord(rest)
    case Reference(name) => name != "" && IsWord(name) && !StartsInWord(rest)
  }

  lemma CanonicalCons(token: Token, tokens: seq<Token>)
    ensures Canonical([token] + tokens) <==> FitsBefore(token, Text(tokens)) && Canonical(tokens)
  {
  }

  lemma ScanCons(token: Token, rest: string)
    requires FitsBefore(token, rest)
    ensures Scan(token.Text() + rest) == [token] + Scan(rest)
  {
    match token
    case Literal(c) => ScanLiteral(c, rest);
    case Reference(name) => ScanReference(name, rest);
  }

  /** Every text that is not empty starts with a token. */
  lemma FirstToken(s: string) returns (token: Token, rest: string)
    requires s != ""
    ensures s == token.Text() + rest && FitsBefore(token, rest) && |rest| < |s|
  {
    if s[0] == '$' && StartsInWord(s[1..]) {
      var n := WordLength(s[1..]);
      WordInFront(s, n);
      token, rest := Reference(s[1..1 + n]), s[1 + n..];
    } else {
      token, rest := Literal(s[0]), s[1..];
    }
  }

  /** The scanner loses nothing and finds a canonical decomposition. */
  lemma {:induction false} ScanDecomposes(s: string)
    ensures Text(Scan(s)) == s && Canonical(Scan(s))
    decreases |s|
  {
    if s == "" {
    } else {
      var token, rest := FirstToken(s);
      ScanDecomposes(rest);
      ScanCons(token, rest);
      TextOfCons(token, Scan(rest));
      CanonicalCons(token, Scan(rest));
    }
  }

  lemma WordInFront(s: string, n: nat)
    requires s != "" && s[0] == '$' && n == WordLength(s[1..])
    ensures s == (['$'] + s[1..1 + n]) + s[1 + n..]
    ensures IsWord(s[1..1 + n]) && !StartsInWord(s[1 + n..])
  {
  }

  /** The canonical decomposition of a text is unique. */
  lemma {:induction false} CanonicalIsScanned(tokens: seq<Token>)
    requires Canonical(tokens)
    ensures Scan(Text(tokens)) == tokens
  {
    if tokens == [] {
    } else {
      CanonicalIsScanned(tokens[1..]);
      ScanCons(tokens[0], Text(tokens[1..]));
    }
  }

  /** A match of the pattern at p, ending before q. */
  predicate Matches(s: string, p: nat, q: nat) {
    && p + 1 < q <= |s| && s[p] == '$'
    && forall k :: p < k < q ==> 'a' <= s[k] <= 'z' || 'A' <= s[k] <= 'Z' || '0' <= s[k] <= '9' || s[k] == '_'
  }

  /** Where the k-th token starts in the text. */
  function Offset(tokens: seq<Token>, k: nat): nat
    requires k <= |tokens|
  {
    |Text(tokens[..k])|
  }

  lemma {:induction false} TextOfConcat(a: seq<Token>, b: seq<Token>)
    ensures Text(a + b) == Text(a) + Text(b)
  {
    if a == [] {
      assert a + b == b;
    } else {
      TextOfConcat(a[1..], b);
      assert a + b == [a[0]] + (a[1..] + b);
      TextOfCons(a[0], a[1..] + b);
      Associative(a[0].Text(), Text(a[1..]), Text(b));
    }
  }

  lemma TextOfCons(token: Token, tokens: seq<Token>)
    ensures Text([token] + tokens) == token.Text() + Text(tokens)
  {
  }

  lemma OffsetInTail(tokens: seq<Token>, k: nat)
    requires k < |tokens|
    ensures Offset(tokens, 0) == 0
    ensures Offset(tokens, k + 1) == |tokens[0].Text()| + Offset(tokens[1..], k)
  {
    assert tokens[..k + 1][1..] == tokens[1..][..k];
  }

  /** Every match is covered: its start is the start of a reference that reaches at least as far. So matches
      are taken leftmost and maximal, and none starts inside another one or inside a literal. */
  lemma {:induction false} EveryMatchIsTaken(tokens: seq<Token>, p: nat, q: nat) returns (k: nat)
    requires Canonical(tokens) && Matches(Text(tokens), p, q)
    ensures k < |tokens| && tokens[k].Reference? && Offset(tokens, k) == p && q <= Offset(tokens, k + 1)
  {
    var token, rest := tokens[0], Text(tokens[1..]);
    if p == 0 {
      MatchInFront(token, rest, q);
      OffsetInTail(tokens, 0);
      k := 0;
    } else {
      MatchInTail(token, rest, p, q);
      var w := |token.Text()|;
      k := EveryMatchIsTaken(tokens[1..], p - w, q - w);
      OffsetInTail(tokens, k);
      OffsetInTail(tokens, k + 1);
      k := k + 1;
    }
  }

  lemma MatchInFront(token: Token, rest: string, q: nat)
    requires FitsBefore(token, rest) && Matches(token.Text() + rest, 0, q)
    ensures token.Reference? && q <= |token.Text()|
  {
    var s, w := token.Text() + rest, |token.Text()|;
    assert w < |s| ==> s[w] == rest[0];
  }

  lemma MatchInTail(token: Token, rest: string, p: nat, q: nat)
    requires p > 0 && FitsBefore(token, rest) && Matches(token.Text() + rest, p, q)
    ensures |token.Text()| <= p && Matches(rest, p - |token.Text()|, q - |token.Text()|)
  {
    var s, w := token.Text() + rest, |token.Text()|;
    assert token.Reference? ==> forall i :: 0 < i < w ==> s[i] == token.name[i - 1];
    assert forall i :: 0 <= i < |rest| ==> rest[i] == s[i + w];
  }

  lemma TokenStands(tokens: seq<Token>, k: nat)
    requires k < |tokens|
    ensures Offset(tokens, k + 1) == Offset(tokens, k) + |tokens[k].Text()| <= |Text(tokens)|
    ensures Text(tokens)[Offset(tokens, k)..Offset(tokens, k + 1)] == tokens[k].Text()
    ensures Text(tokens)[Offset(tokens, k + 1)..] == Text(tokens[k + 1..])
  {
    var before, token, after := tokens[..k], tokens[k], tokens[k + 1..];
    assert tokens == before + ([token] + after) && tokens[..k + 1] == before + [token];
    TextOfConcat(before, [token] + after);
    TextOfConcat(before, [token]);
    TextOfCons(token, after);
    TextOfCons(token, []);
    assert [token] + [] == [token] && token.Text() + Text([]) == token.Text();
    Middle(Text(before), token.Text(), Text(after));
  }

  lemma Middle(a: string, b: string, c: string)
    ensures var s := a + (b + c);
      |a + b| == |a| + |b| <= |s| && s[|a|..|a + b|] == b && s[|a + b|..] == c
  {
  }

  lemma {:induction false} CanonicalTail(tokens: seq<Token>, k: nat)
    requires Canonical(tokens) && k <= |tokens|
    ensures Canonical(tokens[k..])
  {
    if k == 0 {
    } else {
      CanonicalTail(tokens[1..], k - 1);
      assert tokens[1..][k - 1..] == tokens[k..];
    }
  }

  lemma SpanIsMatch(s: string, p: nat, q: nat, name: string)
    requires p < q <= |s| && s[p..q] == ['$'] + name && name != "" && IsWord(name) && !StartsInWord(s[q..])
    ensures Matches(s, p, q) && !Matches(s, p, q + 1)
  {
  }

  /** Conversely, each reference is a match, and no longer match starts where it does. */
  lemma EveryReferenceIsAMatch(tokens: seq<Token>, k: nat)
    requires Canonical(tokens) && k < |tokens| && tokens[k].Reference?
    ensures Matches(Text(tokens), Offset(tokens, k), Offset(tokens, k + 1))
    ensures !Matches(Text(tokens), Offset(tokens, k), Offset(tokens, k + 1) + 1)
    ensures Text(tokens)[Offset(tokens, k)..Offset(tokens, k + 1)] == tokens[k].Text()
  {
    TokenStands(tokens, k);
    CanonicalTail(tokens, k);
    assert tokens[k..][1..] == tokens[k + 1..];
    SpanIsMatch(Text(tokens), Offset(tokens, k), Offset(tokens, k + 1), tokens[k].name);
  }
}
