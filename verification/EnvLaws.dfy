/** When substitution distributes over concatenation, and when a second pass changes nothing. */
module EnvLaws {
  import opened EnvVars
  import opened Seqs

  // ---------------------------------------------------------------- concatenation

  /** A match may still be growing, or a '$' still waiting for one, at the end of s. */
  ghost predicate EndsOpen(s: string) {
    exists p :: 0 <= p < |s| && OpenFrom(s, p)
  }

  predicate OpenFrom(s: string, p: nat)
    requires p < |s|
  {
    s[p] == '$' && forall k :: p < k < |s| ==> IsWordChar(s[k])
  }

  ghost predicate Joinable(s: string, t: string) {
    !StartsInWord(t) || !EndsOpen(s)
  }

  lemma JoinableTail(head: string, tail: string, t: string)
    requires Joinable(head + tail, t)
    ensures Joinable(tail, t)
  {
    if EndsOpen(tail) {
      var p :| 0 <= p < |tail| && OpenFrom(tail, p);
      assert OpenFrom(head + tail, |head| + p);
    }
  }

  lemma FitsBeforeMore(token: Token, rest: string, more: string)
    requires FitsBefore(token, rest) && Joinable(token.Text() + rest, more)
    ensures FitsBefore(token, rest + more)
  {
    if rest == "" {
      assert rest + more == more && token.Text() + rest == token.Text();
      if token == Literal('$') || token.Reference? {
        assert OpenFrom(token.Text(), 0);
      }
    }
  }

  lemma {:induction false} ScanOfConcat(s: string, t: string)
    requires Joinable(s, t)
    ensures Scan(s + t) == Scan(s) + Scan(t)
    decreases |s|
  {
    if s == "" {
      assert s + t == t;
    } else {
      var token, rest := FirstToken(s);
      JoinableTail(token.Text(), rest, t);
      ScanOfConcat(rest, t);
      ScanOfConcatStep(token, rest, t);
    }
  }

  lemma ScanOfConcatStep(token: Token, rest: string, t: string)
    requires FitsBefore(token, rest) && Joinable(token.Text() + rest, t)
    requires Scan(rest + t) == Scan(rest) + Scan(t)
    ensures Scan(token.Text() + rest + t) == Scan(token.Text() + rest) + Scan(t)
  {
    FitsBeforeMore(token, rest, t);
    ScanCons(token, rest);
    ScanCons(token, rest + t);
    Associative(token.Text(), rest, t);
    Associative([token], Scan(rest), Scan(t));
  }

  lemma {:induction false} ImageOfConcat(env: Env, a: seq<Token>, b: seq<Token>)
    ensures Image(env, a + b) == Image(env, a) + Image(env, b)
  {
    if a == [] {
      assert a + b == b;
    } else {
      ImageOfConcat(env, a[1..], b);
      assert a + b == [a[0]] + (a[1..] + b);
      ImageOfCons(env, a[0], a[1..] + b);
      Associative(a[0].Image(env), Image(env, a[1..]), Image(env, b));
    }
  }

  lemma ReplaceJoinable(env: Env, s: string, t: string)
    requires Joinable(s, t)
    ensures Replace(env, s + t) == Replace(env, s) + Replace(env, t)
  {
    ScanOfConcat(s, t);
    ImageOfConcat(env, Scan(s), Scan(t));
  }

  lemma {:induction false} WordIsCopied(env: Env, word: string, rest: string)
    requires IsWord(word)
    ensures Replace(env, word + rest) == word + Replace(env, rest)
  {
    if word == "" {
      assert word + rest == rest;
    } else {
      WordIsCopied(env, word[1..], rest);
      assert word + rest == [word[0]] + (word[1..] + rest);
      ReplaceLiteral(env, word + rest, 0);
      assert (word + rest)[1..] == word[1..] + rest && (word + rest)[0..] == word + rest;
    }
  }

  lemma ReplaceAtReference(env: Env, before: string, name: string, rest: string)
    requires name != "" && IsWord(name) && !StartsInWord(rest)
    ensures Replace(env, before + (['$'] + name + rest)) == Replace(env, before) + (env(name) + Replace(env, rest))
  {
    ReplaceJoinable(env, before, ['$'] + name + rest);
    ScanReference(name, rest);
    ImageOfCons(env, Reference(name), Scan(rest));
  }

  lemma OpenEndSplits(s: string, p: nat, t: string, n: nat)
    requires p < |s| && OpenFrom(s, p) && n <= |t| && IsWord(t[..n])
    ensures s + t == s[..p] + (['$'] + (s[p + 1..] + t[..n]) + t[n..])
    ensures IsWord(s[p + 1..] + t[..n])
  {
  }

  /** In an environment without variables, the text at an open end swallows the word that follows it. */
  lemma OpenEndSwallows(env: Env, s: string, p: nat, t: string)
    requires (forall name :: env(name) == "") && p < |s| && OpenFrom(s, p) && StartsInWord(t)
    ensures |Replace(env, s + t)| < |Replace(env, s)| + |Replace(env, t)|
  {
    var n := WordLength(t);
    var before, word, rest := s[..p], t[..n], t[n..];
    assert |Replace(env, s)| >= |Replace(env, before)| by {
      assert s == before + s[p..];
      ReplaceJoinable(env, before, s[p..]);
    }
    assert |Replace(env, t)| == n + |Replace(env, rest)| by {
      assert t == word + rest;
      WordIsCopied(env, word, rest);
    }
    OpenEndSplits(s, p, t, n);
    ReplaceAtReference(env, before, s[p + 1..] + word, rest);
  }

  /** Substitution distributes over s + t, whatever the environment, exactly when t does not start in a word
      or s does not end in a '$' followed by word characters only. */
  lemma DistributesIffJoinable(s: string, t: string)
    ensures (forall env :: Replace(env, s + t) == Replace(env, s) + Replace(env, t)) <==> Joinable(s, t)
  {
    if Joinable(s, t) {
      forall env ensures Replace(env, s + t) == Replace(env, s) + Replace(env, t) {
        ReplaceJoinable(env, s, t);
      }
    } else {
      var p :| 0 <= p < |s| && OpenFrom(s, p);
      var env: Env := _ => "";
      OpenEndSwallows(env, s, p, t);
      assert Replace(env, s + t) != Replace(env, s) + Replace(env, t);
    }
  }

  /** Where it does not: a reference cut in two. */
  lemma CutReferenceDiffers(env: Env)
    requires env("A") == "B"
    ensures Replace(env, "$" + "A") == "B" && Replace(env, "$") + Replace(env, "A") == "$A"
  {
    ScanReference("A", "");
    assert ['$'] + "A" + "" == "$" + "A";
    ImageOfCons(env, Reference("A"), []);
    assert "$"[0..] == "$" && "$"[1..] == "" && "A"[0..] == "A" && "A"[1..] == "";
    ReplaceLiteral(env, "$", 0);
    ReplaceLiteral(env, "A", 0);
  }

  // ---------------------------------------------------------------- a second pass

  predicate HasMatch(s: string) {
    s != "" && ((s[0] == '$' && StartsInWord(s[1..])) || HasMatch(s[1..]))
  }

  predicate EndsInDollar(s: string) {
    s != "" && s[|s| - 1] == '$'
  }

  /** The references at the front of the tokens put a word character first: that of the first non-empty value. */
  predicate LeadsInWord(env: Env, tokens: seq<Token>) {
    tokens != [] && tokens[0].Reference?
    && (if env(tokens[0].name) == "" then LeadsInWord(env, tokens[1..]) else IsWordChar(env(tokens[0].name)[0]))
  }

  /** A value brings a match along, or a '$' at the end of a value, or a literal one, meets right behind it a
      value that completes it to a new match. */
  predicate MakesAMatch(env: Env, tokens: seq<Token>) {
    tokens != []
    && (HasMatch(tokens[0].Image(env))
        || (EndsInDollar(tokens[0].Image(env)) && LeadsInWord(env, tokens[1..]))
        || MakesAMatch(env, tokens[1..]))
  }

  function Dollars(s: string): nat {
    if s == "" then 0 else (if s[0] == '$' then 1 else 0) + Dollars(s[1..])
  }

  lemma {:induction false} DollarsAfter(v: string, rest: string)
    requires '$' !in v
    ensures Dollars(v + rest) == Dollars(rest)
  {
    if v == "" {
      assert v + rest == rest;
    } else {
      DollarsAfter(v[1..], rest);
      assert (v + rest)[1..] == v[1..] + rest;
    }
  }

  lemma {:induction false} MatchInConcat(v: string, rest: string)
    ensures HasMatch(v + rest) <==> HasMatch(v) || HasMatch(rest) || (EndsInDollar(v) && StartsInWord(rest))
  {
    if v == "" {
      assert v + rest == rest;
    } else {
      MatchInConcat(v[1..], rest);
      assert (v + rest)[1..] == v[1..] + rest;
      if |v| == 1 {
        assert v[1..] + rest == rest;
      }
    }
  }

  lemma {:induction false} LeadsInWordIff(env: Env, tokens: seq<Token>)
    requires Canonical(tokens) && !StartsInWord(Text(tokens))
    ensures StartsInWord(Image(env, tokens)) <==> LeadsInWord(env, tokens)
  {
    if tokens != [] && tokens[0].Reference? && env(tokens[0].name) == "" {
      LeadsInWordIff(env, tokens[1..]);
      assert Image(env, tokens) == Image(env, tokens[1..]);
    }
  }

  /** When the output of a pass contains a match, in every environment. */
  lemma {:induction false} OutputHasMatchIff(env: Env, tokens: seq<Token>)
    requires Canonical(tokens)
    ensures HasMatch(Image(env, tokens)) <==> MakesAMatch(env, tokens)
  {
    if tokens == [] {
    } else {
      OutputHasMatchIff(env, tokens[1..]);
      MatchInConcat(tokens[0].Image(env), Image(env, tokens[1..]));
      if tokens[0] == Literal('$') || tokens[0].Reference? {
        LeadsInWordIff(env, tokens[1..]);
      }
    }
  }

  lemma {:induction false} NothingToReplace(env: Env, s: string)
    requires !HasMatch(s)
    ensures Replace(env, s) == s
  {
    if s == "" {
    } else {
      NothingToReplace(env, s[1..]);
      assert s[0..] == s;
      ReplaceLiteral(env, s, 0);
    }
  }

  /** The variables these tokens refer to hold no '$'. */
  ghost predicate RefersToNoDollar(env: Env, tokens: seq<Token>) {
    forall k :: 0 <= k < |tokens| && tokens[k].Reference? ==> '$' !in env(tokens[k].name)
  }

  lemma DollarsOfToken(env: Env, token: Token, text: string, image: string)
    requires token.Reference? ==> IsWord(token.name) && '$' !in env(token.name)
    ensures Dollars(token.Text() + text) == Dollars(text) + if token == Literal('$') || token.Reference? then 1 else 0
    ensures Dollars(token.Image(env) + image) == Dollars(image) + if token == Literal('$') then 1 else 0
  {
    match token
    case Literal(c) =>
      assert ([c] + text)[1..] == text && ([c] + image)[1..] == image;
    case Reference(name) =>
      DollarsAfter(env(name), image);
      DollarsAfter(name, text);
      assert (token.Text() + text)[1..] == name + text;
  }

  lemma {:induction false} ReplacingRemovesDollars(env: Env, tokens: seq<Token>)
    requires Canonical(tokens) && RefersToNoDollar(env, tokens)
    ensures Dollars(Image(env, tokens)) <= Dollars(Text(tokens))
    ensures HasMatch(Text(tokens)) ==> Dollars(Image(env, tokens)) < Dollars(Text(tokens))
  {
    if tokens == [] {
    } else {
      ReplacingRemovesDollars(env, tokens[1..]);
      DollarsOfToken(env, tokens[0], Text(tokens[1..]), Image(env, tokens[1..]));
      if tokens[0].Literal? {
        assert Text(tokens)[1..] == Text(tokens[1..]);
      }
    }
  }

  /** A second pass changes nothing if the first one makes no match. If the variables that the output refers
      to hold no '$', it changes nothing only then. */
  lemma IdempotentIffNoMatchMade(env: Env, s: string)
    ensures !MakesAMatch(env, Scan(s)) ==> Replace(env, Replace(env, s)) == Replace(env, s)
    ensures RefersToNoDollar(env, Scan(Replace(env, s))) ==>
      (Replace(env, Replace(env, s)) == Replace(env, s) <==> !MakesAMatch(env, Scan(s)))
  {
    var out := Replace(env, s);
    ScanDecomposes(s);
    OutputHasMatchIff(env, Scan(s));
    if !HasMatch(out) {
      NothingToReplace(env, out);
    } else if RefersToNoDollar(env, Scan(out)) {
      ScanDecomposes(out);
      ReplacingRemovesDollars(env, Scan(out));
    }
  }

  /** Without that condition a match may be made and stay: the value of A is the reference to it. */
  lemma SelfReferenceIsIdempotent(env: Env)
    requires env("A") == "$A"
    ensures MakesAMatch(env, Scan("$A")) && Replace(env, Replace(env, "$A")) == Replace(env, "$A") == "$A"
  {
    ScanReference("A", "");
    assert ['$'] + "A" + "" == "$A";
    ImageOfCons(env, Reference("A"), []);
    ScanDecomposes("$A");
    OutputHasMatchIff(env, Scan("$A"));
    assert "$A"[0] == '$' && StartsInWord("$A"[1..]);
  }

  /** Values that neither hold a match nor end in a '$'. */
  ghost predicate ValuesAreInert(env: Env) {
    forall name :: !HasMatch(env(name)) && !EndsInDollar(env(name))
  }

  predicate NoDoubleDollar(s: string) {
    forall k :: 0 < k < |s| ==> !(s[k - 1] == '$' && s[k] == '$')
  }

  lemma NoDoubleDollarInTail(head: string, tail: string)
    requires NoDoubleDollar(head + tail)
    ensures NoDoubleDollar(tail)
  {
    var s := head + tail;
    forall k | 0 < k < |tail| ensures !(tail[k - 1] == '$' && tail[k] == '$') {
      assert tail[k] == s[|head| + k] && tail[k - 1] == s[|head| + k - 1];
    }
  }

  /** In particular, it is enough that no two '$' are adjacent in the input, and no value holds a match or
      ends in a '$'. */
  lemma IdempotentWithoutDoubleDollar(env: Env, s: string)
    requires ValuesAreInert(env) && NoDoubleDollar(s)
    ensures Replace(env, Replace(env, s)) == Replace(env, s)
  {
    IdempotentIffNoMatchMade(env, s);
    ScanDecomposes(s);
    NoDoubleDollarNoMatch(env, Scan(s));
  }

  lemma DoubleDollarInFront(tail: string)
    requires tail != "" && tail[0] == '$'
    ensures !NoDoubleDollar(['$'] + tail)
  {
    var s := ['$'] + tail;
    assert s[0] == '$' && s[1] == '$';
  }

  lemma {:induction false} NoDoubleDollarNoMatch(env: Env, tokens: seq<Token>)
    requires ValuesAreInert(env) && NoDoubleDollar(Text(tokens))
    ensures !MakesAMatch(env, tokens)
  {
    if tokens == [] {
    } else {
      NoDoubleDollarInTail(tokens[0].Text(), Text(tokens[1..]));
      NoDoubleDollarNoMatch(env, tokens[1..]);
      match tokens[0]
      case Literal(c) =>
        var image := tokens[0].Image(env);
        assert image[1..] == "" && !HasMatch(image) && (EndsInDollar(image) ==> c == '$');
        if c == '$' && LeadsInWord(env, tokens[1..]) {
          DoubleDollarInFront(Text(tokens[1..]));
        }
      case Reference(_) =>
    }
  }

  /** The condition is not idle: "$$A" becomes "$B", and then the value of B. */
  lemma DoubleDollarIsNotIdempotent(env: Env)
    requires env("A") == "B" && env("B") == ""
    ensures Replace(env, "$$A") == "$B" && Replace(env, "$B") == ""
  {
    ScanReference("A", "");
    ScanReference("B", "");
    assert ['$'] + "A" + "" == "$A" && ['$'] + "B" + "" == "$B" && ['$'] + "$A" == "$$A";
    ScanLiteral('$', "$A");
    ImageOfCons(env, Reference("A"), []);
    ImageOfCons(env, Reference("B"), []);
    ImageOfCons(env, Literal('$'), [Reference("A")]);
  }
}
