/**
  What a credential table means: which entry answers a login, and why neither hashing nor
  earlier logins change that.
*/
module Credentials {
  import opened Wrappers

  datatype Error = UnknownUser | Other(message: string)

  datatype Digest = Digest(encoding: string)

  /** The password library. The number given to `hash` stands for the salt it draws. */
  datatype Crypto = Crypto(
    decoderError: Option<Error>,
    decode: string -> Result<Digest, Error>,
    matches: (Digest, string) -> Result<bool, Error>,
    hash: (nat, string) -> Result<string, Error>)

  /** One access. `source` stands for every setting that is neither user, password nor backend. */
  datatype Entry = Entry(user: string, pass: string, fs: string, shared: bool, source: string)

  datatype Scheme = Md5Crypt | Bcrypt | BcryptA | BcryptB | BcryptX | BcryptY | Sha256Crypt | Sha512Crypt
  {
    function Prefix(): string {
      match this
      case Md5Crypt => "$1$"
      case Bcrypt => "$2$"
      case BcryptA => "$2a$"
      case BcryptB => "$2b$"
      case BcryptX => "$2x$"
      case BcryptY => "$2y$"
      case Sha256Crypt => "$5$"
      case Sha512Crypt => "$6$"
    }
  }

  /** The switch over hash prefixes, in the order the code tries them. */
  function SchemeOf(pass: string): Option<Scheme> {
    if "$1$" <= pass then Some(Md5Crypt)
    else if "$2$" <= pass then Some(Bcrypt)
    else if "$2a$" <= pass then Some(BcryptA)
    else if "$2b$" <= pass then Some(BcryptB)
    else if "$2x$" <= pass then Some(BcryptX)
    else if "$2y$" <= pass then Some(BcryptY)
    else if "$5$" <= pass then Some(Sha256Crypt)
    else if "$6$" <= pass then Some(Sha512Crypt)
    else None
  }

  /** At most one prefix fits, so the order of the switch is irrelevant. */
  lemma SchemesAreExclusive(pass: string, scheme: Scheme)
    ensures scheme.Prefix() <= pass <==> SchemeOf(pass) == Some(scheme)
  {
    forall other: Scheme | other.Prefix() <= pass && scheme.Prefix() <= pass
      ensures other == scheme
    {
      assert other.Prefix()[1] == pass[1] == scheme.Prefix()[1];
      assert other.Prefix()[2] == pass[2] == scheme.Prefix()[2];
    }
    if scheme.Prefix() <= pass && SchemeOf(pass).Some? {
      assert SchemeOf(pass).value.Prefix() <= pass;
    }
  }

  predicate OpenToAll(e: Entry) {
    e.user == "anonymous" && e.pass == "*"
  }

  /** The entries that hashing rewrites. */
  predicate Plain(e: Entry) {
    !OpenToAll(e) && SchemeOf(e.pass).None?
  }

  datatype Verdict = Accept | Refuse(error: Error)

  /** What one entry says to a login; None lets the loop go on. */
  function Judge(c: Crypto, e: Entry, user: string, pass: string): Option<Verdict> {
    if e.fs == "keycloak" then Some(Accept)
    else if e.user != user then None
    else match SchemeOf(e.pass)
      case Some(_) => (
        match c.decode(e.pass)
        case Failure(err) => Some(Refuse(err))
        case Success(digest) => (
          match c.matches(digest, pass)
          case Failure(err) => Some(Refuse(err))
          case Success(ok) => if ok then Some(Accept) else None))
      case None =>
        if e.pass == pass || OpenToAll(e) then Some(Accept) else None
  }

  datatype Answer = Chosen(index: nat) | Rejected(error: Error)

  function AnswerFrom(c: Crypto, t: seq<Entry>, i: nat, user: string, pass: string): (a: Answer)
    requires i <= |t|
    ensures a.Chosen? ==> i <= a.index < |t| && Judge(c, t[a.index], user, pass) == Some(Accept)
    decreases |t| - i
  {
    if i == |t| then Rejected(UnknownUser)
    else match Judge(c, t[i], user, pass)
      case Some(Accept) => Chosen(i)
      case Some(Refuse(err)) => Rejected(err)
      case None => AnswerFrom(c, t, i + 1, user, pass)
  }

  /** The loop of GetAccess, without its effect on the table. */
  function Answers(c: Crypto, t: seq<Entry>, user: string, pass: string): (a: Answer)
    ensures a.Chosen? ==> a.index < |t| && Judge(c, t[a.index], user, pass) == Some(Accept)
  {
    match c.decoderError
    case Some(err) => Rejected(err)
    case None => AnswerFrom(c, t, 0, user, pass)
  }

  ghost predicate AnswersAlike(c: Crypto, t: seq<Entry>, t': seq<Entry>) {
    forall user, pass :: Answers(c, t, user, pass) == Answers(c, t', user, pass)
  }

  ghost predicate NoPlaintext(t: seq<Entry>) {
    forall i :: 0 <= i < |t| ==> !Plain(t[i])
  }

  /** The declarative rule: the first entry that stops the search decides, and without one the user is unknown. */
  ghost predicate FirstStopDecides(c: Crypto, t: seq<Entry>, user: string, pass: string, a: Answer) {
    if c.decoderError.Some? then a == Rejected(c.decoderError.value)
    else if forall e :: e in t ==> Judge(c, e, user, pass).None? then a == Rejected(UnknownUser)
    else exists i :: (
      && 0 <= i < |t|
      && (forall j :: 0 <= j < i ==> Judge(c, t[j], user, pass).None?)
      && (match Judge(c, t[i], user, pass)
          case Some(Accept) => a == Chosen(i)
          case Some(Refuse(err)) => a == Rejected(err)
          case None => false))
  }

  /** The loop follows the declarative rule, and the rule leaves it no other answer. */
  lemma AnswersFollowTheRule(c: Crypto, t: seq<Entry>, user: string, pass: string, a: Answer)
    ensures Answers(c, t, user, pass) == a <==> FirstStopDecides(c, t, user, pass, a)
  {
    if c.decoderError.None? {
      var i := 0;
      while i < |t| && Judge(c, t[i], user, pass).None?
        invariant i <= |t|
        invariant forall j :: 0 <= j < i ==> Judge(c, t[j], user, pass).None?
        invariant Answers(c, t, user, pass) == AnswerFrom(c, t, i, user, pass)
      {
        i := i + 1;
      }
      if i < |t| {
        assert t[i] in t;
        forall k | 0 <= k < |t| && Judge(c, t[k], user, pass).Some?
            && forall j :: 0 <= j < k ==> Judge(c, t[j], user, pass).None?
          ensures k == i
        {
        }
      }
    }
  }

  // ---------------------------------------------------------------- the answers, read off the fields

  /** '$', then 1, 2, 5 or 6, or 2 with one of the letters a, b, x and y, and '$' again. */
  predicate LooksHashed(pass: string) {
    && |pass| >= 3 && pass[0] == '$'
    && (if pass[2] == '$' then pass[1] in "1256"
        else |pass| >= 4 && pass[1] == '2' && pass[2] in "abxy" && pass[3] == '$')
  }

  lemma SchemeIffLooksHashed(pass: string)
    ensures SchemeOf(pass).Some? <==> LooksHashed(pass)
  {
    if SchemeOf(pass).Some? {
      SchemesAreExclusive(pass, SchemeOf(pass).value);
    }
  }

  /** The entry does not stop the search: it is another user's, or the password does not fit. */
  ghost predicate Passes(c: Crypto, e: Entry, user: string, pass: string) {
    && e.fs != "keycloak"
    && (e.user == user ==>
          if LooksHashed(e.pass) then
            c.decode(e.pass).Success? && c.matches(c.decode(e.pass).value, pass) == Success(false)
          else
            e.pass != pass && !(user == "anonymous" && e.pass == "*"))
  }

  lemma {:induction false} AnswersPast(c: Crypto, t: seq<Entry>, user: string, pass: string, i: nat)
    requires c.decoderError.None? && i <= |t| && forall j :: 0 <= j < i ==> Passes(c, t[j], user, pass)
    ensures Answers(c, t, user, pass) == AnswerFrom(c, t, i, user, pass)
  {
    if i == 0 {
    } else {
      AnswersPast(c, t, user, pass, i - 1);
      assert Passes(c, t[i - 1], user, pass);
      SchemeIffLooksHashed(t[i - 1].pass);
    }
  }

  /** The search, by the fields of the entries alone. A keycloak entry takes any login. A hashed entry of the
      user takes it if the password matches, and ends the search with an error if its digest cannot be decoded
      or compared. A plain one takes it if the passwords are equal, and the open anonymous one takes any. */
  lemma FieldsDecide(c: Crypto, t: seq<Entry>, user: string, pass: string, i: nat)
    requires i <= |t| && forall j :: 0 <= j < i ==> Passes(c, t[j], user, pass)
    ensures c.decoderError.Some? ==> Answers(c, t, user, pass) == Rejected(c.decoderError.value)
    ensures c.decoderError.None? && i == |t| ==> Answers(c, t, user, pass) == Rejected(UnknownUser)
    ensures c.decoderError.None? && i < |t| && t[i].fs == "keycloak" ==> Answers(c, t, user, pass) == Chosen(i)
    ensures c.decoderError.None? && i < |t| && t[i].fs != "keycloak" && t[i].user == user ==>
      if LooksHashed(t[i].pass) then
        match c.decode(t[i].pass)
        case Failure(err) => Answers(c, t, user, pass) == Rejected(err)
        case Success(digest) =>
          match c.matches(digest, pass)
          case Failure(err) => Answers(c, t, user, pass) == Rejected(err)
          case Success(ok) => ok ==> Answers(c, t, user, pass) == Chosen(i)
      else
        t[i].pass == pass || (user == "anonymous" && t[i].pass == "*") ==> Answers(c, t, user, pass) == Chosen(i)
  {
    if c.decoderError.None? {
      AnswersPast(c, t, user, pass, i);
      if i < |t| {
        SchemeIffLooksHashed(t[i].pass);
      }
    }
  }

  /** Without keycloak and hashed entries, the first entry of the user with that very password, or the open
      anonymous one, takes the login. */
  lemma PlainEntriesAnswer(c: Crypto, t: seq<Entry>, user: string, pass: string, i: nat)
    requires c.decoderError.None?
    requires forall e :: e in t ==> e.fs != "keycloak" && (e.user == user ==> !LooksHashed(e.pass))
    ensures Answers(c, t, user, pass) == Chosen(i) <==>
      && i < |t| && t[i].user == user && (t[i].pass == pass || (user == "anonymous" && t[i].pass == "*"))
      && forall j :: 0 <= j < i ==>
           !(t[j].user == user && (t[j].pass == pass || (user == "anonymous" && t[j].pass == "*")))
    ensures Answers(c, t, user, pass) == Rejected(UnknownUser) <==>
      forall j :: 0 <= j < |t| ==>
        !(t[j].user == user && (t[j].pass == pass || (user == "anonymous" && t[j].pass == "*")))
  {
    var k := 0;
    while k < |t| && Passes(c, t[k], user, pass)
      invariant k <= |t| && forall j :: 0 <= j < k ==> Passes(c, t[j], user, pass)
    {
      k := k + 1;
    }
    assert forall j :: 0 <= j < |t| ==> t[j] in t;
    FieldsDecide(c, t, user, pass, k);
  }

  // ---------------------------------------------------------------- the table while the server runs

  datatype Event =
    | HashAt(index: nat, salt: nat)        // one iteration of HashPlaintextPasswords
    | LogIn(user: string, pass: string)    // one call of GetAccess

  /** The keycloak branch overwrites the credentials of the entry it returns. */
  function AfterLogIn(c: Crypto, t: seq<Entry>, user: string, pass: string): (t': seq<Entry>)
    ensures |t'| == |t|
  {
    match Answers(c, t, user, pass)
    case Chosen(i) =>
      if t[i].fs == "keycloak" then t[i := t[i].(user := user, pass := pass)] else t
    case Rejected(_) => t
  }

  function AfterHash(c: Crypto, t: seq<Entry>, i: nat, salt: nat): (t': seq<Entry>)
    ensures |t'| == |t|
  {
    if i < |t| && Plain(t[i]) && c.hash(salt, t[i].pass).Success?
    then t[i := t[i].(pass := c.hash(salt, t[i].pass).value)]
    else t
  }

  function Step(c: Crypto, t: seq<Entry>, event: Event): (t': seq<Entry>)
    ensures |t'| == |t|
  {
    match event
    case HashAt(i, salt) => AfterHash(c, t, i, salt)
    case LogIn(user, pass) => AfterLogIn(c, t, user, pass)
  }

  function Run(c: Crypto, t: seq<Entry>, events: seq<Event>): (t': seq<Entry>)
    ensures |t'| == |t|
  {
    if events == [] then t else Step(c, Run(c, t, events[..|events| - 1]), events[|events| - 1])
  }

  /** A digest that stands in for a password: it decodes, and matches that password and no other. */
  ghost predicate Faithful(c: Crypto, pass: string, encoded: string) {
    && c.decode(encoded).Success?
    && forall q :: c.matches(c.decode(encoded).value, q) == Success(q == pass)
  }

  /** The idealised hasher: every digest it produces is a faithful bcrypt-b one. It may still fail. */
  ghost predicate Ideal(c: Crypto) {
    forall salt, pass :: c.hash(salt, pass).Success? ==>
      && "$2b$" <= c.hash(salt, pass).value
      && Faithful(c, pass, c.hash(salt, pass).value)
  }

  ghost predicate Alike(c: Crypto, e: Entry, e': Entry) {
    && e.fs == e'.fs && e.shared == e'.shared && e.source == e'.source
    && (e.fs != "keycloak" ==> e.user == e'.user)
    && forall user, pass :: Judge(c, e, user, pass) == Judge(c, e', user, pass)
  }

  ghost predicate AlikeTables(c: Crypto, t: seq<Entry>, t': seq<Entry>) {
    && |t| == |t'|
    && forall i :: 0 <= i < |t| ==> Alike(c, t[i], t'[i])
  }

  /** Replacing a password by a digest leaves the entry's verdicts alone exactly when the digest is faithful.
      The prefix matters less: for `Ideal` any of the eight would do. */
  lemma SwapIsInvisibleIffFaithful(c: Crypto, e: Entry, encoded: string)
    requires Plain(e) && e.fs != "keycloak" && SchemeOf(encoded).Some?
    ensures Alike(c, e, e.(pass := encoded)) <==> Faithful(c, e.pass, encoded)
  {
    var e' := e.(pass := encoded);
    if Alike(c, e, e') {
      assert Judge(c, e, e.user, e.pass) == Judge(c, e', e.user, e.pass);
      assert c.decode(encoded).Success?;
      forall q ensures c.matches(c.decode(encoded).value, q) == Success(q == e.pass) {
        assert Judge(c, e, e.user, q) == Judge(c, e', e.user, q);
      }
    }
  }

  lemma LogInKeepsVerdicts(c: Crypto, t: seq<Entry>, user: string, pass: string)
    ensures AlikeTables(c, t, AfterLogIn(c, t, user, pass))
  {
  }

  lemma StepKeepsVerdicts(c: Crypto, t: seq<Entry>, event: Event)
    requires Ideal(c)
    ensures AlikeTables(c, t, Step(c, t, event))
  {
  }

  lemma {:induction false} RunKeepsVerdicts(c: Crypto, t: seq<Entry>, events: seq<Event>)
    requires Ideal(c)
    ensures AlikeTables(c, t, Run(c, t, events))
  {
    if events == [] {
    } else {
      var before := events[..|events| - 1];
      RunKeepsVerdicts(c, t, before);
      StepKeepsVerdicts(c, Run(c, t, before), events[|events| - 1]);
      forall i | 0 <= i < |t| ensures Alike(c, t[i], Run(c, t, events)[i]) {
        assert Alike(c, t[i], Run(c, t, before)[i]);
        assert Alike(c, Run(c, t, before)[i], Run(c, t, events)[i]);
      }
    }
  }

  lemma {:induction false} AlikeTablesAnswerAlike(c: Crypto, t: seq<Entry>, t': seq<Entry>, i: nat,
                                                  user: string, pass: string)
    requires AlikeTables(c, t, t') && i <= |t|
    ensures AnswerFrom(c, t, i, user, pass) == AnswerFrom(c, t', i, user, pass)
    decreases |t| - i
  {
    if i == |t| {
    } else {
      assert Judge(c, t[i], user, pass) == Judge(c, t'[i], user, pass);
      AlikeTablesAnswerAlike(c, t, t', i + 1, user, pass);
    }
  }

  lemma AlikeTablesHaveAnswersAlike(c: Crypto, t: seq<Entry>, t': seq<Entry>)
    requires AlikeTables(c, t, t')
    ensures AnswersAlike(c, t, t')
  {
    forall user, pass ensures Answers(c, t, user, pass) == Answers(c, t', user, pass) {
      AlikeTablesAnswerAlike(c, t, t', 0, user, pass);
    }
  }

  lemma AlikeIsAnEquivalence(c: Crypto, t: seq<Entry>, u: seq<Entry>, v: seq<Entry>)
    ensures AlikeTables(c, t, t)
    ensures AlikeTables(c, t, u) ==> AlikeTables(c, u, t)
    ensures AlikeTables(c, t, u) && AlikeTables(c, u, v) ==> AlikeTables(c, t, v)
  {
  }

  /** However hashing iterations and logins interleave, every login is answered as on the original table. */
  lemma RunKeepsAnswers(c: Crypto, t: seq<Entry>, events: seq<Event>, user: string, pass: string)
    requires Ideal(c)
    ensures Answers(c, Run(c, t, events), user, pass) == Answers(c, t, user, pass)
  {
    RunKeepsVerdicts(c, t, events);
    AlikeTablesAnswerAlike(c, t, Run(c, t, events), 0, user, pass);
  }

  /** Even a login whose scan is overtaken by the rewrite, meeting each entry at a different moment of
      the run, is answered as on the original table. */
  lemma OvertakenLogInKeepsAnswer(c: Crypto, t: seq<Entry>, events: seq<Event>, moments: seq<nat>, seen: seq<Entry>,
                                  user: string, pass: string)
    requires Ideal(c)
    requires |moments| == |seen| == |t|
    requires forall i :: 0 <= i < |t| ==> moments[i] <= |events| && seen[i] == Run(c, t, events[..moments[i]])[i]
    ensures Answers(c, seen, user, pass) == Answers(c, t, user, pass)
  {
    forall i | 0 <= i < |t| ensures Alike(c, t[i], seen[i]) {
      RunKeepsVerdicts(c, t, events[..moments[i]]);
    }
    AlikeTablesAnswerAlike(c, t, seen, 0, user, pass);
  }

  /** Logins alone never need the hasher to be ideal: the entry chosen does not depend on earlier logins. */
  lemma {:induction false} LogInsKeepAnswers(c: Crypto, t: seq<Entry>, events: seq<Event>, user: string, pass: string)
    requires forall k :: 0 <= k < |events| ==> events[k].LogIn?
    ensures AlikeTables(c, t, Run(c, t, events))
    ensures Answers(c, Run(c, t, events), user, pass) == Answers(c, t, user, pass)
  {
    if events == [] {
    } else {
      var before := events[..|events| - 1];
      LogInsKeepAnswers(c, t, before, user, pass);
      forall i | 0 <= i < |t| ensures Alike(c, t[i], Run(c, t, events)[i]) {
        assert Alike(c, t[i], Run(c, t, before)[i]);
      }
    }
    AlikeTablesAnswerAlike(c, t, Run(c, t, events), 0, user, pass);
  }

  /** A successful answer belongs to the requested user once the login has returned. */
  lemma ChosenEntryIsTheUsers(c: Crypto, t: seq<Entry>, user: string, pass: string)
    requires Answers(c, t, user, pass).Chosen?
    ensures AfterLogIn(c, t, user, pass)[Answers(c, t, user, pass).index].user == user
  {
  }

  /** The idealised hasher is not an empty assumption, even with a hash that depends on the salt and can fail. */
  lemma AnIdealHasherExists() returns (c: Crypto)
    ensures Ideal(c) && c.hash(0, "secret").Success? && c.hash(0, "secret") != c.hash(1, "secret")
    ensures c.hash(0, seq(73, _ => 'x')).Failure?
  {
    c := Crypto(
      None,
      (s: string) => if |s| >= 5 then Success(Digest(s[5..])) else Failure(Other("short")),
      (d: Digest, q: string) => Success(q == d.encoding),
      (salt: nat, p: string) =>
        if |p| > 72 then Failure(Other("too long"))
        else Success("$2b$" + (if salt == 0 then "0" else "1") + p));
    forall salt: nat, p: string | c.hash(salt, p).Success?
      ensures "$2b$" <= c.hash(salt, p).value && Faithful(c, p, c.hash(salt, p).value)
    {
      assert c.hash(salt, p).value[5..] == p;
    }
    assert c.hash(0, "secret").value[4] == '0' && c.hash(1, "secret").value[4] == '1';
  }
}
