/** Authentication end to end: the table picks an access, the cache provides its file system. */
module Auth {
  import opened Wrappers
  import opened Credentials
  import opened FsCache
  import Config
  import Json
  import Reloading

  datatype World = World(table: seq<Entry>, cache: Cache, outcomes: seq<Result<Instance, Error>>)

  datatype Event =
    | Rewrite(index: nat, salt: nat)                          // one iteration of the password rewrite
    | Reload(decoded: seq<Entry>, installed: seq<Entry>)      // a new table, and what Load made of it
    | Authenticate(user: string, pass: string)

  /** AuthUser: what the login gets, and what it leaves behind. */
  function Authenticated(c: Crypto, load: Loader, table: seq<Entry>, cache: Cache, user: string, pass: string)
    : (Result<Instance, Error>, seq<Entry>, Cache)
  {
    match Answers(c, table, user, pass)
    case Rejected(e) => (Failure(e), table, cache)
    case Chosen(i) =>
      var table' := AfterLogIn(c, table, user, pass);
      var (r, cache') := Fetch(load, cache, table'[i]);
      (r, table', cache')
  }

  method AuthUser(config: Config.Config, accesses: SharedFs, c: Crypto, load: Loader, user: string, pass: string)
    returns (r: Result<Instance, Error>)
    requires config.content.Distinct()
    modifies accesses, config.content.accesses
    ensures (r, config.content.Table(), accesses.View())
         == Authenticated(c, load, old(config.content.Table()), old(accesses.View()), user, pass)
    ensures match Answers(c, old(config.content.Table()), user, pass)
      case Rejected(e) => r == Failure(e) && accesses.View() == old(accesses.View())
      case Chosen(i) =>
        && i < |config.content.accesses|
        && (r, accesses.View()) == Fetch(load, old(accesses.View()), config.content.Table()[i])
  {
    var access := config.GetAccess(c, user, pass);
    if access.Failure? {
      return Failure(access.error);
    }
    r := accesses.LoadFs(load, access.value.View());
  }

  function Step(c: Crypto, load: Loader, w: World, e: Event): World {
    match e
    case Rewrite(i, salt) => w.(table := AfterHash(c, w.table, i, salt))
    case Reload(_, installed) => w.(table := installed)
    case Authenticate(user, pass) =>
      var (r, table, cache) := Authenticated(c, load, w.table, w.cache, user, pass);
      World(table, cache, w.outcomes + [r])
  }

  function Run(c: Crypto, load: Loader, w: World, events: seq<Event>): World {
    if events == [] then w else Step(c, load, Run(c, load, w, events[..|events| - 1]), events[|events| - 1])
  }

  /** The run as it would be if nothing were ever rewritten: a reload installs the table as decoded. */
  function WithoutRewrites(events: seq<Event>): seq<Event> {
    if events == [] then []
    else
      var before, e := WithoutRewrites(events[..|events| - 1]), events[|events| - 1];
      match e
      case Rewrite(_, _) => before
      case Reload(decoded, _) => before + [Reload(decoded, decoded)]
      case Authenticate(_, _) => before + [e]
  }

  /** The access a login goes to the loader with; a keycloak entry carries the credentials of the login. */
  function Picked(c: Crypto, t: seq<Entry>, user: string, pass: string): Result<Entry, Error> {
    match Answers(c, t, user, pass)
    case Rejected(e) => Failure(e)
    case Chosen(i) => Success(AfterLogIn(c, t, user, pass)[i])
  }

  lemma AlikeTablesPickAlike(c: Crypto, t: seq<Entry>, u: seq<Entry>, user: string, pass: string)
    requires AlikeTables(c, t, u)
    ensures Answers(c, t, user, pass) == Answers(c, u, user, pass)
    ensures Picked(c, t, user, pass).Success? ==>
      SameRequest(Picked(c, t, user, pass).value, Picked(c, u, user, pass).value)
    ensures AlikeTables(c, AfterLogIn(c, t, user, pass), AfterLogIn(c, u, user, pass))
  {
    AlikeTablesAnswerAlike(c, t, u, 0, user, pass);
    match Answers(c, t, user, pass)
    case Rejected(_) =>
    case Chosen(i) =>
      assert Alike(c, t[i], u[i]);
      LogInKeepsVerdicts(c, t, user, pass);
      LogInKeepsVerdicts(c, u, user, pass);
      var t', u' := AfterLogIn(c, t, user, pass), AfterLogIn(c, u, user, pass);
      AlikeIsAnEquivalence(c, t, t', t);
      AlikeIsAnEquivalence(c, t', t, u);
      AlikeIsAnEquivalence(c, t', u, u');
  }

  /** A login on two alike tables picks accesses that load the same file system. */
  lemma AlikeTablesLoadAlike(c: Crypto, load: Loader, t: seq<Entry>, u: seq<Entry>, cache: Cache,
                             user: string, pass: string)
    requires AlikeTables(c, t, u)
    ensures var (r, t', cacheT) := Authenticated(c, load, t, cache, user, pass);
            var (s, u', cacheU) := Authenticated(c, load, u, cache, user, pass);
      r == s && cacheT == cacheU && AlikeTables(c, t', u')
  {
    AlikeTablesPickAlike(c, t, u, user, pass);
  }

  ghost predicate ReloadsAlike(c: Crypto, events: seq<Event>) {
    forall e :: e in events && e.Reload? ==> AlikeTables(c, e.decoded, e.installed)
  }

  /** Rewriting passwords is invisible from outside: whatever the iterations interleaved with logins and
      reloads, whose tables may have been rewritten in part or in whole themselves, every login gets the same
      instance or the same error as in the run without any rewrite, and the cache ends up the same. */
  lemma {:induction false} RewritesAreInvisible(c: Crypto, load: Loader, w: World, events: seq<Event>)
    requires Ideal(c) && ReloadsAlike(c, events)
    ensures var with, without := Run(c, load, w, events), Run(c, load, w, WithoutRewrites(events));
      && with.outcomes == without.outcomes
      && with.cache == without.cache
      && AlikeTables(c, without.table, with.table)
  {
    if events == [] {
      AlikeIsAnEquivalence(c, w.table, w.table, w.table);
    } else {
      var earlier, e := events[..|events| - 1], events[|events| - 1];
      assert e in events && ReloadsAlike(c, earlier);
      RewritesAreInvisible(c, load, w, earlier);
      var with, without := Run(c, load, w, earlier), Run(c, load, w, WithoutRewrites(earlier));
      match e
      case Rewrite(i, salt) =>
        StepKeepsVerdicts(c, with.table, HashAt(i, salt));
        AlikeIsAnEquivalence(c, without.table, with.table, AfterHash(c, with.table, i, salt));
      case Reload(_, _) =>
        assert WithoutRewrites(events)[..|WithoutRewrites(events)| - 1] == WithoutRewrites(earlier);
      case Authenticate(user, pass) =>
        assert WithoutRewrites(events)[..|WithoutRewrites(events)| - 1] == WithoutRewrites(earlier);
        AlikeTablesLoadAlike(c, load, without.table, with.table, with.cache, user, pass);
    }
  }

  /** Every reload installs what some load of the configuration file made of it. The event names the table
      that the file decoded to at first, whatever rewrites its file has seen since. */
  ghost predicate ReloadsOwnFile(c: Crypto, reader: Reloading.Reader, file: Json.Json, t: seq<Entry>,
                                 turns: seq<Reloading.Turn>, events: seq<Event>) {
    forall e :: e in events && e.Reload? ==> exists n :: 0 <= n < |turns| && IsReload(c, reader, file, t, turns, n, e)
  }

  ghost predicate IsReload(c: Crypto, reader: Reloading.Reader, file: Json.Json, t: seq<Entry>,
                           turns: seq<Reloading.Turn>, n: nat, e: Event)
    requires n < |turns|
  {
    && Reloading.LoadedAt(c, reader, file, turns, n).Some?
    && e == Reload(t, Reloading.LoadedAt(c, reader, file, turns, n).value.table)
  }

  /** A server that rewrites its configuration file and keeps reloading what it wrote serves every login like
      one that was given the passwords in plain once and for all. */
  lemma ReloadingOwnFileIsInvisible(c: Crypto, load: Loader, w: World, events: seq<Event>, reader: Reloading.Reader,
                                    file: Json.Json, t: seq<Entry>, turns: seq<Reloading.Turn>)
    requires Ideal(c) && Reloading.Decoded(reader, file) == Some(t)
    requires forall i :: 0 <= i < |turns| ==> turns[i].outside.writeError.None?
    requires ReloadsOwnFile(c, reader, file, t, turns, events)
    ensures var with, without := Run(c, load, w, events), Run(c, load, w, WithoutRewrites(events));
      with.outcomes == without.outcomes && with.cache == without.cache
    ensures forall e :: e in WithoutRewrites(events) ==> e.Authenticate? || e == Reload(t, t)
  {
    forall e | e in events && e.Reload? ensures AlikeTables(c, e.decoded, e.installed) && e.decoded == t {
      var n :| 0 <= n < |turns| && IsReload(c, reader, file, t, turns, n, e);
      Reloading.ReloadsStayAlike(c, reader, file, t, turns, n);
    }
    RewritesAreInvisible(c, load, w, events);
    OnlyOriginalReloads(t, events);
  }

  lemma {:induction false} OnlyOriginalReloads(t: seq<Entry>, events: seq<Event>)
    requires forall e :: e in events && e.Reload? ==> e.decoded == t
    ensures forall e :: e in WithoutRewrites(events) ==> e.Authenticate? || e == Reload(t, t)
  {
    if events == [] {
    } else {
      assert events[|events| - 1] in events;
      OnlyOriginalReloads(t, events[..|events| - 1]);
    }
  }

  // ---------------------------------------------------------------- logins without the cache

  /** The outcome if every login loaded its access afresh. */
  function LoadedDirectly(c: Crypto, load: Loader, t: seq<Entry>, user: string, pass: string): Result<Instance, Error> {
    match Picked(c, t, user, pass)
    case Failure(e) => Failure(e)
    case Success(a) => Direct(load, 0, a)
  }

  ghost predicate Reaches(c: Crypto, tables: iset<seq<Entry>>, a: Entry) {
    exists t, user, pass :: t in tables && Picked(c, t, user, pass) == Success(a)
  }

  /** The accesses that logins on these tables go to the loader with. A keycloak entry is among them with
      every user and password that gets that far in the table. */
  ghost function Reachable(c: Crypto, tables: iset<seq<Entry>>): iset<Entry> {
    iset a | Reaches(c, tables, a)
  }

  /** Reloads install these tables, rewritten or not; rewriting takes place only with an ideal hasher. */
  ghost predicate Permitted(c: Crypto, tables: iset<seq<Entry>>, e: Event) {
    match e
    case Rewrite(_, _) => Ideal(c)
    case Reload(decoded, installed) => decoded in tables && AlikeTables(c, decoded, installed)
    case Authenticate(_, _) => true
  }

  ghost predicate RunOn(c: Crypto, tables: iset<seq<Entry>>, t: seq<Entry>, events: seq<Event>) {
    t in tables && forall e :: e in events ==> Permitted(c, tables, e)
  }

  function Served(c: Crypto, load: Loader, t: seq<Entry>, events: seq<Event>): World {
    Run(c, load, World(t, EMPTY, []), events)
  }

  /** What a login gets after a run. */
  function Outcome(c: Crypto, load: Loader, t: seq<Entry>, events: seq<Event>, user: string, pass: string)
    : Result<Instance, Error>
  {
    var w := Served(c, load, t, events);
    Authenticated(c, load, w.table, w.cache, user, pass).0
  }

  /** What it would get at the same moment without the cache. */
  function OutcomeWithoutCache(c: Crypto, load: Loader, t: seq<Entry>, events: seq<Event>, user: string, pass: string)
    : Result<Instance, Error>
  {
    LoadedDirectly(c, load, Served(c, load, t, events).table, user, pass)
  }

  /** Where a shared access loads, every access of its user does. */
  ghost predicate NoLoadingForOthers(load: Loader, accesses: iset<Entry>) {
    forall a, b :: a in accesses && b in accesses && a.user == b.user && a.shared && Loads(load, a) ==> Loads(load, b)
  }

  ghost predicate CacheIsInvisible(c: Crypto, load: Loader, tables: iset<seq<Entry>>) {
    forall t, events, user, pass :: RunOn(c, tables, t, events) ==>
      SameUpToIdentity(Outcome(c, load, t, events, user, pass), OutcomeWithoutCache(c, load, t, events, user, pass))
  }

  lemma ReachedFrom(c: Crypto, tables: iset<seq<Entry>>, t: seq<Entry>, user: string, pass: string)
    requires t in tables && Picked(c, t, user, pass).Success?
    ensures Picked(c, t, user, pass).value in Reachable(c, tables)
  {
    assert Reaches(c, tables, Picked(c, t, user, pass).value);
  }

  /** In every run the table is alike to one of the tables, and the cache was filled by reachable accesses. */
  lemma {:induction false} RunsStayReachable(c: Crypto, load: Loader, tables: iset<seq<Entry>>, t: seq<Entry>,
                                             events: seq<Event>) returns (t': seq<Entry>)
    requires Steady(load) && RunOn(c, tables, t, events)
    ensures t' in tables && AlikeTables(c, t', Served(c, load, t, events).table)
    ensures Backed(load, Reachable(c, tables), Served(c, load, t, events).cache)
  {
    if events == [] {
      t' := t;
    } else {
      var earlier, e := events[..|events| - 1], events[|events| - 1];
      assert e in events && RunOn(c, tables, t, earlier);
      t' := RunsStayReachable(c, load, tables, t, earlier);
      var w := Served(c, load, t, earlier);
      match e
      case Rewrite(i, salt) =>
        StepKeepsVerdicts(c, w.table, HashAt(i, salt));
        AlikeIsAnEquivalence(c, t', w.table, AfterHash(c, w.table, i, salt));
      case Reload(decoded, _) =>
        t' := decoded;
      case Authenticate(user, pass) =>
        LogInKeepsVerdicts(c, w.table, user, pass);
        AlikeIsAnEquivalence(c, t', w.table, AfterLogIn(c, w.table, user, pass));
        AlikeTablesPickAlike(c, t', w.table, user, pass);
        if Picked(c, t', user, pass).Success? {
          ReachedFrom(c, tables, t', user, pass);
          FetchKeepsBacked(load, Reachable(c, tables), w.cache, Picked(c, t', user, pass).value);
        }
    }
  }

  /** In every run of logins, rewrites and reloads, each login gets what loading its access directly would
      give, exactly when no loadable shared access that a login can reach stands beside a different reachable
      access of its user. */
  lemma CacheIsInvisibleIffNoShadowing(c: Crypto, load: Loader, tables: iset<seq<Entry>>)
    requires Steady(load)
    ensures CacheIsInvisible(c, load, tables) <==> NoShadowing(load, Reachable(c, tables))
  {
    if NoShadowing(load, Reachable(c, tables)) {
      forall t, events, user, pass | RunOn(c, tables, t, events)
        ensures SameUpToIdentity(Outcome(c, load, t, events, user, pass),
                                 OutcomeWithoutCache(c, load, t, events, user, pass))
      {
        NextLogIn(c, load, tables, t, events, user, pass);
      }
    }
    if CacheIsInvisible(c, load, tables) {
      forall a, b | a in Reachable(c, tables) && b in Reachable(c, tables)
          && a.user == b.user && a.shared && Loads(load, a)
        ensures Settings(a) == Settings(b)
      {
        var t, events, user, pass := OneAfterTheOther(c, load, tables, a, b);
        assert SameUpToIdentity(Outcome(c, load, t, events, user, pass),
                                OutcomeWithoutCache(c, load, t, events, user, pass));
      }
    }
  }

  /** What the cache can do to a login at the end of a run. */
  lemma NextLogIn(c: Crypto, load: Loader, tables: iset<seq<Entry>>, t: seq<Entry>, events: seq<Event>,
                  user: string, pass: string)
    requires Steady(load) && RunOn(c, tables, t, events)
    ensures var r := Outcome(c, load, t, events, user, pass);
            var direct := OutcomeWithoutCache(c, load, t, events, user, pass);
      && (NoShadowing(load, Reachable(c, tables)) ==> SameUpToIdentity(r, direct))
      && (NoLoadingForOthers(load, Reachable(c, tables)) && r.Success? ==> direct.Success?)
      && (direct.Success? ==> r.Success?)
  {
    var t' := RunsStayReachable(c, load, tables, t, events);
    var w := Served(c, load, t, events);
    AlikeTablesPickAlike(c, t', w.table, user, pass);
    if Picked(c, t', user, pass).Success? {
      ReachedFrom(c, tables, t', user, pass);
      BackedAnswer(load, Reachable(c, tables), w.cache, Picked(c, t', user, pass).value);
    }
  }

  /** A run after which the login that reaches b meets what the login that reaches a left in the cache. */
  lemma OneAfterTheOther(c: Crypto, load: Loader, tables: iset<seq<Entry>>, a: Entry, b: Entry)
    returns (t: seq<Entry>, events: seq<Event>, user: string, pass: string)
    requires a in Reachable(c, tables) && b in Reachable(c, tables)
    requires a.user == b.user && a.shared && Loads(load, a)
    ensures RunOn(c, tables, t, events)
    ensures Outcome(c, load, t, events, user, pass) == Success(Instance(0, Settings(a)))
    ensures OutcomeWithoutCache(c, load, t, events, user, pass) == Direct(load, 0, b)
  {
    assert Reaches(c, tables, a) && Reaches(c, tables, b);
    var first, user', pass' :| first in tables && Picked(c, first, user', pass') == Success(a);
    var second, user'', pass'' :| second in tables && Picked(c, second, user'', pass'') == Success(b);
    t, user, pass := first, user'', pass'';
    events := [Authenticate(user', pass'), Reload(second, second)];
    AlikeIsAnEquivalence(c, second, second, second);
    assert events[..1] == [Authenticate(user', pass')] && events[..1][..0] == [];
    AfterOneLogIn(c, load, first, user', pass');
    assert Served(c, load, t, events) == Step(c, load, Served(c, load, t, events[..1]), Reload(second, second));
  }

  lemma AfterOneLogIn(c: Crypto, load: Loader, t: seq<Entry>, user: string, pass: string)
    requires Picked(c, t, user, pass).Success?
    ensures var w := Served(c, load, t, [Authenticate(user, pass)]);
      w.table == AfterLogIn(c, t, user, pass) && w.cache == Fetch(load, EMPTY, Picked(c, t, user, pass).value).1
  {
    assert [Authenticate(user, pass)][..0] == [];
    assert Served(c, load, t, []) == World(t, EMPTY, []);
  }

  /** With the cache exactly those logins succeed that would succeed without it, in every run, exactly when
      every reachable access loads whose user has a reachable shared access that loads. */
  lemma CacheLetsInTheSameIff(c: Crypto, load: Loader, tables: iset<seq<Entry>>)
    requires Steady(load)
    ensures (forall t, events, user, pass :: RunOn(c, tables, t, events) ==>
               Outcome(c, load, t, events, user, pass).Success?
               == OutcomeWithoutCache(c, load, t, events, user, pass).Success?)
       <==> NoLoadingForOthers(load, Reachable(c, tables))
  {
    if NoLoadingForOthers(load, Reachable(c, tables)) {
      forall t, events, user, pass | RunOn(c, tables, t, events)
        ensures Outcome(c, load, t, events, user, pass).Success?
             == OutcomeWithoutCache(c, load, t, events, user, pass).Success?
      {
        NextLogIn(c, load, tables, t, events, user, pass);
      }
    } else {
      var a, b :| a in Reachable(c, tables) && b in Reachable(c, tables)
        && a.user == b.user && a.shared && Loads(load, a) && !Loads(load, b);
      var t, events, user, pass := OneAfterTheOther(c, load, tables, a, b);
      assert RunOn(c, tables, t, events) && OutcomeWithoutCache(c, load, t, events, user, pass).Failure?;
    }
  }

  // ---------------------------------------------------------------- one table, logins only

  ghost predicate OnlyLogIns(events: seq<Event>) {
    forall e :: e in events ==> e.Authenticate?
  }

  ghost predicate CacheIsInvisibleToLogIns(c: Crypto, load: Loader, t: seq<Entry>) {
    forall events, user, pass :: OnlyLogIns(events) ==>
      SameUpToIdentity(Outcome(c, load, t, events, user, pass), OutcomeWithoutCache(c, load, t, events, user, pass))
  }

  /** The condition is no weaker for a server that never rewrites nor reloads. */
  lemma CacheIsInvisibleToLogInsIffNoShadowing(c: Crypto, load: Loader, t: seq<Entry>)
    requires Steady(load)
    ensures CacheIsInvisibleToLogIns(c, load, t) <==> NoShadowing(load, Reachable(c, iset{t}))
  {
    var tables := iset{t};
    if NoShadowing(load, Reachable(c, tables)) {
      forall events, user, pass | OnlyLogIns(events)
        ensures SameUpToIdentity(Outcome(c, load, t, events, user, pass),
                                 OutcomeWithoutCache(c, load, t, events, user, pass))
      {
        NextLogIn(c, load, tables, t, events, user, pass);
      }
    }
    if CacheIsInvisibleToLogIns(c, load, t) {
      forall a, b | a in Reachable(c, tables) && b in Reachable(c, tables)
          && a.user == b.user && a.shared && Loads(load, a)
        ensures Settings(a) == Settings(b)
      {
        ShadowShows(c, load, t, a, b);
      }
    }
  }

  lemma ShadowShows(c: Crypto, load: Loader, t: seq<Entry>, a: Entry, b: Entry)
    requires CacheIsInvisibleToLogIns(c, load, t) && Reaches(c, iset{t}, a) && Reaches(c, iset{t}, b)
    requires a.user == b.user && a.shared && Loads(load, a)
    ensures Settings(a) == Settings(b)
  {
    var user, pass :| Picked(c, t, user, pass) == Success(a);
    var user', pass' :| Picked(c, t, user', pass') == Success(b);
    var events := [Authenticate(user, pass)];
    SecondLogIn(c, load, t, user, pass, user', pass');
    assert SameUpToIdentity(Outcome(c, load, t, events, user', pass'),
                            OutcomeWithoutCache(c, load, t, events, user', pass'));
  }

  lemma SecondLogIn(c: Crypto, load: Loader, t: seq<Entry>, user: string, pass: string, user': string, pass': string)
    requires Picked(c, t, user, pass).Success? && Picked(c, t, user', pass').Success?
    requires var a, b := Picked(c, t, user, pass).value, Picked(c, t, user', pass').value;
      a.user == b.user && a.shared && Loads(load, a)
    ensures var a, b := Picked(c, t, user, pass).value, Picked(c, t, user', pass').value;
            var events := [Authenticate(user, pass)];
      && Outcome(c, load, t, events, user', pass') == Success(Instance(0, Settings(a)))
      && OutcomeWithoutCache(c, load, t, events, user', pass') == Direct(load, 0, b)
  {
    AfterOneLogIn(c, load, t, user, pass);
    LogInKeepsVerdicts(c, t, user, pass);
    AlikeTablesPickAlike(c, t, AfterLogIn(c, t, user, pass), user', pass');
  }

  /** A shared keycloak access needs no second entry to be shadowed: the instance of a login that keycloak
      accepted also answers a later one of that user with a password keycloak refuses. */
  lemma SharedKeycloakShadowsItself(c: Crypto, load: Loader)
    requires c.decoderError.None?
    requires forall n, s :: load(n, s) == if s.pass == "good" then None else Some(Other("login failed"))
    ensures var t, events := [Entry("", "", "keycloak", true, "")], [Authenticate("u", "good")];
      && Outcome(c, load, t, [], "u", "good") == Outcome(c, load, t, events, "u", "bad")
      && Outcome(c, load, t, events, "u", "bad").Success?
      && OutcomeWithoutCache(c, load, t, events, "u", "bad") == Failure(Other("login failed"))
      && !NoLoadingForOthers(load, Reachable(c, iset{t}))
  {
    var t := [Entry("", "", "keycloak", true, "")];
    assert Judge(c, t[0], "u", "good") == Some(Accept) && Judge(c, t[0], "u", "bad") == Some(Accept);
    SecondLogIn(c, load, t, "u", "good", "u", "bad");
    var a, b := Picked(c, t, "u", "good").value, Picked(c, t, "u", "bad").value;
    ReachedFrom(c, iset{t}, t, "u", "good");
    ReachedFrom(c, iset{t}, t, "u", "bad");
    assert Loads(load, a) && !Loads(load, b);
  }
}
