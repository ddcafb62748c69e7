/**
  Logins in two halves: choosing the access and loading its file system. Between the two a login holds on to
  an object of a table that other logins and the rewrite change, and that a reload replaces.
*/
module SplitLogins {
  import opened Wrappers
  import opened Credentials
  import opened FsCache
  import Auth

  datatype Event =
    | Choose(login: nat, user: string, pass: string)
    | Load(login: nat)
    | Rewrite(index: nat, salt: nat)
    | Reload(decoded: seq<Entry>, installed: seq<Entry>)

  /** A login that has chosen: which access of which table, and what it was called with. */
  datatype Pending = Pending(table: nat, index: nat, user: string, pass: string)

  /** All tables ever installed; the last one is in use, the others are kept by pending logins only. */
  datatype World = World(tables: seq<seq<Entry>>, pending: map<nat, Pending>, cache: Cache,
                         outcomes: seq<Result<Instance, Error>>)
  {
    ghost predicate Valid() {
      && tables != []
      && forall id :: id in pending ==>
           pending[id].table < |tables| && pending[id].index < |tables[pending[id].table]|
    }

    function Current(): seq<Entry>
      requires tables != []
    {
      tables[|tables| - 1]
    }

    function WithCurrent(t: seq<Entry>): World
      requires tables != []
    {
      this.(tables := tables[|tables| - 1 := t])
    }
  }

  function Step(c: Crypto, load: Loader, w: World, e: Event): (w': World)
    requires w.Valid()
    ensures w'.Valid()
  {
    match e
    case Choose(id, user, pass) => (
      match Answers(c, w.Current(), user, pass)
      case Rejected(error) => w.(outcomes := w.outcomes + [Failure(error)])
      case Chosen(i) =>
        w.WithCurrent(AfterLogIn(c, w.Current(), user, pass))
          .(pending := w.pending[id := Pending(|w.tables| - 1, i, user, pass)]))
    case Load(id) =>
      if id !in w.pending then w
      else
        var (r, cache) := Fetch(load, w.cache, Read(w, id));
        World(w.tables, w.pending - {id}, cache, w.outcomes + [r])
    case Rewrite(i, salt) => w.WithCurrent(AfterHash(c, w.Current(), i, salt))
    case Reload(_, installed) => w.(tables := w.tables + [installed])
  }

  /** The access as the second half of the login finds it. */
  function Read(w: World, id: nat): Entry
    requires w.Valid() && id in w.pending
  {
    w.tables[w.pending[id].table][w.pending[id].index]
  }

  function Run(c: Crypto, load: Loader, t: seq<Entry>, events: seq<Event>): (w: World)
    ensures w.Valid()
  {
    if events == [] then World([t], map[], EMPTY, [])
    else Step(c, load, Run(c, load, t, events[..|events| - 1]), events[|events| - 1])
  }

  /** What an event amounts to if every login takes place as a whole, when it is refused or when it loads. */
  function AsWhole(c: Crypto, w: World, e: Event): Option<Auth.Event>
    requires w.Valid()
  {
    match e
    case Choose(_, user, pass) =>
      if Answers(c, w.Current(), user, pass).Rejected? then Some(Auth.Authenticate(user, pass)) else None
    case Load(id) =>
      if id in w.pending then Some(Auth.Authenticate(w.pending[id].user, w.pending[id].pass)) else None
    case Rewrite(i, salt) => Some(Auth.Rewrite(i, salt))
    case Reload(decoded, installed) => Some(Auth.Reload(decoded, installed))
  }

  function Whole(c: Crypto, load: Loader, t: seq<Entry>, events: seq<Event>): seq<Auth.Event> {
    if events == [] then []
    else
      var before := events[..|events| - 1];
      match AsWhole(c, Run(c, load, t, before), events[|events| - 1])
      case None => Whole(c, load, t, before)
      case Some(e) => Whole(c, load, t, before) + [e]
  }

  /** The login finds a keycloak access with the credentials it has put there itself. */
  predicate Intact(w: World, id: nat)
    requires w.Valid()
  {
    id in w.pending && Read(w, id).fs == "keycloak" ==>
      Read(w, id).user == w.pending[id].user && Read(w, id).pass == w.pending[id].pass
  }

  predicate LoadsIntact(c: Crypto, load: Loader, t: seq<Entry>, events: seq<Event>) {
    events == [] ||
    (var before, e := events[..|events| - 1], events[|events| - 1];
     LoadsIntact(c, load, t, before) && (e.Load? ==> Intact(Run(c, load, t, before), e.login)))
  }

  /** Rewriting takes place only with an ideal hasher, and every table installed judges as t. */
  ghost predicate Keeps(c: Crypto, t: seq<Entry>, e: Event) {
    match e
    case Rewrite(_, _) => Ideal(c)
    case Reload(_, installed) => AlikeTables(c, t, installed)
    case _ => true
  }

  ghost predicate Sound(c: Crypto, t: seq<Entry>, w: World) {
    && w.Valid()
    && (forall g :: 0 <= g < |w.tables| ==> AlikeTables(c, t, w.tables[g]))
    && (forall id :: id in w.pending ==>
          Answers(c, t, w.pending[id].user, w.pending[id].pass) == Chosen(w.pending[id].index))
  }

  lemma CurrentStaysSound(c: Crypto, t: seq<Entry>, w: World, u: seq<Entry>)
    requires Sound(c, t, w) && AlikeTables(c, w.Current(), u)
    ensures Sound(c, t, w.WithCurrent(u))
  {
    AlikeIsAnEquivalence(c, t, w.Current(), u);
    forall id | id in w.pending ensures w.pending[id].index < |w.WithCurrent(u).tables[w.pending[id].table]| {
      assert w.pending[id].index < |w.tables[w.pending[id].table]|;
    }
  }

  lemma PendingStaysSound(c: Crypto, t: seq<Entry>, w: World, id: nat, i: nat, user: string, pass: string)
    requires Sound(c, t, w) && Answers(c, t, user, pass) == Chosen(i)
    ensures Sound(c, t, w.(pending := w.pending[id := Pending(|w.tables| - 1, i, user, pass)]))
  {
    assert AlikeTables(c, t, w.Current());
  }

  lemma StepStaysSound(c: Crypto, load: Loader, t: seq<Entry>, w: World, e: Event)
    requires Sound(c, t, w) && Keeps(c, t, e)
    ensures Sound(c, t, Step(c, load, w, e))
  {
    match e
    case Choose(id, user, pass) =>
      var t' := AfterLogIn(c, w.Current(), user, pass);
      AlikeTablesAnswerAlike(c, t, w.Current(), 0, user, pass);
      LogInKeepsVerdicts(c, w.Current(), user, pass);
      CurrentStaysSound(c, t, w, t');
      if Answers(c, t, user, pass).Chosen? {
        PendingStaysSound(c, t, w.WithCurrent(t'), id, Answers(c, t, user, pass).index, user, pass);
      }
    case Load(_) =>
    case Rewrite(i, salt) =>
      StepKeepsVerdicts(c, w.Current(), HashAt(i, salt));
      CurrentStaysSound(c, t, w, AfterHash(c, w.Current(), i, salt));
    case Reload(_, _) =>
  }

  /** The second half of an intact login gets what the whole login would get now, on any alike table. */
  lemma LoadsTheSame(c: Crypto, load: Loader, t: seq<Entry>, w: World, id: nat, u: seq<Entry>)
    requires Sound(c, t, w) && id in w.pending && Intact(w, id) && AlikeTables(c, t, u)
    ensures var p := w.pending[id];
            var (r, u', cache) := Auth.Authenticated(c, load, u, w.cache, p.user, p.pass);
      (r, cache) == Fetch(load, w.cache, Read(w, id)) && AlikeTables(c, t, u')
  {
    var p := w.pending[id];
    var held, i := w.tables[p.table], p.index;
    AlikeTablesAnswerAlike(c, t, u, 0, p.user, p.pass);
    assert Alike(c, t[i], held[i]) && Alike(c, t[i], u[i]);
    LogInKeepsVerdicts(c, u, p.user, p.pass);
    AlikeIsAnEquivalence(c, t, u, AfterLogIn(c, u, p.user, p.pass));
    assert SameRequest(held[i], AfterLogIn(c, u, p.user, p.pass)[i]);
  }

  lemma RunOfOneMore(c: Crypto, load: Loader, w: Auth.World, events: seq<Auth.Event>, e: Auth.Event)
    ensures Auth.Run(c, load, w, events + [e]) == Auth.Step(c, load, Auth.Run(c, load, w, events), e)
  {
    assert (events + [e])[..|events + [e]| - 1] == events;
  }

  ghost predicate SameSoFar(c: Crypto, t: seq<Entry>, split: World, whole: Auth.World) {
    split.outcomes == whole.outcomes && split.cache == whole.cache && AlikeTables(c, t, whole.table)
  }

  /** The event takes the split run and the run of whole logins to the same outcomes again. */
  ghost predicate StaySame(c: Crypto, load: Loader, t: seq<Entry>, w: World, whole: Auth.World, e: Event)
    requires w.Valid()
  {
    SameSoFar(c, t, Step(c, load, w, e),
              match AsWhole(c, w, e) case None => whole case Some(e') => Auth.Step(c, load, whole, e'))
  }

  lemma ChooseIsWhole(c: Crypto, load: Loader, t: seq<Entry>, w: World, whole: Auth.World, e: Event)
    requires Sound(c, t, w) && SameSoFar(c, t, w, whole) && e.Choose?
    ensures StaySame(c, load, t, w, whole, e)
  {
    AlikeTablesAnswerAlike(c, t, w.Current(), 0, e.user, e.pass);
    AlikeTablesAnswerAlike(c, t, whole.table, 0, e.user, e.pass);
  }

  lemma LoadIsWhole(c: Crypto, load: Loader, t: seq<Entry>, w: World, whole: Auth.World, e: Event)
    requires Sound(c, t, w) && SameSoFar(c, t, w, whole) && e.Load? && Intact(w, e.login)
    ensures StaySame(c, load, t, w, whole, e)
  {
    if e.login in w.pending {
      var p := w.pending[e.login];
      LoadsTheSame(c, load, t, w, e.login, whole.table);
      var (r, table, cache) := Auth.Authenticated(c, load, whole.table, whole.cache, p.user, p.pass);
      assert Auth.Step(c, load, whole, Auth.Authenticate(p.user, p.pass))
          == Auth.World(table, cache, whole.outcomes + [r]);
      assert Step(c, load, w, e) == World(w.tables, w.pending - {e.login}, cache, w.outcomes + [r]);
    }
  }

  lemma NewTableIsWhole(c: Crypto, load: Loader, t: seq<Entry>, w: World, whole: Auth.World, e: Event)
    requires Sound(c, t, w) && SameSoFar(c, t, w, whole) && (e.Rewrite? || e.Reload?) && Keeps(c, t, e)
    ensures StaySame(c, load, t, w, whole, e)
  {
    if e.Rewrite? {
      StepKeepsVerdicts(c, whole.table, HashAt(e.index, e.salt));
      AlikeIsAnEquivalence(c, t, whole.table, AfterHash(c, whole.table, e.index, e.salt));
    }
  }

  lemma StepIsWhole(c: Crypto, load: Loader, t: seq<Entry>, w: World, whole: Auth.World, e: Event)
    requires Sound(c, t, w) && SameSoFar(c, t, w, whole) && Keeps(c, t, e) && (e.Load? ==> Intact(w, e.login))
    ensures StaySame(c, load, t, w, whole, e)
  {
    if e.Choose? {
      ChooseIsWhole(c, load, t, w, whole, e);
    } else if e.Load? {
      LoadIsWhole(c, load, t, w, whole, e);
    } else {
      NewTableIsWhole(c, load, t, w, whole, e);
    }
  }

  /** However the halves of logins interleave with each other, with rewrites and with reloads: as long as every
      login that loads a keycloak access finds its own credentials there, all outcomes and the cache are those
      of the run in which every login takes place as a whole. */
  lemma {:induction false} SplitLoginsAreWhole(c: Crypto, load: Loader, t: seq<Entry>, events: seq<Event>)
    requires (forall e :: e in events ==> Keeps(c, t, e)) && LoadsIntact(c, load, t, events)
    ensures Sound(c, t, Run(c, load, t, events))
    ensures SameSoFar(c, t, Run(c, load, t, events),
                      Auth.Run(c, load, Auth.World(t, EMPTY, []), Whole(c, load, t, events)))
  {
    AlikeIsAnEquivalence(c, t, t, t);
    if events == [] {
    } else {
      var before, e := events[..|events| - 1], events[|events| - 1];
      assert e in events;
      SplitLoginsAreWhole(c, load, t, before);
      var w, start := Run(c, load, t, before), Auth.World(t, EMPTY, []);
      StepStaysSound(c, load, t, w, e);
      StepIsWhole(c, load, t, w, Auth.Run(c, load, start, Whole(c, load, t, before)), e);
      if AsWhole(c, w, e).Some? {
        RunOfOneMore(c, load, start, Whole(c, load, t, before), AsWhole(c, w, e).value);
      }
    }
  }
}
