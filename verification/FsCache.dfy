/** The cache of shared file systems, keyed by the user of the access. */
module FsCache {
  import opened Wrappers
  import opened Credentials

  /** What the loaders read of an access: neither the sharing flag nor, outside keycloak, the password. */
  function Settings(a: Entry): Entry {
    if a.fs == "keycloak" then a.(shared := false) else a.(shared := false, pass := "")
  }

  /** A file system instance: its identity is the loader call that made it. */
  datatype Instance = Instance(id: nat, settings: Entry)

  /** Whether the n-th call of the loader, on these settings, fails. On success it makes a new instance. */
  type Loader = (nat, Entry) -> Option<Error>

  datatype Cache = Cache(shared: map<string, Instance>, calls: nat)

  const EMPTY := Cache(map[], 0)

  function Direct(load: Loader, call: nat, a: Entry): Result<Instance, Error> {
    match load(call, Settings(a))
    case Some(e) => Failure(e)
    case None => Success(Instance(call, Settings(a)))
  }

  function Fetch(load: Loader, c: Cache, a: Entry): (Result<Instance, Error>, Cache) {
    if a.user in c.shared then (Success(c.shared[a.user]), c)
    else
      var r := Direct(load, c.calls, a);
      (r, Cache(if r.Success? && a.shared then c.shared[a.user := r.value] else c.shared, c.calls + 1))
  }

  class SharedFs {
    var accesses: map<string, Instance>
    var calls: nat

    function View(): Cache
      reads this
    {
      Cache(accesses, calls)
    }

    constructor ()
      ensures View() == EMPTY
    {
      accesses, calls := map[], 0;
    }

    method LoadFs(load: Loader, access: Entry) returns (r: Result<Instance, Error>)
      modifies this
      ensures (r, View()) == Fetch(load, old(View()), access)
      ensures access.user in old(accesses) ==>
        r == Success(old(accesses)[access.user]) && accesses == old(accesses) && calls == old(calls)
      ensures access.user !in old(accesses) ==>
        var pass := if access.fs == "keycloak" then access.pass else "";
        var asked := Entry(access.user, pass, access.fs, false, access.source);
        && calls == old(calls) + 1
        && r == (match load(old(calls), asked)
                 case None => Success(Instance(old(calls), asked))
                 case Some(e) => Failure(e))
        && accesses == if r.Success? && access.shared then old(accesses)[access.user := r.value] else old(accesses)
    {
      if access.user in accesses {
        return Success(accesses[access.user]);
      }
      r := Direct(load, calls, access);
      calls := calls + 1;
      if r.Success? && access.shared {
        accesses := accesses[access.user := r.value];
      }
    }
  }

  // ---------------------------------------------------------------- runs

  /** The cache after the first n requests. Config reloads are covered by leaving the accesses requested arbitrary. */
  function After(load: Loader, requests: seq<Entry>, n: nat): Cache
    requires n <= |requests|
  {
    if n == 0 then EMPTY else Fetch(load, After(load, requests, n - 1), requests[n - 1]).1
  }

  function ResultOf(load: Loader, requests: seq<Entry>, i: nat): Result<Instance, Error>
    requires i < |requests|
  {
    Fetch(load, After(load, requests, i), requests[i]).0
  }

  /** The cache only grows: what a user got is never replaced, by whatever requests and errors come later. */
  lemma {:induction false} CacheOnlyGrows(load: Loader, requests: seq<Entry>, lo: nat, hi: nat)
    requires lo <= hi <= |requests|
    ensures var before, after := After(load, requests, lo), After(load, requests, hi);
      && before.calls <= after.calls
      && forall u :: u in before.shared ==> u in after.shared && after.shared[u] == before.shared[u]
  {
    if lo == hi {
    } else {
      CacheOnlyGrows(load, requests, lo, hi - 1);
    }
  }

  /** Once a shared access has been served, every later request for that user, shared or not, gets the same
      instance, without calling the loader. */
  lemma SharedInstanceIsForever(load: Loader, requests: seq<Entry>, i: nat, j: nat)
    requires i < j < |requests| && requests[i].user == requests[j].user && requests[i].shared
    requires ResultOf(load, requests, i).Success?
    ensures ResultOf(load, requests, j) == ResultOf(load, requests, i)
    ensures After(load, requests, j + 1) == After(load, requests, j)
  {
    CacheOnlyGrows(load, requests, i + 1, j);
  }

  /** A failed request and one for a non-shared access leave the shared instances alone. */
  lemma OnlySharedSuccessIsKept(load: Loader, requests: seq<Entry>, i: nat)
    requires i < |requests|
    ensures After(load, requests, i + 1).shared != After(load, requests, i).shared ==>
      && requests[i].shared && ResultOf(load, requests, i).Success?
      && requests[i].user !in After(load, requests, i).shared
      && After(load, requests, i + 1).shared
         == After(load, requests, i).shared[requests[i].user := ResultOf(load, requests, i).value]
    ensures After(load, requests, i + 1).calls == After(load, requests, i).calls
       <==> requests[i].user in After(load, requests, i).shared
  {
  }

  /** A loader call that makes a shared instance for u. */
  predicate LoadsShared(load: Loader, requests: seq<Entry>, i: nat, u: string)
    requires i < |requests|
  {
    && requests[i].user == u && requests[i].shared && ResultOf(load, requests, i).Success?
    && After(load, requests, i + 1).calls > After(load, requests, i).calls
  }

  lemma LoadsOncePerUser(load: Loader, requests: seq<Entry>, i: nat, j: nat, u: string)
    requires i < |requests| && j < |requests|
    requires LoadsShared(load, requests, i, u) && LoadsShared(load, requests, j, u)
    ensures i == j
  {
    if i < j {
      SharedInstanceIsForever(load, requests, i, j);
    } else if j < i {
      SharedInstanceIsForever(load, requests, j, i);
    }
  }

  /** Each user has an instance of its own, loaded with that user's settings. */
  ghost predicate OwnInstances(c: Cache) {
    && (forall u :: u in c.shared ==> c.shared[u].id < c.calls && c.shared[u].settings.user == u)
    && (forall u, v :: u in c.shared && v in c.shared && c.shared[u].id == c.shared[v].id ==> u == v)
  }

  lemma FetchKeepsOwnInstances(load: Loader, c: Cache, a: Entry)
    requires OwnInstances(c)
    ensures OwnInstances(Fetch(load, c, a).1)
  {
  }

  lemma {:induction false} NoInstanceIsMixedUp(load: Loader, requests: seq<Entry>, n: nat)
    requires n <= |requests|
    ensures OwnInstances(After(load, requests, n))
  {
    if n == 0 {
    } else {
      NoInstanceIsMixedUp(load, requests, n - 1);
      FetchKeepsOwnInstances(load, After(load, requests, n - 1), requests[n - 1]);
    }
  }

  /** The request is for the file system that was loaded. */
  predicate LoadedFor(settings: Entry, a: Entry) {
    && settings.user == a.user && settings.fs == a.fs && settings.source == a.source
    && (a.fs == "keycloak" ==> settings.pass == a.pass)
  }

  /** Every instance handed out was loaded from the backend and the settings of the access requested, or of an
      earlier shared one of the same user. */
  lemma InstanceStemsFromAnAccess(load: Loader, requests: seq<Entry>, i: nat) returns (j: nat)
    requires i < |requests| && ResultOf(load, requests, i).Success?
    ensures j <= i && LoadedFor(ResultOf(load, requests, i).value.settings, requests[j])
    ensures requests[j].user == requests[i].user && (j < i ==> requests[j].shared)
  {
    if requests[i].user in After(load, requests, i).shared {
      j := CachedStemsFrom(load, requests, i, requests[i].user);
    } else {
      j := i;
    }
  }

  lemma {:induction false} CachedStemsFrom(load: Loader, requests: seq<Entry>, n: nat, u: string) returns (j: nat)
    requires n <= |requests| && u in After(load, requests, n).shared
    ensures j < n && requests[j].user == u && requests[j].shared
    ensures LoadedFor(After(load, requests, n).shared[u].settings, requests[j])
  {
    if u in After(load, requests, n - 1).shared {
      j := CachedStemsFrom(load, requests, n - 1, u);
    } else {
      j := n - 1;
    }
  }

  // ---------------------------------------------------------------- agreement with direct loading

  /** A loader whose success depends on the settings alone. */
  ghost predicate Steady(load: Loader) {
    forall m, n, s :: load(m, s) == load(n, s)
  }

  /** The results differ at most in which instance they are. */
  predicate SameUpToIdentity(a: Result<Instance, Error>, b: Result<Instance, Error>) {
    match (a, b)
    case (Success(x), Success(y)) => x.settings == y.settings
    case (Failure(e), Failure(f)) => e == f
    case _ => false
  }

  /** Every answer of every run over these accesses is what loading the access directly would give. */
  ghost predicate RefinesDirect(load: Loader, t: iset<Entry>) {
    forall requests: seq<Entry>, i: nat ::
      i < |requests| && (forall a :: a in requests ==> a in t) ==>
        SameUpToIdentity(ResultOf(load, requests, i), Direct(load, 0, requests[i]))
  }

  predicate Loads(load: Loader, a: Entry) {
    load(0, Settings(a)).None?
  }

  /** No access that loads and is shared stands beside a different access of the same user. */
  ghost predicate NoShadowing(load: Loader, t: iset<Entry>) {
    forall a, b :: a in t && b in t && a.user == b.user && a.shared && Loads(load, a) ==> Settings(a) == Settings(b)
  }

  /** a is one of the accesses, and can have put the instance of u into the cache. */
  ghost predicate Backs(load: Loader, t: iset<Entry>, a: Entry, u: string, settings: Entry) {
    a in t && a.user == u && a.shared && Settings(a) == settings && Loads(load, a)
  }

  ghost predicate Backed(load: Loader, t: iset<Entry>, c: Cache) {
    forall u :: u in c.shared ==> exists a :: Backs(load, t, a, u, c.shared[u].settings)
  }

  /** The cache cannot tell these accesses apart. */
  predicate SameRequest(a: Entry, b: Entry) {
    a.user == b.user && a.shared == b.shared && Settings(a) == Settings(b)
  }

  lemma FetchKeepsBacked(load: Loader, t: iset<Entry>, c: Cache, a: Entry)
    requires Steady(load) && Backed(load, t, c) && a in t
    ensures Backed(load, t, Fetch(load, c, a).1)
  {
    var c' := Fetch(load, c, a).1;
    assert load(c.calls, Settings(a)) == load(0, Settings(a));
    forall u | u in c'.shared ensures exists b :: Backs(load, t, b, u, c'.shared[u].settings) {
      if u in c.shared {
        assert c'.shared[u] == c.shared[u];
      } else {
        assert Backs(load, t, a, u, c'.shared[u].settings);
      }
    }
  }

  lemma {:induction false} RunsAreBacked(load: Loader, t: iset<Entry>, requests: seq<Entry>, n: nat)
    requires Steady(load) && n <= |requests| && forall a :: a in requests ==> a in t
    ensures Backed(load, t, After(load, requests, n))
  {
    if n == 0 {
    } else {
      RunsAreBacked(load, t, requests, n - 1);
      assert requests[n - 1] in requests;
      FetchKeepsBacked(load, t, After(load, requests, n - 1), requests[n - 1]);
    }
  }

  /** What a cache that was filled by requests for accesses of t answers to one more of them. */
  lemma BackedAnswer(load: Loader, t: iset<Entry>, c: Cache, a: Entry)
    requires Steady(load) && Backed(load, t, c) && a in t
    ensures NoShadowing(load, t) ==> SameUpToIdentity(Fetch(load, c, a).0, Direct(load, 0, a))
    ensures Direct(load, 0, a).Success? ==> Fetch(load, c, a).0.Success?
    ensures Fetch(load, c, a).0.Success? ==>
      Loads(load, a) || exists b :: b in t && b.user == a.user && b.shared && Loads(load, b)
  {
    assert load(c.calls, Settings(a)) == load(0, Settings(a));
    if a.user in c.shared {
      var b :| Backs(load, t, b, a.user, c.shared[a.user].settings);
      assert b in t && b.user == a.user && b.shared && Loads(load, b);
      assert NoShadowing(load, t) ==> Settings(b) == Settings(a);
    }
  }

  /** On a set of accesses requested, the cache refines direct loading exactly when no shared access shadows
      another one. */
  lemma RefinesDirectIffNoShadowing(load: Loader, t: iset<Entry>)
    requires Steady(load)
    ensures RefinesDirect(load, t) <==> NoShadowing(load, t)
  {
    if NoShadowing(load, t) {
      forall requests: seq<Entry>, i: nat | i < |requests| && (forall a :: a in requests ==> a in t)
        ensures SameUpToIdentity(ResultOf(load, requests, i), Direct(load, 0, requests[i]))
      {
        RunsAreBacked(load, t, requests, i);
        assert requests[i] in requests;
        BackedAnswer(load, t, After(load, requests, i), requests[i]);
      }
    }
    if RefinesDirect(load, t) {
      forall a, b | a in t && b in t && a.user == b.user && a.shared && Loads(load, a)
        ensures Settings(a) == Settings(b)
      {
        var requests := [a, b];
        assert forall x :: x in requests ==> x in t;
        assert After(load, requests, 1) == Fetch(load, EMPTY, a).1;
        assert SameUpToIdentity(ResultOf(load, requests, 1), Direct(load, 0, requests[1]));
      }
    }
  }
}
