/**
  The graceful shutdown protocol as a transition system.

  Every step of the server runs under its mutex and is atomic here; so is the unlocked reset at the end
  of WaitGracefully. A channel is named by the rank of the Stop that made it. A run is a sequence of
  events, and `At(run, n)` is the state after its first n events.
*/
module Shutdown {
  import opened Wrappers

  const UINT32 := 0x1_0000_0000

  function Inc(n: nat): nat {
    if n == UINT32 - 1 then 0 else n + 1
  }

  function Dec(n: nat): nat {
    if n == 0 then UINT32 - 1 else n - 1
  }

  datatype Chan = Chan(buffered: bool, closed: bool)
  {
    /** A receive does not block. Every value received is nil: the one sent, or the one a closed channel yields. */
    predicate Ready() {
      buffered || closed
    }
  }

  datatype Status = Running | Panicked | Deadlocked

  datatype Wait = Nil | ErrTimeout

  datatype Event =
    | Connect
    | Disconnect
    | Stop
    | WaitBegin(waiter: nat)
    | WaitReturn(waiter: nat, result: Wait)

  datatype State = State(
    nbClients: nat,
    current: Option<nat>,
    chans: seq<Chan>,
    waiters: map<nat, Option<nat>>,  // the channel each blocked WaitGracefully selected on
    status: Status)

  const INIT := State(0, None, [], map[], Running)

  /** Sends nil and closes, if a channel is installed; in every run that is one of those made, see Consistent.
      A send on a closed channel panics, one on a full channel would block forever. */
  function ConsiderEnd(s: State): State {
    if s.nbClients == 0 && s.current.Some? && s.current.value < |s.chans| then
      var ch := s.chans[s.current.value];
      if ch.closed then s.(status := Panicked)
      else if ch.buffered then s.(status := Deadlocked)
      else s.(chans := s.chans[s.current.value := Chan(true, true)])
    else s
  }

  predicate Enabled(s: State, e: Event) {
    && s.status == Running
    && match e
       case WaitBegin(w) => w !in s.waiters
       case WaitReturn(w, Nil) =>
         w in s.waiters && s.waiters[w].Some? && s.waiters[w].value < |s.chans| && s.chans[s.waiters[w].value].Ready()
       case WaitReturn(w, ErrTimeout) => w in s.waiters
       case _ => true
  }

  function Receive(s: State, w: nat): (chans: seq<Chan>)
    ensures |chans| == |s.chans|
    ensures forall c :: 0 <= c < |chans| ==>
      chans[c].closed == s.chans[c].closed && (chans[c].buffered ==> s.chans[c].buffered)
  {
    if w in s.waiters && s.waiters[w].Some? && s.waiters[w].value < |s.chans|
    then s.chans[s.waiters[w].value := s.chans[s.waiters[w].value].(buffered := false)]
    else s.chans
  }

  function Step(s: State, e: Event): State {
    match e
    case Connect => s.(nbClients := Inc(s.nbClients))
    case Disconnect => ConsiderEnd(s.(nbClients := Dec(s.nbClients)))
    case Stop => ConsiderEnd(s.(current := Some(|s.chans|), chans := s.chans + [Chan(false, false)]))
    case WaitBegin(w) => s.(waiters := s.waiters[w := s.current])
    case WaitReturn(w, r) =>
      s.(chans := if r == Nil then Receive(s, w) else s.chans, waiters := s.waiters - {w}, current := None)
  }

  function At(run: seq<Event>, n: nat): State
    requires n <= |run|
  {
    if n == 0 then INIT else Step(At(run, n - 1), run[n - 1])
  }

  predicate Legal(run: seq<Event>, n: nat)
    requires n <= |run|
  {
    n == 0 || (Legal(run, n - 1) && Enabled(At(run, n - 1), run[n - 1]))
  }

  lemma {:induction false} LegalSoFar(run: seq<Event>, k: nat, n: nat)
    requires k <= n <= |run| && Legal(run, n)
    ensures Legal(run, k)
    ensures k < n ==> Enabled(At(run, k), run[k])
  {
    if k == n {
    } else {
      LegalSoFar(run, k, n - 1);
    }
  }

  // ---------------------------------------------------------------- reading a run without its states

  /** Clients connected minus clients disconnected among the first n events. */
  function Live(run: seq<Event>, n: nat): int
    requires n <= |run|
  {
    if n == 0 then 0
    else Live(run, n - 1) + (match run[n - 1] case Connect => 1 case Disconnect => -1 case _ => 0)
  }

  /** The same count kept in a uint32. */
  function Counter(run: seq<Event>, n: nat): nat
    requires n <= |run|
  {
    if n == 0 then 0
    else match run[n - 1]
      case Connect => Inc(Counter(run, n - 1))
      case Disconnect => Dec(Counter(run, n - 1))
      case _ => Counter(run, n - 1)
  }

  /** Only connected clients disconnect, and there are never 2^32 of them at once. */
  predicate Paired(run: seq<Event>, n: nat)
    requires n <= |run|
  {
    0 <= Live(run, n) < UINT32 && (n == 0 || Paired(run, n - 1))
  }

  lemma {:induction false} PairedSoFar(run: seq<Event>, k: nat, n: nat)
    requires k <= n <= |run| && Paired(run, n)
    ensures Paired(run, k) && Counter(run, k) == Live(run, k)
    decreases n + k
  {
    if k < n {
      PairedSoFar(run, k, n - 1);
    } else if k > 0 {
      PairedSoFar(run, k - 1, k - 1);
    }
  }

  /** The event considers the end, and finds the counter at zero. */
  predicate SeesZero(run: seq<Event>, i: nat)
    requires i < |run|
  {
    (run[i].Stop? || run[i].Disconnect?) && Counter(run, i + 1) == 0
  }

  predicate Replaces(e: Event) {
    e.Stop? || e.WaitReturn?
  }

  /** The Stop at s is still the one whose channel is installed after n events. */
  ghost predicate Installed(run: seq<Event>, s: nat, n: nat)
    requires n <= |run|
  {
    s < n && run[s].Stop? && forall k :: s < k < n ==> !Replaces(run[k])
  }

  /** With the channel of the Stop at s installed all along, zero is seen at i and again at j. */
  ghost predicate FiresTwice(run: seq<Event>, s: nat, i: nat, j: nat, n: nat)
    requires n <= |run|
  {
    s <= i < j < n && Installed(run, s, j) && SeesZero(run, i) && SeesZero(run, j) && run[j].Disconnect?
  }

  // ---------------------------------------------------------------- a monitor for these notions

  function InstalledStop(run: seq<Event>, n: nat): Option<nat>
    requires n <= |run|
  {
    if n == 0 then None
    else match run[n - 1]
      case Stop => Some(n - 1)
      case WaitReturn(_, _) => None
      case _ => InstalledStop(run, n - 1)
  }

  /** When zero was first seen on the installed channel. */
  function FirstZero(run: seq<Event>, n: nat): Option<nat>
    requires n <= |run|
  {
    if n == 0 then None
    else match run[n - 1]
      case Stop => if SeesZero(run, n - 1) then Some(n - 1) else None
      case WaitReturn(_, _) => None
      case _ =>
        if FirstZero(run, n - 1).Some? then FirstZero(run, n - 1)
        else if InstalledStop(run, n - 1).Some? && SeesZero(run, n - 1) then Some(n - 1) else None
  }

  lemma {:induction false} MonitorsInstalled(run: seq<Event>, s: nat, n: nat)
    requires n <= |run|
    ensures InstalledStop(run, n) == Some(s) <==> Installed(run, s, n)
  {
    if n == 0 {
    } else {
      MonitorsInstalled(run, s, n - 1);
      assert Installed(run, s, n) && s < n - 1 ==> !Replaces(run[n - 1]);
    }
  }

  lemma {:induction false} MonitorsFirstZero(run: seq<Event>, s: nat, n: nat)
    requires n <= |run| && InstalledStop(run, n) == Some(s)
    ensures match FirstZero(run, n)
      case Some(i) => s <= i < n && SeesZero(run, i)
      case None => forall i :: s <= i < n ==> !SeesZero(run, i)
  {
    MonitorsInstalled(run, s, n);
    if s < n - 1 {
      assert !Replaces(run[n - 1]);
      MonitorsFirstZero(run, s, n - 1);
    }
  }

  // ---------------------------------------------------------------- the invariant of every run

  /** The channel of the Stop at s. */
  function ChanOf(run: seq<Event>, s: nat): nat
    requires s <= |run|
  {
    |At(run, s).chans|
  }

  ghost predicate Sound(s: State) {
    && s.status == Running
    && (s.current.Some? ==> s.current.value < |s.chans|)
    && (forall c :: 0 <= c < |s.chans| && s.chans[c].buffered ==> s.chans[c].closed)
  }

  ghost predicate Consistent(run: seq<Event>, n: nat)
    requires n <= |run|
  {
    var s := At(run, n);
    && Sound(s)
    && s.nbClients == Counter(run, n)
    && (match InstalledStop(run, n)
        case None => s.current == None && FirstZero(run, n) == None
        case Some(k) => k < n && run[k].Stop? && ChanOf(run, k) < |s.chans| && s.current == Some(ChanOf(run, k)))
    && (s.current.Some? ==> (s.chans[s.current.value].closed <==> FirstZero(run, n).Some?))
  }

  /** One event from a consistent state: when a disconnecting client leaves zero behind on a channel that
      has fired already, the server panics; otherwise the state stays consistent, and no send ever blocks. */
  lemma ConsistentNext(run: seq<Event>, n: nat)
    requires n < |run| && Consistent(run, n) && Enabled(At(run, n), run[n])
    ensures if run[n].Disconnect? && SeesZero(run, n) && FirstZero(run, n).Some?
            then At(run, n + 1).status == Panicked
            else Consistent(run, n + 1)
  {
  }

  lemma {:induction false} LegalRuns(run: seq<Event>, n: nat)
    requires n <= |run| && Legal(run, n)
    ensures Consistent(run, n)
      || (At(run, n).status == Panicked && n > 0 && Consistent(run, n - 1)
          && FirstZero(run, n - 1).Some? && run[n - 1].Disconnect? && SeesZero(run, n - 1))
  {
    if n == 0 {
    } else {
      LegalRuns(run, n - 1);
      ConsistentNext(run, n - 1);
    }
  }

  // ---------------------------------------------------------------- when the server panics

  /** A run sends on a closed channel exactly when zero is seen twice with neither a Stop nor a returning
      wait in between; and no run ever blocks on the send under the mutex. */
  lemma PanicsIffFiresTwice(run: seq<Event>, n: nat)
    requires n <= |run| && Legal(run, n)
    ensures At(run, n).status == Panicked <==> exists s, i, j :: FiresTwice(run, s, i, j, n)
    ensures At(run, n).status != Deadlocked
  {
    LegalRuns(run, n);
    if At(run, n).status == Panicked {
      var s := InstalledStop(run, n - 1).value;
      MonitorsInstalled(run, s, n - 1);
      MonitorsFirstZero(run, s, n - 1);
      assert FiresTwice(run, s, FirstZero(run, n - 1).value, n - 1, n);
    }
    forall s, i, j | FiresTwice(run, s, i, j, n) ensures At(run, n).status == Panicked {
      SecondFiringPanics(run, s, i, j, n);
    }
  }

  lemma SecondFiringPanics(run: seq<Event>, s: nat, i: nat, j: nat, n: nat)
    requires n <= |run| && Legal(run, n) && FiresTwice(run, s, i, j, n)
    ensures At(run, n).status == Panicked && n == j + 1
  {
    LegalSoFar(run, j, n);
    LegalRuns(run, j);
    MonitorsInstalled(run, s, j);
    MonitorsFirstZero(run, s, j);
    ConsistentNext(run, j);
    LegalSoFar(run, j + 1, n);
  }

  lemma {:induction false} LiveFalls(run: seq<Event>, lo: nat, hi: nat)
    requires lo <= hi <= |run| && forall k :: lo <= k < hi ==> !run[k].Connect?
    ensures Live(run, hi) <= Live(run, lo)
  {
    if lo == hi {
    } else {
      LiveFalls(run, lo, hi - 1);
    }
  }

  /** Such runs exist: a stop of an idle server, before its listener closes, with a client slipping in and out. */
  lemma LateClientPanics()
    ensures var run := [Stop, Connect, Disconnect];
      Legal(run, 3) && Paired(run, 3) && At(run, 3).status == Panicked
  {
  }

  /** It takes a client that arrives after the shutdown has fired. */
  lemma PanicNeedsALateClient(run: seq<Event>, s: nat, i: nat, j: nat, n: nat)
    requires n <= |run| && Paired(run, n) && FiresTwice(run, s, i, j, n)
    ensures exists k :: i < k < j && run[k].Connect?
  {
    PairedSoFar(run, i + 1, n);
    PairedSoFar(run, j + 1, n);
    if forall k :: i < k < j ==> !run[k].Connect? {
      LiveFalls(run, i + 1, j);
      assert false;
    }
  }

  /** Without clients arriving after a Stop, the shutdown never panics. */
  lemma NoLateClientNoPanic(run: seq<Event>, n: nat)
    requires n <= |run| && Legal(run, n) && Paired(run, n)
    requires forall s, k :: 0 <= s < k < n && run[s].Stop? ==> !run[k].Connect?
    ensures At(run, n).status == Running
  {
    PanicsIffFiresTwice(run, n);
    if At(run, n).status == Panicked {
      var s, i, j :| FiresTwice(run, s, i, j, n);
      PanicNeedsALateClient(run, s, i, j, n);
      assert false;
    }
    LegalRuns(run, n);
  }

  // ---------------------------------------------------------------- when a channel becomes ready

  /** No live client after m events, with the channel of the Stop at s still installed. */
  ghost predicate Emptied(run: seq<Event>, s: nat, m: nat)
    requires m <= |run|
  {
    Installed(run, s, m) && Live(run, m) == 0
  }

  lemma {:induction false} ChansGrow(run: seq<Event>, lo: nat, hi: nat)
    requires lo <= hi <= |run|
    ensures ChanOf(run, lo) <= ChanOf(run, hi)
    ensures lo < hi && run[lo].Stop? ==> ChanOf(run, lo) < ChanOf(run, hi)
  {
    if lo == hi {
    } else {
      ChansGrow(run, lo, hi - 1);
    }
  }

  /** A channel is closed only while it is installed, and stays closed. */
  lemma ClosedOnlyWhileInstalled(run: seq<Event>, s: nat, n: nat)
    requires s < n < |run| && Consistent(run, n) && Consistent(run, n + 1) && run[s].Stop?
    ensures ChanOf(run, s) < ChanOf(run, n) && ChanOf(run, s) < ChanOf(run, n + 1)
    ensures InstalledStop(run, n + 1) != Some(s) ==>
      At(run, n + 1).chans[ChanOf(run, s)].closed == At(run, n).chans[ChanOf(run, s)].closed
  {
    ChansGrow(run, s, n);
    ChansGrow(run, s, n + 1);
    match InstalledStop(run, n + 1)
    case None =>
    case Some(k) =>
      if k < s {
        ChansGrow(run, k, s);
      } else if s < k {
        ChansGrow(run, s, k);
      }
  }

  /** The channel of a Stop is ready exactly when, in some state from that Stop on and with that channel
      still installed, the server was without live clients. */
  lemma {:induction false} ReadyIffEmptied(run: seq<Event>, s: nat, n: nat)
    requires s < n <= |run| && Legal(run, n) && Paired(run, n) && run[s].Stop? && At(run, n).status == Running
    ensures ChanOf(run, s) < ChanOf(run, n)
    ensures At(run, n).chans[ChanOf(run, s)].Ready() <==> At(run, n).chans[ChanOf(run, s)].closed
    ensures At(run, n).chans[ChanOf(run, s)].closed <==> exists m :: 0 <= m <= n && Emptied(run, s, m)
  {
    ChansGrow(run, s, n);
    LegalRuns(run, n);
    PairedSoFar(run, n, n);
    MonitorsInstalled(run, s, n);
    if s + 1 == n {
      assert At(run, n).chans[ChanOf(run, s)].closed <==> Emptied(run, s, n);
      assert forall m :: 0 <= m <= n && Emptied(run, s, m) ==> m == n;
    } else {
      LegalSoFar(run, n - 1, n);
      PairedSoFar(run, n - 1, n);
      LegalRuns(run, n - 1);
      ReadyIffEmptied(run, s, n - 1);
      MonitorsInstalled(run, s, n - 1);
      ClosedOnlyWhileInstalled(run, s, n - 1);
      ReadyNext(run, s, n - 1);
    }
  }

  /** The installed channel turns ready with the event that leaves no live client. */
  lemma ReadyNext(run: seq<Event>, s: nat, n: nat)
    requires s < n < |run| && Consistent(run, n) && Consistent(run, n + 1) && run[s].Stop?
    requires Paired(run, n + 1) && Enabled(At(run, n), run[n])
    requires ChanOf(run, s) < ChanOf(run, n)
    requires At(run, n).chans[ChanOf(run, s)].closed <==> exists m :: 0 <= m <= n && Emptied(run, s, m)
    ensures ChanOf(run, s) < ChanOf(run, n + 1)
    ensures At(run, n + 1).chans[ChanOf(run, s)].closed
      <==> At(run, n).chans[ChanOf(run, s)].closed || Emptied(run, s, n + 1)
  {
    ClosedOnlyWhileInstalled(run, s, n);
    MonitorsInstalled(run, s, n);
    MonitorsInstalled(run, s, n + 1);
    PairedSoFar(run, n, n + 1);
    PairedSoFar(run, n + 1, n + 1);
    if InstalledStop(run, n + 1) == Some(s) {
      assert InstalledStop(run, n) == Some(s) && !Replaces(run[n]);
      if Live(run, n + 1) == 0 && !run[n].Disconnect? {
        assert Emptied(run, s, n);
      }
    }
  }

  /** A wait blocked on the channel of a Stop can return nil exactly when the server has been without live
      clients while that channel was installed. It can time out at any time. */
  lemma NilIsPossibleIffEmptied(run: seq<Event>, s: nat, n: nat, w: nat)
    requires s < n <= |run| && Legal(run, n) && Paired(run, n) && run[s].Stop? && At(run, n).status == Running
    requires w in At(run, n).waiters && At(run, n).waiters[w] == Some(ChanOf(run, s))
    ensures Enabled(At(run, n), WaitReturn(w, Nil)) <==> exists m :: 0 <= m <= n && Emptied(run, s, m)
    ensures Enabled(At(run, n), WaitReturn(w, ErrTimeout))
  {
    ReadyIffEmptied(run, s, n);
  }

  /** The wait that began with the event at b has not returned. */
  ghost predicate IsWaiting(run: seq<Event>, b: nat, w: nat, n: nat)
    requires n <= |run|
  {
    b < n && run[b] == WaitBegin(w) && forall l :: b < l < n ==> !(run[l].WaitReturn? && run[l].waiter == w)
  }

  lemma {:induction false} WaitersAreWaiting(run: seq<Event>, n: nat, w: nat)
    requires n <= |run| && Legal(run, n)
    ensures w in At(run, n).waiters <==> exists b :: 0 <= b < n && IsWaiting(run, b, w, n)
  {
    if n == 0 {
    } else {
      WaitersAreWaiting(run, n - 1, w);
      forall b | 0 <= b < n - 1 ensures IsWaiting(run, b, w, n)
          <==> IsWaiting(run, b, w, n - 1) && !(run[n - 1].WaitReturn? && run[n - 1].waiter == w) {
      }
      assert IsWaiting(run, n - 1, w, n) <==> run[n - 1] == WaitBegin(w);
      if w in At(run, n).waiters && run[n - 1] != WaitBegin(w) {
        var b :| 0 <= b < n - 1 && IsWaiting(run, b, w, n - 1);
        assert IsWaiting(run, b, w, n);
      }
    }
  }

  /** While the server runs, clients may come and go, it may be stopped, and every wait that has not returned
      can time out, with or without a channel. */
  lemma WhatCanHappenNext(run: seq<Event>, n: nat, w: nat)
    requires n <= |run| && Legal(run, n) && At(run, n).status == Running
    ensures Enabled(At(run, n), Connect) && Enabled(At(run, n), Disconnect) && Enabled(At(run, n), Stop)
    ensures Enabled(At(run, n), WaitReturn(w, ErrTimeout)) <==> exists b :: 0 <= b < n && IsWaiting(run, b, w, n)
    ensures Enabled(At(run, n), WaitBegin(w)) <==> !exists b :: 0 <= b < n && IsWaiting(run, b, w, n)
  {
    WaitersAreWaiting(run, n, w);
  }

  /** So a wait that begins while that channel is installed, and has not returned yet, can return nil exactly
      from the moment on when nobody is left, whatever has been installed since. */
  lemma WaitOnStopCanReturnNilIff(run: seq<Event>, s: nat, b: nat, n: nat, w: nat)
    requires b < n <= |run| && Legal(run, n) && Paired(run, n) && At(run, n).status == Running
    requires Installed(run, s, b) && run[b] == WaitBegin(w)
    requires forall l :: b < l < n ==> !(run[l].WaitReturn? && run[l].waiter == w)
    ensures Enabled(At(run, n), WaitReturn(w, Nil)) <==> exists m :: 0 <= m <= n && Emptied(run, s, m)
  {
    LegalSoFar(run, b, n);
    LegalRuns(run, b);
    MonitorsInstalled(run, s, b);
    WaiterKeepsItsChannel(run, b, n, w);
    NilIsPossibleIffEmptied(run, s, n, w);
  }

  /** The shortest one: the wait for an idle server. */
  lemma IdleServerStopsAtOnce()
    ensures Legal([Stop, WaitBegin(0), WaitReturn(0, Nil)], 3)
  {
  }

  /** Soundness: a wait that returns nil selected on the channel of some Stop, and from that Stop on, while
      its channel was installed, there was a state without live clients. */
  lemma NilMeansEmptied(run: seq<Event>, k: nat, w: nat) returns (s: nat, m: nat)
    requires k < |run| && Legal(run, k + 1) && Paired(run, k) && run[k] == WaitReturn(w, Nil)
    ensures m <= k && Emptied(run, s, m)
    ensures w in At(run, k).waiters && At(run, k).waiters[w] == Some(ChanOf(run, s))
  {
    s := StopOfChan(run, k, At(run, k).waiters[w].value);
    ReadyIffEmptied(run, s, k);
    m :| m <= k && Emptied(run, s, m);
  }

  /** Every channel was made by a Stop. */
  lemma {:induction false} StopOfChan(run: seq<Event>, n: nat, c: nat) returns (s: nat)
    requires n <= |run| && c < ChanOf(run, n)
    ensures s < n && run[s].Stop? && ChanOf(run, s) == c
  {
    if c < ChanOf(run, n - 1) {
      s := StopOfChan(run, n - 1, c);
    } else {
      s := n - 1;
    }
  }

  function Disconnects(run: seq<Event>, lo: nat, hi: nat): nat
    requires lo <= hi <= |run|
  {
    if lo == hi then 0 else Disconnects(run, lo, hi - 1) + (if run[hi - 1].Disconnect? then 1 else 0)
  }

  lemma {:induction false} LiveIsWhatIsLeft(run: seq<Event>, lo: nat, hi: nat)
    requires lo <= hi <= |run| && forall k :: lo <= k < hi ==> !run[k].Connect?
    ensures Live(run, hi) == Live(run, lo) - Disconnects(run, lo, hi)
  {
    if lo == hi {
    } else {
      LiveIsWhatIsLeft(run, lo, hi - 1);
    }
  }

  /** From a Stop on, with nobody arriving and nothing replacing its channel, the clients then live are what
      is left to wait for: each Disconnect removes one, the server keeps running, and the channel is ready
      exactly when none is left. */
  lemma DrainsToReady(run: seq<Event>, s: nat, n: nat)
    requires s < n <= |run| && Legal(run, n) && Paired(run, n) && Installed(run, s, n)
    requires forall k :: s < k < n ==> !run[k].Connect?
    ensures At(run, n).status == Running && At(run, n).current == Some(ChanOf(run, s))
    ensures ChanOf(run, s) < ChanOf(run, n)
    ensures Live(run, n) == Live(run, s) - Disconnects(run, s, n)
    ensures At(run, n).chans[ChanOf(run, s)].Ready() <==> Disconnects(run, s, n) == Live(run, s)
    ensures forall w :: w in At(run, n).waiters && At(run, n).waiters[w] == Some(ChanOf(run, s)) ==>
      (Enabled(At(run, n), WaitReturn(w, Nil)) <==> Disconnects(run, s, n) == Live(run, s))
  {
    PanicsIffFiresTwice(run, n);
    if At(run, n).status == Panicked {
      var s', i, j :| FiresTwice(run, s', i, j, n);
      SecondFiringPanics(run, s', i, j, n);
      MonitorsInstalled(run, s, j);
      MonitorsInstalled(run, s', j);
      PanicNeedsALateClient(run, s', i, j, n);
      assert false;
    }
    LegalRuns(run, n);
    MonitorsInstalled(run, s, n);
    LiveIsWhatIsLeft(run, s, n);
    ReadyIffEmptied(run, s, n);
    forall m | 0 <= m <= n && Emptied(run, s, m) ensures Live(run, n) == 0 {
      LiveFalls(run, m, n);
      PairedSoFar(run, n, n);
    }
    if Live(run, n) == 0 {
      assert Emptied(run, s, n);
    }
  }

  lemma {:induction false} LastDeparture(run: seq<Event>, lo: nat, hi: nat) returns (j: nat)
    requires lo <= hi <= |run| && Paired(run, hi) && Live(run, lo) > 0 && Live(run, hi) == 0
    ensures lo <= j < hi && run[j].Disconnect? && Live(run, j + 1) == 0
  {
    PairedSoFar(run, hi - 1, hi);
    if Live(run, hi - 1) == 0 {
      j := LastDeparture(run, lo, hi - 1);
    } else {
      j := hi - 1;
    }
  }

  /** From l on nobody arrives, and nothing replaces the channel of the Stop at s. */
  ghost predicate ListenerStopped(run: seq<Event>, s: nat, l: nat, n: nat)
    requires n <= |run|
  {
    s < l <= n && Installed(run, s, l) && forall k :: l <= k < n ==> !run[k].Connect? && !Replaces(run[k])
  }

  lemma PanicAfterListenerStopped(run: seq<Event>, s: nat, l: nat, n: nat)
    requires n <= |run| && Legal(run, n) && Paired(run, n) && ListenerStopped(run, s, l, n)
    requires Consistent(run, l) && At(run, n).status == Panicked
    ensures FirstZero(run, l).Some? && Live(run, l) > 0
    ensures InstalledStop(run, n - 1) == Some(s) && l < n
    ensures Consistent(run, n - 1) && FirstZero(run, n - 1).Some? && run[n - 1].Disconnect?
  {
    LegalRuns(run, n);
    var j := n - 1;
    MonitorsInstalled(run, s, j);
    MonitorsFirstZero(run, s, j);
    var i := FirstZero(run, j).value;
    assert FiresTwice(run, s, i, j, n);
    PanicNeedsALateClient(run, s, i, j, n);
    LiveFalls(run, l, j);
    PairedSoFar(run, n, n);
    MonitorsInstalled(run, s, l);
    MonitorsFirstZero(run, s, l);
  }

  lemma SecondFiringAfterListenerStopped(run: seq<Event>, s: nat, l: nat, n: nat)
    requires n <= |run| && Legal(run, n) && Paired(run, n) && ListenerStopped(run, s, l, n)
    requires FirstZero(run, l).Some? && Live(run, l) > 0 && Live(run, n) == 0
    ensures At(run, n).status == Panicked
  {
    MonitorsInstalled(run, s, l);
    MonitorsFirstZero(run, s, l);
    var j := LastDeparture(run, l, n);
    PairedSoFar(run, j + 1, n);
    assert FiresTwice(run, s, FirstZero(run, l).value, j, n);
    SecondFiringPanics(run, s, FirstZero(run, l).value, j, n);
  }

  /** The listener stops only after Stop, so clients may still arrive in between. Once it has stopped, and
      while nobody's wait has returned, the departure of the last client panics exactly when the channel had
      already fired and clients were live again by then; otherwise the channel is ready. */
  lemma LastClientLeaves(run: seq<Event>, s: nat, l: nat, n: nat)
    requires n <= |run| && Legal(run, n) && Paired(run, n) && ListenerStopped(run, s, l, n)
    requires At(run, l).status == Running && Live(run, n) == 0
    ensures ChanOf(run, s) < ChanOf(run, l) && ChanOf(run, s) < ChanOf(run, n)
    ensures At(run, n).status == Panicked <==> At(run, l).chans[ChanOf(run, s)].closed && Live(run, l) > 0
    ensures At(run, n).status == Running ==> At(run, n).chans[ChanOf(run, s)].Ready()
    ensures At(run, n).status == Running ==>
      forall w :: w in At(run, n).waiters && At(run, n).waiters[w] == Some(ChanOf(run, s)) ==>
        Enabled(At(run, n), WaitReturn(w, Nil))
  {
    ChansGrow(run, s, l);
    ChansGrow(run, s, n);
    LegalSoFar(run, l, n);
    LegalRuns(run, l);
    MonitorsInstalled(run, s, l);
    if At(run, n).status == Panicked {
      PanicAfterListenerStopped(run, s, l, n);
    } else {
      LegalRuns(run, n);
      ReadyIffEmptied(run, s, n);
      assert Emptied(run, s, n);
      if FirstZero(run, l).Some? && Live(run, l) > 0 {
        SecondFiringAfterListenerStopped(run, s, l, n);
      }
    }
  }

  lemma {:induction false} WaiterKeepsItsChannel(run: seq<Event>, b: nat, k: nat, w: nat)
    requires b < k <= |run| && Legal(run, k) && run[b] == WaitBegin(w)
    requires forall l :: b < l < k ==> !(run[l].WaitReturn? && run[l].waiter == w)
    ensures w in At(run, k).waiters && At(run, k).waiters[w] == At(run, b).current
  {
    if b + 1 == k {
    } else {
      WaiterKeepsItsChannel(run, b, k - 1, w);
    }
  }

  lemma {:induction false} NothingInstalled(run: seq<Event>, n: nat)
    requires n <= |run| && forall s :: 0 <= s < n ==> !run[s].Stop?
    ensures InstalledStop(run, n) == None
  {
    if n == 0 {
    } else {
      NothingInstalled(run, n - 1);
    }
  }

  /** A wait that begins before any Stop can only time out, however many Stops come later. */
  lemma WaitWithoutStopTimesOut(run: seq<Event>, b: nat, k: nat, w: nat, r: Wait)
    requires b < k < |run| && Legal(run, k + 1)
    requires run[b] == WaitBegin(w) && (forall s :: 0 <= s < b ==> !run[s].Stop?)
    requires run[k] == WaitReturn(w, r) && forall l :: b < l < k ==> !(run[l].WaitReturn? && run[l].waiter == w)
    ensures r == ErrTimeout
  {
    LegalSoFar(run, b, k + 1);
    LegalRuns(run, b);
    NothingInstalled(run, b);
    WaiterKeepsItsChannel(run, b, k, w);
  }
}
