/** The server's side of the shutdown protocol, on its mutable fields. */
module Server {
  import opened Wrappers
  import opened Shutdown

  newtype uint32 = x: int | 0 <= x < 0x1_0000_0000

  /** A channel of capacity one that carries nil errors. */
  class Channel {
    ghost const rank: nat
    var buffered: bool
    var closed: bool

    constructor (ghost rank: nat)
      ensures this.rank == rank && !buffered && !closed
    {
      this.rank := rank;
      buffered, closed := false, false;
    }

    ghost function View(): Chan
      reads this
    {
      Chan(buffered, closed)
    }
  }

  class Server {
    var nbClients: uint32
    var zeroClientEvent: Channel?
    var waiters: map<nat, Channel?>  // the channels that blocked calls of WaitGracefully select on
    ghost var status: Status
    ghost var channels: seq<Channel>  // all channels ever made

    ghost predicate Valid()
      reads this, channels
    {
      && (forall c :: 0 <= c < |channels| ==> channels[c].rank == c)
      && (zeroClientEvent != null ==> Known(zeroClientEvent))
      && (forall w :: w in waiters && waiters[w] != null ==> Known(waiters[w]))
    }

    ghost predicate Known(ch: Channel)
      reads this
    {
      ch.rank < |channels| && channels[ch.rank] == ch
    }

    static ghost function Rank(ch: Channel?): Option<nat> {
      if ch == null then None else Some(ch.rank)
    }

    ghost function Chans(): (chans: seq<Chan>)
      reads this, channels
      ensures |chans| == |channels| && forall c :: 0 <= c < |chans| ==> chans[c] == channels[c].View()
    {
      seq(|channels|, c requires 0 <= c < |channels| reads this, channels => channels[c].View())
    }

    ghost function View(): State
      reads this, channels
    {
      State(nbClients as nat, Rank(zeroClientEvent), Chans(), map w | w in waiters :: Rank(waiters[w]), status)
    }

    constructor ()
      ensures Valid() && View() == INIT
    {
      nbClients, zeroClientEvent, waiters := 0, null, map[];
      status, channels := Running, [];
    }

    /** Sends nil and closes; the ghost status records a send that would panic or block. */
    method ConsiderEnd()
      requires Valid() && status == Running
      modifies this`status, zeroClientEvent
      ensures Valid() && View() == Shutdown.ConsiderEnd(old(View()))
      ensures nbClients != 0 || zeroClientEvent == null ==> View() == old(View())
      ensures nbClients == 0 && zeroClientEvent != null ==>
        && (status == Panicked <==> old(zeroClientEvent.closed))
        && (status == Running ==> zeroClientEvent.buffered && zeroClientEvent.closed)
    {
      if nbClients == 0 && zeroClientEvent != null {
        var ch := zeroClientEvent;
        assert Chans()[ch.rank] == ch.View();
        if ch.closed {
          status := Panicked;
        } else if ch.buffered {
          status := Deadlocked;
        } else {
          ch.buffered := true;
          ch.closed := true;
          assert Chans() == old(Chans())[ch.rank := Chan(true, true)];
        }
      }
    }

    method ClientConnected()
      requires Valid() && Enabled(View(), Connect)
      modifies this`nbClients
      ensures Valid() && View() == Step(old(View()), Connect)
      ensures nbClients as nat == (old(nbClients) as nat + 1) % 0x1_0000_0000
    {
      nbClients := if nbClients == 0xFFFF_FFFF then 0 else nbClients + 1;
    }

    method ClientDisconnected()
      requires Valid() && Enabled(View(), Disconnect)
      modifies this`nbClients, this`status, zeroClientEvent
      ensures Valid() && View() == Step(old(View()), Disconnect)
      ensures nbClients as nat == (old(nbClients) as nat + 0xFFFF_FFFF) % 0x1_0000_0000
    {
      nbClients := if nbClients == 0 then 0xFFFF_FFFF else nbClients - 1;
      ConsiderEnd();
    }

    method Stop()
      requires Valid() && Enabled(View(), Event.Stop)
      modifies this`zeroClientEvent, this`channels, this`status
      ensures Valid() && View() == Step(old(View()), Event.Stop)
      ensures zeroClientEvent != null && fresh(zeroClientEvent) && nbClients == old(nbClients)
      ensures zeroClientEvent.closed == zeroClientEvent.buffered == (nbClients == 0)
    {
      var ch := new Channel(|channels|);
      channels := channels + [ch];
      zeroClientEvent := ch;
      assert Chans() == old(Chans()) + [Chan(false, false)];
      ConsiderEnd();
    }

    /** The first half of WaitGracefully: the select reads the field once and blocks on that channel. */
    method BeginWait(w: nat)
      requires Valid() && Enabled(View(), WaitBegin(w))
      modifies this`waiters
      ensures Valid() && View() == Step(old(View()), WaitBegin(w))
      ensures waiters == old(waiters)[w := zeroClientEvent]
    {
      waiters := waiters[w := zeroClientEvent];
    }

    /** The second half: a receive or the timer, then the deferred reset of the field. */
    method EndWait(w: nat, timedOut: bool) returns (r: Wait)
      requires Valid() && Enabled(View(), WaitReturn(w, if timedOut then ErrTimeout else Nil))
      modifies this`waiters, this`zeroClientEvent, waiters.Values
      ensures r == if timedOut then ErrTimeout else Nil
      ensures Valid() && View() == Step(old(View()), WaitReturn(w, r))
      ensures zeroClientEvent == null && waiters == old(waiters) - {w}
      ensures !timedOut ==> old(waiters)[w] != null && !old(waiters)[w].buffered
      ensures timedOut ==> Chans() == old(Chans())
    {
      if timedOut {
        r := ErrTimeout;
      } else {
        var ch := waiters[w];
        assert Chans()[ch.rank] == ch.View();
        ch.buffered := false;
        r := Nil;
        assert Chans() == Receive(old(View()), w);
      }
      waiters := waiters - {w};
      zeroClientEvent := null;
    }
  }
}
