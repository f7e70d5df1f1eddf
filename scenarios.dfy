/**
 * Event sequences run against a fresh supervisor, each ending in the state the handlers of
 * `setupForward` and `stop` leave behind. They pin down the three behaviours the handlers
 * show when events arrive in an order other than "listen, serve, shut down".
 */
module Scenarios {
  import opened Endpoints
  import opened Forwarding
  import opened Supervision

  /**
   * A forwarder accepts one connection and the outbound socket closes. That socket's 'close'
   * reaches the respawn handler: the still listening forwarder loses its key to a new one.
   */
  method OverloadedCloseRespawns(listen: Endpoint, destination: Endpoint, remote: Endpoint)
    returns (sup: Supervisor, f: Forwarder, g: Forwarder)
    ensures f != g && f.server == Bound && f.sockets == [1] && f.respawn
    ensures g.IsNew(listen, destination)
    ensures sup.Contents() == map[Key(listen, destination) := g]
  {
    sup := new Supervisor();
    f := sup.SetupForward(listen, destination);
    var events := sup.ServerListening(f);
    events := sup.Accept(f, 1, 2, remote);
    assert f.State() == ForwarderState(Bound, [1, 2], map[1 := remote], true);
    g := OutboundClose(sup, f, remote);
  }

  /** The outbound socket of the one connection of the only stored forwarder closes. */
  method OutboundClose(sup: Supervisor, f: Forwarder, remote: Endpoint) returns (g: Forwarder)
    requires sup.Valid() && f.Valid() && f.id == Key(f.listen, f.destination)
    requires sup.Contents() == map[f.id := f]
    requires f.State() == ForwarderState(Bound, [1, 2], map[1 := remote], true)
    modifies sup, f`sockets, f`peers
    ensures sup.Valid() && f.Valid() && f != g && fresh(g) && g.IsNew(f.listen, f.destination)
    ensures f.State() == ForwarderState(Bound, [1], map[1 := remote], true)
    ensures sup.Contents() == map[f.id := g]
  {
    assert f.id in sup.Contents() && f.respawn && 2 in f.Tracked();
    var events, spawned := sup.SocketClose(f, 2);
    g := spawned;
    assert f.sockets == [1] by { assert |f.sockets| == 1 && f.sockets[0] in f.sockets; }
    assert f.peers == map[1 := remote];
  }

  /**
   * The sequence above, after which the inbound socket of the first forwarder closes too. The
   * handler of the first forwarder deletes the key, which now holds the second forwarder, and
   * stores a third. The second is left listening but is no longer reachable from the map.
   */
  method StaleCloseReplacesNewer(listen: Endpoint, destination: Endpoint, remote: Endpoint)
    returns (sup: Supervisor, f: Forwarder, g: Forwarder, h: Forwarder, events: seq<Event>)
    ensures f.sockets == [] && f.server == Bound
    ensures events == [Disconnection(remote), Event.Close]
    ensures h != g && h != f && g.server == Binding && g.respawn
    ensures h.IsNew(listen, destination)
    ensures sup.Contents() == map[Key(listen, destination) := h]
  {
    sup := new Supervisor();
    f := sup.SetupForward(listen, destination);
    events := sup.ServerListening(f);
    events := sup.Accept(f, 1, 2, remote);
    assert f.State() == ForwarderState(Bound, [1, 2], map[1 := remote], true);
    g := OutboundClose(sup, f, remote);
    events, h := StaleClose(sup, f, g, remote);
  }

  /** The second half of the scenario above: the first forwarder's last socket closes. */
  method StaleClose(sup: Supervisor, f: Forwarder, g: Forwarder, remote: Endpoint)
    returns (events: seq<Event>, h: Forwarder)
    requires sup.Valid() && f.Valid() && f.id == Key(f.listen, f.destination) && f != g
    requires sup.Contents() == map[f.id := g]
    requires f.State() == ForwarderState(Bound, [1], map[1 := remote], true)
    modifies sup, f`sockets, f`peers
    ensures f.sockets == [] && f.server == Bound
    ensures events == [Disconnection(remote), Event.Close]
    ensures fresh(h) && h.IsNew(f.listen, f.destination)
    ensures sup.Contents() == map[f.id := h]
  {
    var spawned;
    events, spawned := sup.SocketClose(f, 1);
    h := spawned;
  }

  /**
   * The listener cannot bind: the error closes the server and clears `respawn` without being
   * logged, so the server's 'close' removes the key and creates nothing.
   */
  method BindErrorEndsRespawn(listen: Endpoint, destination: Endpoint)
    returns (sup: Supervisor, f: Forwarder, logged: bool, spawned: Forwarder?)
    ensures !logged && !f.respawn && f.server == Closed
    ensures spawned == null && sup.Contents() == map[]
  {
    sup := new Supervisor();
    f := sup.SetupForward(listen, destination);
    var events;
    events, logged := sup.ServerError(f, "EADDRINUSE");
    events, spawned := sup.ServerClose(f);
  }

  /** Any other listener error is logged and the forwarder is set up again once it closes. */
  method OtherErrorRespawns(listen: Endpoint, destination: Endpoint)
    returns (sup: Supervisor, f: Forwarder, logged: bool, spawned: Forwarder?)
    ensures logged && f.respawn && f.server == Closed
    ensures spawned != null && spawned != f && spawned.IsNew(listen, destination)
    ensures sup.Contents() == map[Key(listen, destination) := spawned]
  {
    sup := new Supervisor();
    f := sup.SetupForward(listen, destination);
    var events;
    events, logged := sup.ServerError(f, "EACCES");
    events, spawned := sup.ServerClose(f);
  }

  /**
   * `stop` on a serving forwarder: the live iterator reaches nothing, so `close()` is never
   * called and the server keeps listening. A later socket close finds the map empty and
   * creates nothing.
   */
  method CloseAfterStopIsIgnored(listen: Endpoint, destination: Endpoint, remote: Endpoint)
    returns (sup: Supervisor, f: Forwarder, closed: seq<Forwarder>, spawned: Forwarder?)
    ensures closed == [] && f.server == Bound && f.sockets == [2]
    ensures spawned == null && sup.Contents() == map[]
  {
    sup := new Supervisor();
    f := sup.SetupForward(listen, destination);
    var events := sup.ServerListening(f);
    events := sup.Accept(f, 1, 2, remote);
    closed := sup.Stop();
    events, spawned := sup.SocketClose(f, 1);
  }

  /**
   * With the values copied before the map is cleared, the serving forwarder is closed: its
   * server starts closing, `end()` is called on both sockets of its one connection, and the
   * set of sockets is left to their own close events.
   */
  method SnapshotStopCloses(listen: Endpoint, destination: Endpoint, remote: Endpoint)
    returns (sup: Supervisor, f: Forwarder, closed: seq<Forwarder>, ended: seq<seq<SocketId>>)
    ensures closed == [f] && ended == [[1, 2]]
    ensures f.server == Closing && f.sockets == [1, 2] && f.respawn
    ensures sup.Contents() == map[]
  {
    sup := new Supervisor();
    f := sup.SetupForward(listen, destination);
    var events := sup.ServerListening(f);
    events := sup.Accept(f, 1, 2, remote);
    assert f.State() == ForwarderState(Bound, [1, 2], map[1 := remote], true);
    closed, ended := StopWithOne(sup, f, remote);
  }

  /** The second half of the scenario above: the snapshot `stop` on a map holding one forwarder. */
  method StopWithOne(sup: Supervisor, f: Forwarder, remote: Endpoint)
    returns (closed: seq<Forwarder>, ended: seq<seq<SocketId>>)
    requires sup.Valid() && sup.Contents() == map[f.id := f]
    requires f.State() == ForwarderState(Bound, [1, 2], map[1 := remote], true)
    modifies sup, f
    ensures closed == [f] && ended == [[1, 2]]
    ensures f.State() == ForwarderState(Closing, [1, 2], map[1 := remote], true)
    ensures sup.Contents() == map[]
  {
    assert sup.States()[f.id] == f.State();
    closed, ended := sup.StopSnapshot();
    assert closed == [f] by {
      assert f in closed && |closed| == 1;
    }
    assert ended == [[1, 2]] by {
      assert |ended| == 1 && ended[0] == closed[0].sockets;
    }
  }

  /**
   * Two pairs that differ only in their addresses share a key: the second `setupForward`
   * overwrites the first, which keeps running outside the map.
   */
  method SameIdOverwrites(listen1: Endpoint, destination1: Endpoint, listen2: Endpoint, destination2: Endpoint)
    returns (sup: Supervisor, f: Forwarder, g: Forwarder)
    requires listen1.port == listen2.port && destination1.port == destination2.port
    ensures f != g && f.IsNew(listen1, destination1) && g.IsNew(listen2, destination2)
    ensures sup.Contents() == map[Key(listen2, destination2) := g]
  {
    sup := new Supervisor();
    f := sup.SetupForward(listen1, destination1);
    g := sup.SetupForward(listen2, destination2);
    KeyCollision(listen1, destination1, listen2, destination2);
  }
}
