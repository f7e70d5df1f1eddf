/**
 * One `PortForward`: a listening server plus the set of live connection sockets, with every
 * event the Node.js runtime delivers to it written as an explicit step method. Each step
 * returns the events the forwarder emits, in emission order. Sockets are opaque identifiers;
 * the byte relaying (`pipe`) carries no state here.
 */
module Forwarding {
  import opened Endpoints

  type SocketId = nat

  /** The listening server: `listen()` called, bound, `close()` called, 'close' delivered. */
  datatype ServerState = Binding | Bound | Closing | Closed

  /** `close()` has been called on the server. */
  predicate ClosingOrClosed(s: ServerState) {
    s == Closing || s == Closed
  }

  /**
   * What `server.close()` does to the server state: a binding or listening server starts
   * closing; one that is already closing or closed is left as it is.
   */
  function AfterClose(s: ServerState): (r: ServerState)
    ensures ClosingOrClosed(r)
    ensures ClosingOrClosed(s) ==> r == s
    ensures !ClosingOrClosed(s) ==> r == Closing
  {
    if s == Binding || s == Bound then Closing else s
  }

  /** The events a `PortForward` emits. */
  datatype Event =
    | Listening
    | Connection(peer: Endpoint)
    | Disconnection(peer: Endpoint)
    | Error(code: string)
    | Close

  /** A snapshot of the mutable fields of a `Forwarder`. */
  datatype ForwarderState = ForwarderState(
    server: ServerState, sockets: seq<SocketId>, peers: map<SocketId, Endpoint>, respawn: bool)

  predicate NoDuplicates(xs: seq<SocketId>) {
    forall i, j | 0 <= i < j < |xs| :: xs[i] != xs[j]
  }

  /** `Set.prototype.delete` on an insertion-ordered set: drop `x`, keep the order of the rest. */
  function Remove(xs: seq<SocketId>, x: SocketId): (r: seq<SocketId>)
    ensures forall y :: y in r <==> y in xs && y != x
    ensures NoDuplicates(xs) ==> NoDuplicates(r)
    ensures NoDuplicates(xs) && x in xs ==> |r| == |xs| - 1
    ensures x !in xs ==> r == xs
  {
    if |xs| == 0 then []
    else if xs[0] == x then Remove(xs[1..], x)
    else
      var rest := Remove(xs[1..], x);
      assert NoDuplicates(xs) ==> xs[0] !in xs[1..] && NoDuplicates(xs[1..]) by {
        if NoDuplicates(xs) {
          forall i | 0 <= i < |xs[1..]| ensures xs[1..][i] != xs[0] { assert xs[1..][i] == xs[i + 1]; }
          forall i, j | 0 <= i < j < |xs[1..]| ensures xs[1..][i] != xs[1..][j] {
            assert xs[1..][i] == xs[i + 1] && xs[1..][j] == xs[j + 1];
          }
        }
      }
      assert x !in xs ==> xs == [xs[0]] + xs[1..];
      [xs[0]] + rest
  }

  class Forwarder {
    const listen: Endpoint
    const destination: Endpoint
    /** The map key `setupForward` computed for this forwarder (its `id`). */
    const id: string
    var server: ServerState
    /** `#sockets`, in insertion order (the iteration order of a JavaScript `Set`). */
    var sockets: seq<SocketId>
    /** The `remote` identity captured when each inbound socket was accepted. */
    var peers: map<SocketId, Endpoint>
    /** The `respawn` variable that `setupForward` keeps for this forwarder. */
    var respawn: bool

    /** The values of all mutable fields. */
    function State(): ForwarderState
      reads this
    {
      ForwarderState(server, sockets, peers, respawn)
    }

    /** The tracked sockets as a set. */
    function Tracked(): set<SocketId>
      reads this
    {
      set s | s in sockets
    }

    ghost predicate Valid()
      reads this
    {
      NoDuplicates(sockets) && peers.Keys <= Tracked()
    }

    /** The state right after construction for the given pair. */
    predicate IsNew(listen: Endpoint, destination: Endpoint)
      reads this
    {
      this.listen == listen && this.destination == destination
      && server == Binding && sockets == [] && peers == map[] && respawn
    }

    /**
     * `new PortForward(listen, destination)` inside `setupForward`: the server starts listening,
     * nothing is tracked, `respawn` is true.
     */
    constructor (listen: Endpoint, destination: Endpoint, id: string)
      ensures Valid() && IsNew(listen, destination) && this.id == id
    {
      this.listen := listen;
      this.destination := destination;
      this.id := id;
      server := Binding;
      sockets := [];
      peers := map[];
      respawn := true;
    }

    /** The server's 'listening' event is re-emitted. */
    method ServerListening() returns (events: seq<Event>)
      requires server == Binding
      modifies this`server
      ensures server == Bound
      ensures events == [Listening]
    {
      server := Bound;
      events := [Listening];
    }

    /**
     * An inbound connection: emit 'connection' with the peer, remember the peer for the later
     * 'disconnection', open the outbound socket and track both. Socket objects are distinct,
     * so the two identifiers differ and neither is tracked already.
     */
    method Accept(inbound: SocketId, outbound: SocketId, remote: Endpoint) returns (events: seq<Event>)
      requires Valid() && server == Bound
      requires inbound != outbound && inbound !in Tracked() && outbound !in Tracked()
      modifies this`sockets, this`peers
      ensures Valid()
      ensures sockets == old(sockets) + [inbound, outbound]
      ensures Tracked() == old(Tracked()) + {inbound, outbound}
      ensures |Tracked()| == |old(Tracked())| + 2
      ensures peers == old(peers)[inbound := remote]
      ensures events == [Connection(remote)]
    {
      events := [Connection(remote)];
      peers := peers[inbound := remote];
      sockets := sockets + [inbound, outbound];
      assert Tracked() == old(Tracked()) + {inbound, outbound};
    }

    /**
     * A tracked socket closes. An inbound socket first emits 'disconnection' with the identity
     * captured at accept time (its handler was registered first); then the socket leaves the set
     * and 'close' is emitted, the same event name the server's own close uses.
     */
    method SocketClose(s: SocketId) returns (events: seq<Event>)
      requires Valid() && s in Tracked()
      modifies this`sockets, this`peers
      ensures Valid()
      ensures sockets == Remove(old(sockets), s)
      ensures Tracked() == old(Tracked()) - {s}
      ensures |sockets| == |old(sockets)| - 1
      ensures peers == old(peers) - {s}
      ensures events == if s in old(peers) then [Disconnection(old(peers)[s]), Event.Close] else [Event.Close]
    {
      events := if s in peers then [Disconnection(peers[s]), Event.Close] else [Event.Close];
      sockets := Remove(sockets, s);
      peers := peers - {s};
    }

    /** A socket error is re-emitted; nothing is added to or removed from the set. */
    method SocketError(s: SocketId, code: string) returns (events: seq<Event>)
      requires s in Tracked()
      ensures events == [Error(code)]
    {
      events := [Error(code)];
    }

    /**
     * A server error first closes the server (a server that is already closing stays as it is),
     * then is re-emitted.
     */
    method ServerError(code: string) returns (events: seq<Event>)
      modifies this`server
      ensures server == AfterClose(old(server))
      ensures ClosingOrClosed(server)
      ensures events == [Error(code)]
    {
      if server == Binding || server == Bound {
        server := Closing;
      }
      events := [Error(code)];
    }

    /** The server's 'close' event is re-emitted. */
    method ServerClose() returns (events: seq<Event>)
      requires server == Closing
      modifies this`server
      ensures server == Closed
      ensures events == [Event.Close]
    {
      server := Closed;
      events := [Event.Close];
    }

    /**
     * `close()`: close the server, then call `end()` on every tracked socket in set order; an
     * exception from `end()` is swallowed and the loop goes on. Returns the sockets `end()` was
     * called on. The set itself is left to the sockets' own close events.
     */
    method Close() returns (ended: seq<SocketId>)
      modifies this`server
      ensures server == AfterClose(old(server))
      ensures ClosingOrClosed(server)
      ensures ended == sockets
    {
      if server == Binding || server == Bound {
        server := Closing;
      }
      ended := [];
      for i := 0 to |sockets|
        invariant ended == sockets[..i]
      {
        // end() is called on the socket; whatever it throws is ignored
        ended := ended + [sockets[i]];
      }
    }
  }
}
