/**
 * `setupForward`, its four event handlers, and the `stop` closure of `main`: a supervisor that
 * keeps a JavaScript `Map` from key to forwarder and re-creates a forwarder when it closes.
 * Each step method is one event delivered to one forwarder followed, synchronously, by the
 * handler `setupForward` registered for it.
 */
module Supervision {
  import opened Wrappers
  import opened JsText
  import opened PortSpecs
  import opened Endpoints
  import opened Forwarding
  import EcmaMap

  /** The error codes of a failed bind; they end respawning and are not logged. */
  const BindErrorCodes: seq<string> := ["EADDRNOTAVAIL", "EADDRINUSE"]

  predicate IsBindError(code: string) {
    code in BindErrorCodes
  }

  /** `${listen.port}:${destination.port}`: the map key; the addresses play no part in it. */
  function Key(listen: Endpoint, destination: Endpoint): string {
    IntToString(listen.port) + ":" + IntToString(destination.port)
  }

  function KeyOf(init: Init): string {
    Key(init.listen, init.destination)
  }

  /** A key has the same `src:dst` shape as a positional argument and parses back to its ports. */
  lemma KeyParses(listen: Endpoint, destination: Endpoint)
    ensures Split(Key(listen, destination)) == [IntToString(listen.port), IntToString(destination.port)]
    ensures ToNumber(IntToString(listen.port)) == Num(listen.port)
    ensures ToNumber(IntToString(destination.port)) == Num(destination.port)
    ensures listen.port != 0 && destination.port != 0 ==>
              ParseItem(Key(listen, destination)) == Some(PortSpec(listen.port, destination.port))
  {
    var a, b := IntToString(listen.port), IntToString(destination.port);
    IntToStringNoColon(listen.port);
    IntToStringNoColon(destination.port);
    SplitAtColon(a, b);
    SplitNoColon(b);
    ToNumberOfIntToString(listen.port);
    ToNumberOfIntToString(destination.port);
    ParseTwoParts(a, b);
  }

  /** Two pairs share a key exactly when both their ports agree, whatever their addresses. */
  lemma KeyCollision(listen1: Endpoint, destination1: Endpoint, listen2: Endpoint, destination2: Endpoint)
    ensures Key(listen1, destination1) == Key(listen2, destination2) <==>
              listen1.port == listen2.port && destination1.port == destination2.port
  {
    KeyParses(listen1, destination1);
    KeyParses(listen2, destination2);
    if Key(listen1, destination1) == Key(listen2, destination2) {
      assert IntToString(listen1.port) == IntToString(listen2.port);
      assert IntToString(destination1.port) == IntToString(destination2.port);
    }
  }

  /** Which pair each key ends up with after `setupForward` has run for every element of `inits`. */
  function Assignments(inits: seq<Init>): map<string, Init> {
    LastByKey(inits, KeyOf)
  }

  /** Each key of `xs` mapped to the last element with that key. */
  function LastByKey<T>(xs: seq<T>, key: T -> string): map<string, T> {
    if |xs| == 0 then map[]
    else LastByKey(xs[..|xs| - 1], key)[key(xs[|xs| - 1]) := xs[|xs| - 1]]
  }

  /** Every key of `xs` is present, and holds the last element with that key. */
  lemma {:induction false} LastByKeySpec<T>(xs: seq<T>, key: T -> string, k: string)
    ensures k in LastByKey(xs, key) <==> exists i | 0 <= i < |xs| :: key(xs[i]) == k
    ensures k in LastByKey(xs, key) ==>
              exists i | 0 <= i < |xs| :: xs[i] == LastByKey(xs, key)[k] && key(xs[i]) == k
                && forall j | i < j < |xs| :: key(xs[j]) != k
  {
    if |xs| > 0 {
      var n := |xs| - 1;
      var prefix := xs[..n];
      LastByKeySpec(prefix, key, k);
      if key(xs[n]) != k {
        if k in LastByKey(prefix, key) {
          var i :| 0 <= i < |prefix| && prefix[i] == LastByKey(prefix, key)[k] && key(prefix[i]) == k
                   && forall j | i < j < |prefix| :: key(prefix[j]) != k;
          assert xs[i] == prefix[i];
          forall j | i < j < |xs| ensures key(xs[j]) != k {
            if j < n { assert xs[j] == prefix[j]; }
          }
        }
        if exists i | 0 <= i < |xs| :: key(xs[i]) == k {
          var i :| 0 <= i < |xs| && key(xs[i]) == k;
          assert prefix[i] == xs[i];
        }
      }
    }
  }

  /** After start-up every key of `inits` is present, holding the last pair with that key. */
  lemma AssignmentsLast(inits: seq<Init>, k: string)
    ensures k in Assignments(inits) <==> exists i | 0 <= i < |inits| :: KeyOf(inits[i]) == k
    ensures k in Assignments(inits) ==>
              exists i | 0 <= i < |inits| :: inits[i] == Assignments(inits)[k] && KeyOf(inits[i]) == k
                && forall j | i < j < |inits| :: KeyOf(inits[j]) != k
  {
    LastByKeySpec(inits, KeyOf, k);
  }

  lemma AssignmentsStep(inits: seq<Init>, i: nat)
    requires i < |inits|
    ensures Assignments(inits[..i + 1]) == Assignments(inits[..i])[KeyOf(inits[i]) := inits[i]]
  {
    assert inits[..i + 1][..i] == inits[..i];
  }

  /**
   * `close()` on each listed forwarder in turn. A forwarder may be listed twice: closing a
   * second time changes nothing. `ended[j]` is the list of sockets `end()` was called on by
   * the `j`-th call; nothing but the servers changes.
   */
  method CloseAll(fwds: seq<Forwarder>) returns (closed: seq<Forwarder>, ended: seq<seq<SocketId>>)
    modifies set f | f in fwds
    ensures closed == fwds && |ended| == |fwds|
    ensures forall j | 0 <= j < |fwds| :: fwds[j].server == AfterClose(old(fwds[j].server))
    ensures forall j | 0 <= j < |fwds| :: ended[j] == fwds[j].sockets
    ensures forall j | 0 <= j < |fwds| ::
              fwds[j].sockets == old(fwds[j].sockets) && fwds[j].peers == old(fwds[j].peers)
              && fwds[j].respawn == old(fwds[j].respawn)
  {
    closed := [];
    ended := [];
    for i := 0 to |fwds|
      invariant closed == fwds[..i] && |ended| == i
      invariant forall j | 0 <= j < i :: ended[j] == fwds[j].sockets
      invariant forall j | 0 <= j < |fwds| ::
                  fwds[j].sockets == old(fwds[j].sockets) && fwds[j].peers == old(fwds[j].peers)
                  && fwds[j].respawn == old(fwds[j].respawn)
      invariant forall j | 0 <= j < |fwds| ::
                  fwds[j].server == if fwds[j] in closed then AfterClose(old(fwds[j].server)) else old(fwds[j].server)
    {
      var sockets := fwds[i].Close();
      closed := closed + [fwds[i]];
      ended := ended + [sockets];
    }
  }

  class Supervisor {
    /** The `forwards` Map, as its entry list. */
    var forwards: EcmaMap.Entries<string, Forwarder>

    /** The key/value view of `forwards`. */
    function Contents(): map<string, Forwarder>
      reads this
    {
      EcmaMap.ToMap(forwards)
    }

    ghost predicate Valid()
      reads this
    {
      EcmaMap.Unique(forwards)
      && forall k | k in Contents() :: Contents()[k].id == k
    }

    /** `new Map<string, PortForward>()`. */
    constructor ()
      ensures Valid() && Contents() == map[]
    {
      forwards := [];
    }

    /**
     * `setupForward(forwards, listen, destination)`: a new forwarder with `respawn` true, stored
     * under its key, replacing whatever was stored there.
     */
    method SetupForward(listen: Endpoint, destination: Endpoint) returns (f: Forwarder)
      requires Valid()
      modifies this
      ensures Valid() && fresh(f) && f.Valid() && f.IsNew(listen, destination)
      ensures f.id == Key(listen, destination)
      ensures Contents() == old(Contents())[Key(listen, destination) := f]
    {
      var id := Key(listen, destination);
      f := new Forwarder(listen, destination, id);
      EcmaMap.SetSpec(forwards, id, f);
      ghost var before := Contents();
      forwards := EcmaMap.Set(forwards, id, f);
      assert Contents() == before[id := f];
      forall k | k in Contents()
        ensures Contents()[k].id == k
      {
        if k != id {
          assert Contents()[k] == before[k];
        }
      }
    }

    /** The start-up loop: `setupForward` for every pair of `inits`, in list order. */
    method Start(inits: seq<Init>)
      requires Valid() && Contents() == map[]
      modifies this
      ensures Valid() && Contents().Keys == Assignments(inits).Keys
      ensures forall k | k in Contents() ::
                fresh(Contents()[k])
                && Contents()[k].IsNew(Assignments(inits)[k].listen, Assignments(inits)[k].destination)
    {
      for i := 0 to |inits|
        invariant Valid() && Contents().Keys == Assignments(inits[..i]).Keys
        invariant forall k | k in Contents() ::
                    fresh(Contents()[k])
                    && Contents()[k].IsNew(Assignments(inits[..i])[k].listen, Assignments(inits[..i])[k].destination)
      {
        ghost var previous := Assignments(inits[..i]);
        ghost var before := Contents();
        forall k | k in before ensures allocated(before[k]) {
          EcmaMap.ToMapFind(forwards, k);
        }
        var f := SetupForward(inits[i].listen, inits[i].destination);
        AssignmentsStep(inits, i);
        ghost var expected := Assignments(inits[..i + 1]);
        assert expected == previous[KeyOf(inits[i]) := inits[i]];
        assert Contents() == before[KeyOf(inits[i]) := f];
        forall k | k in Contents()
          ensures fresh(Contents()[k])
                  && Contents()[k].IsNew(expected[k].listen, expected[k].destination)
        {
          if k == KeyOf(inits[i]) {
            assert Contents()[k] == f && expected[k] == inits[i];
          } else {
            assert Contents()[k] == before[k] && expected[k] == previous[k];
          }
        }
      }
      assert inits[..|inits|] == inits;
    }

    /** The 'error' handler: a bind error clears `respawn` and is not logged; others are logged. */
    method OnError(f: Forwarder, code: string) returns (logged: bool)
      modifies f`respawn
      ensures f.respawn == (old(f.respawn) && !IsBindError(code))
      ensures logged == !IsBindError(code)
    {
      if IsBindError(code) {
        f.respawn := false;
        return false;
      }
      return true;
    }

    /**
     * The 'close' handler: nothing when the whole map is empty; otherwise delete this forwarder's
     * key (whatever is stored under it) and, while `respawn` holds, set up a fresh forwarder for
     * the same pair.
     */
    method OnClose(f: Forwarder) returns (spawned: Forwarder?)
      requires Valid() && f.id == Key(f.listen, f.destination)
      modifies this
      ensures Valid()
      ensures old(Contents()) == map[] ==> spawned == null && forwards == old(forwards)
      ensures old(Contents()) != map[] && !f.respawn ==>
                spawned == null && Contents() == old(Contents()) - {f.id}
      ensures old(Contents()) != map[] && f.respawn ==>
                spawned != null && fresh(spawned) && spawned.Valid() && spawned.IsNew(f.listen, f.destination)
                && spawned.id == f.id && Contents() == old(Contents())[f.id := spawned]
      ensures f.id in Contents() <==> old(Contents()) != map[] && f.respawn
    {
      EcmaMap.SizeZero(forwards);
      if EcmaMap.Size(forwards) == 0 {
        return null;
      }
      var id := f.id;
      EcmaMap.DeleteSpec(forwards, id);
      forwards := EcmaMap.Delete(forwards, id);
      forall k | k in Contents()
        ensures Contents()[k] == old(Contents())[k]
      {
      }
      if f.respawn {
        spawned := SetupForward(f.listen, f.destination);
        assert Contents() == old(Contents())[id := spawned];
      } else {
        spawned := null;
      }
    }

    /** The server of `f` is listening; the handler only logs. */
    method ServerListening(f: Forwarder) returns (events: seq<Event>)
      requires f.server == Binding
      modifies f`server
      ensures f.server == Bound && events == [Listening]
    {
      events := f.ServerListening();
    }

    /** `f` accepts a connection; the handler only logs. */
    method Accept(f: Forwarder, inbound: SocketId, outbound: SocketId, remote: Endpoint) returns (events: seq<Event>)
      requires f.Valid() && f.server == Bound
      requires inbound != outbound && inbound !in f.Tracked() && outbound !in f.Tracked()
      modifies f`sockets, f`peers
      ensures f.Valid() && f.sockets == old(f.sockets) + [inbound, outbound]
      ensures f.peers == old(f.peers)[inbound := remote]
      ensures events == [Connection(remote)]
    {
      events := f.Accept(inbound, outbound, remote);
    }

    /**
     * A connection socket of `f` closes. Its 'close' event reaches the same handler as the
     * server's close, so the map is edited exactly as on a listener close.
     */
    method SocketClose(f: Forwarder, s: SocketId) returns (events: seq<Event>, spawned: Forwarder?)
      requires Valid() && f.Valid() && s in f.Tracked() && f.id == Key(f.listen, f.destination)
      modifies this, f`sockets, f`peers
      ensures Valid() && f.Valid()
      ensures f.sockets == Remove(old(f.sockets), s) && f.peers == old(f.peers) - {s}
      ensures events == if s in old(f.peers) then [Disconnection(old(f.peers)[s]), Event.Close] else [Event.Close]
      ensures old(Contents()) == map[] ==> spawned == null && forwards == old(forwards)
      ensures old(Contents()) != map[] && !f.respawn ==>
                spawned == null && Contents() == old(Contents()) - {f.id}
      ensures old(Contents()) != map[] && f.respawn ==>
                spawned != null && fresh(spawned) && spawned.Valid() && spawned.IsNew(f.listen, f.destination)
                && spawned.id == f.id && Contents() == old(Contents())[f.id := spawned]
      ensures f.id in Contents() <==> old(Contents()) != map[] && f.respawn
    {
      events := f.SocketClose(s);
      spawned := OnClose(f);
    }

    /** A connection socket of `f` reports an error; the set of sockets is untouched. */
    method SocketError(f: Forwarder, s: SocketId, code: string) returns (events: seq<Event>, logged: bool)
      requires s in f.Tracked()
      modifies f`respawn
      ensures events == [Error(code)]
      ensures f.respawn == (old(f.respawn) && !IsBindError(code)) && logged == !IsBindError(code)
    {
      events := f.SocketError(s, code);
      logged := OnError(f, code);
    }

    /** The server of `f` reports an error: it is closed first, then the handler runs. */
    method ServerError(f: Forwarder, code: string) returns (events: seq<Event>, logged: bool)
      modifies f`server, f`respawn
      ensures f.server == AfterClose(old(f.server))
      ensures events == [Error(code)]
      ensures f.respawn == (old(f.respawn) && !IsBindError(code)) && logged == !IsBindError(code)
    {
      events := f.ServerError(code);
      logged := OnError(f, code);
    }

    /** The server of `f` has closed. */
    method ServerClose(f: Forwarder) returns (events: seq<Event>, spawned: Forwarder?)
      requires Valid() && f.server == Closing && f.id == Key(f.listen, f.destination)
      modifies this, f`server
      ensures Valid() && f.server == Closed && events == [Event.Close]
      ensures old(Contents()) == map[] ==> spawned == null && forwards == old(forwards)
      ensures old(Contents()) != map[] && !f.respawn ==>
                spawned == null && Contents() == old(Contents()) - {f.id}
      ensures old(Contents()) != map[] && f.respawn ==>
                spawned != null && fresh(spawned) && spawned.Valid() && spawned.IsNew(f.listen, f.destination)
                && spawned.id == f.id && Contents() == old(Contents())[f.id := spawned]
      ensures f.id in Contents() <==> old(Contents()) != map[] && f.respawn
    {
      events := f.ServerClose();
      spawned := OnClose(f);
    }

    /**
     * `stop`: take the live iterator `forwards.values()`, clear the map, then call `close()` on
     * every forwarder the iterator yields; `closed` lists them. The iterator is a cursor into the
     * entry list that skips emptied entries, so after `clear` it yields none. `close()` does not
     * touch the map, so draining the iterator first and then closing what it yielded visits the
     * same forwarders in the same order as the interleaved loop.
     */
    method Stop() returns (closed: seq<Forwarder>)
      requires Valid()
      modifies this
      ensures Valid() && Contents() == map[] && EcmaMap.Size(forwards) == 0
      ensures closed == []
    {
      var cursor := 0;
      EcmaMap.ClearSpec(forwards);
      forwards := EcmaMap.Clear(forwards);
      var yielded := [];
      while cursor < |forwards|
        invariant cursor <= |forwards|
        invariant yielded == EcmaMap.LiveValues(forwards[..cursor])
      {
        assert forwards[..cursor + 1][..cursor] == forwards[..cursor];
        match forwards[cursor] {
          case Some(entry) =>
            yielded := yielded + [entry.value];
          case None =>
        }
        cursor := cursor + 1;
      }
      assert forwards[..cursor] == forwards;
      var ended;
      closed, ended := CloseAll(yielded);
    }

    /** The set of forwarders the map holds. */
    function Forwarders(): set<Forwarder>
      reads this
    {
      Contents().Values
    }

    /** The state of each stored forwarder, by key. */
    function States(): map<string, ForwarderState>
      reads this, Forwarders()
    {
      map k | k in Contents() :: Contents()[k].State()
    }

    /**
     * `stop` with the values copied before the map is cleared (`[...forwards.values()]`):
     * every forwarder the map held has `close()` called, in map order; `ended` lists, per
     * call, the sockets `end()` was called on.
     */
    method StopSnapshot() returns (closed: seq<Forwarder>, ended: seq<seq<SocketId>>)
      requires Valid()
      modifies this, Forwarders()
      ensures Valid() && Contents() == map[] && EcmaMap.Size(forwards) == 0
      ensures closed == old(EcmaMap.LiveValues(forwards)) && |closed| == |old(Contents())|
      ensures |ended| == |closed| && forall j | 0 <= j < |closed| :: ended[j] == closed[j].sockets
      ensures forall k | k in old(Contents()) :: old(Contents())[k] in closed
      ensures forall k | k in old(Contents()) :: ClosingOrClosed(old(Contents())[k].server)
      ensures forall k | k in old(Contents()) ::
                old(Contents())[k].State() == old(States())[k].(server := AfterClose(old(States())[k].server))
    {
      var snapshot := EcmaMap.LiveValues(forwards);
      EcmaMap.ValuesExact(forwards);
      EcmaMap.ClearSpec(forwards);
      forwards := EcmaMap.Clear(forwards);
      closed, ended := CloseAll(snapshot);
      forall k | k in old(Contents())
        ensures old(Contents())[k].State() == old(States())[k].(server := AfterClose(old(States())[k].server))
      {
        var j :| 0 <= j < |snapshot| && snapshot[j] == old(Contents())[k];
      }
    }
  }
}
