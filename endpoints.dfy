/**
 * Endpoints and the expansion of the parsed port list into the ordered list of
 * (listen, destination) pairs that `main` hands to `setupForward`.
 * Name resolution and interface enumeration are inputs: `lookup` stands for
 * `DNS.promises.lookup(name)`, `lookupAll` for `DNS.promises.lookup(name, { all: true })`,
 * `interfaces` for `Object.values(OS.networkInterfaces()).flat()`.
 */
module Endpoints {
  import opened Wrappers
  import opened PortSpecs

  datatype Endpoint = Endpoint(address: string, port: int)

  /** One element of `inits`: where to listen and where to forward to. */
  datatype Init = Init(listen: Endpoint, destination: Endpoint)

  /** One entry of the flattened interface list (entries may be `undefined`). */
  datatype NetInterface = NetInterface(address: string, internal: bool)

  /** The pair pushed for one listen address and one port spec. */
  function Pair(address: string, spec: PortSpec, targetHost: string): Init {
    Init(Endpoint(address, spec.source), Endpoint(targetHost, spec.target))
  }

  /** The pairs the inner loop pushes for one listen address, port-list order. */
  function Row(address: string, ports: seq<PortSpec>, targetHost: string): (row: seq<Init>)
    ensures |row| == |ports|
  {
    if |ports| == 0 then []
    else Row(address, ports[..|ports| - 1], targetHost) + [Pair(address, ports[|ports| - 1], targetHost)]
  }

  /** The pairs both nested loops push: address-major, port-minor. */
  function Cross(addresses: seq<string>, ports: seq<PortSpec>, targetHost: string): seq<Init> {
    if |addresses| == 0 then []
    else Cross(addresses[..|addresses| - 1], ports, targetHost)
         + Row(addresses[|addresses| - 1], ports, targetHost)
  }

  lemma {:induction false} RowAt(address: string, ports: seq<PortSpec>, targetHost: string)
    ensures |Row(address, ports, targetHost)| == |ports|
    ensures forall j | 0 <= j < |ports| :: Row(address, ports, targetHost)[j] == Pair(address, ports[j], targetHost)
  {
    if |ports| > 0 {
      RowAt(address, ports[..|ports| - 1], targetHost);
    }
  }

  lemma {:induction false} CrossLength(addresses: seq<string>, ports: seq<PortSpec>, targetHost: string)
    ensures |Cross(addresses, ports, targetHost)| == |addresses| * |ports|
  {
    if |addresses| > 0 {
      var n := |addresses|;
      CrossLength(addresses[..n - 1], ports, targetHost);
      RowAt(addresses[n - 1], ports, targetHost);
      MulSucc(n - 1, |ports|);
    }
  }

  /**
   * Exactly one pair per (address, port spec), address-major and port-minor: pair number
   * `i * |ports| + j` listens on `addresses[i]` at the source port of `ports[j]` and forwards to
   * `targetHost` at its target port.
   */
  lemma {:induction false} CrossAt(addresses: seq<string>, ports: seq<PortSpec>, targetHost: string, i: nat, j: nat)
    requires i < |addresses| && j < |ports|
    ensures |Cross(addresses, ports, targetHost)| == |addresses| * |ports|
    ensures i * |ports| + j < |Cross(addresses, ports, targetHost)|
    ensures Cross(addresses, ports, targetHost)[i * |ports| + j] == Pair(addresses[i], ports[j], targetHost)
  {
    var n, p := |addresses|, |ports|;
    var prefix := addresses[..n - 1];
    CrossLength(addresses, ports, targetHost);
    CrossLength(prefix, ports, targetHost);
    RowAt(addresses[n - 1], ports, targetHost);
    if i < n - 1 {
      assert i * p + j < (i + 1) * p;
      assert (i + 1) * p <= (n - 1) * p by { MulMonotone(i + 1, n - 1, p); }
      CrossAt(prefix, ports, targetHost, i, j);
      assert prefix[i] == addresses[i];
    } else {
      assert i * p + j - (n - 1) * p == j;
    }
  }

  lemma MulSucc(m: nat, p: nat)
    ensures m * p + p == (m + 1) * p
  {
  }

  lemma MulMonotone(a: nat, b: nat, p: nat)
    requires a <= b
    ensures a * p <= b * p
  {
  }

  lemma CrossSnoc(addresses: seq<string>, a: string, ports: seq<PortSpec>, targetHost: string)
    ensures Cross(addresses + [a], ports, targetHost) == Cross(addresses, ports, targetHost) + Row(a, ports, targetHost)
  {
    assert (addresses + [a])[..|addresses|] == addresses;
  }

  lemma RowSnoc(address: string, ports: seq<PortSpec>, j: nat, targetHost: string)
    requires j < |ports|
    ensures Row(address, ports[..j + 1], targetHost) == Row(address, ports[..j], targetHost) + [Pair(address, ports[j], targetHost)]
  {
    assert ports[..j + 1][..j] == ports[..j];
  }

  // ---------------------------------------------------------------- mode without --host

  /** The interfaces the loop does not skip: defined and not internal. */
  predicate IsCandidate(iface: Option<NetInterface>) {
    iface.Some? && !iface.value.internal
  }

  /** The addresses of the candidate interfaces, in interface order. */
  function CandidateAddresses(interfaces: seq<Option<NetInterface>>): (addresses: seq<string>)
    ensures |addresses| <= |interfaces|
  {
    if |interfaces| == 0 then []
    else
      var last := interfaces[|interfaces| - 1];
      CandidateAddresses(interfaces[..|interfaces| - 1]) + (if IsCandidate(last) then [last.value.address] else [])
  }

  /** Candidate selection keeps the interface order. */
  lemma {:induction false} CandidateAddressesAppend(xs: seq<Option<NetInterface>>, ys: seq<Option<NetInterface>>)
    ensures CandidateAddresses(xs + ys) == CandidateAddresses(xs) + CandidateAddresses(ys)
  {
    if |ys| == 0 {
      assert xs + ys == xs;
    } else {
      var n := |ys|;
      assert (xs + ys)[..|xs + ys| - 1] == xs + ys[..n - 1];
      assert (xs + ys)[|xs + ys| - 1] == ys[n - 1];
      CandidateAddressesAppend(xs, ys[..n - 1]);
    }
  }

  /** An address is listed exactly when some candidate interface has it. */
  lemma {:induction false} CandidateAddressesMembers(interfaces: seq<Option<NetInterface>>, a: string)
    ensures a in CandidateAddresses(interfaces) <==>
      exists k | 0 <= k < |interfaces| :: IsCandidate(interfaces[k]) && interfaces[k].value.address == a
  {
    if |interfaces| > 0 {
      var n := |interfaces|;
      var prefix := interfaces[..n - 1];
      CandidateAddressesMembers(prefix, a);
      if a in CandidateAddresses(prefix) {
        var k :| 0 <= k < |prefix| && IsCandidate(prefix[k]) && prefix[k].value.address == a;
        assert interfaces[k] == prefix[k];
      }
      if exists k | 0 <= k < n :: IsCandidate(interfaces[k]) && interfaces[k].value.address == a {
        var k :| 0 <= k < n && IsCandidate(interfaces[k]) && interfaces[k].value.address == a;
        if k < n - 1 { assert prefix[k] == interfaces[k]; }
      }
    }
  }

  // ---------------------------------------------------------------- mode with --host

  /**
   * The test `find` applies to each interface entry: the entry is defined, not internal, and
   * has the host's address. An undefined entry fails the address comparison.
   */
  predicate MatchesHost(iface: Option<NetInterface>, hostAddress: string) {
    iface.Some? && !iface.value.internal && iface.value.address == hostAddress
  }

  /** `Array.prototype.find` over the interfaces: the index of the first match. */
  function FindLocal(interfaces: seq<Option<NetInterface>>, hostAddress: string, from: nat := 0): (r: Option<nat>)
    requires from <= |interfaces|
    decreases |interfaces| - from
    ensures r.Some? ==> (from <= r.value < |interfaces| && MatchesHost(interfaces[r.value], hostAddress)
                         && forall k | from <= k < r.value :: !MatchesHost(interfaces[k], hostAddress))
    ensures r.None? ==> forall k | from <= k < |interfaces| :: !MatchesHost(interfaces[k], hostAddress)
  {
    if from == |interfaces| then None
    else if MatchesHost(interfaces[from], hostAddress) then Some(from)
    else FindLocal(interfaces, hostAddress, from + 1)
  }

  /** `if (args.host)`: the option is given and is not the empty string. */
  predicate HostMode(host: Option<string>) {
    host.Some? && host.value != ""
  }

  /** The host resolves to an address of a non-internal local interface. */
  predicate IsLocalHost(host: string, interfaces: seq<Option<NetInterface>>, lookup: string -> string) {
    exists k | 0 <= k < |interfaces| :: MatchesHost(interfaces[k], lookup(host))
  }

  /** The addresses the outer loop listens on, for both modes. */
  function SourceAddresses(host: Option<string>, interfaces: seq<Option<NetInterface>>,
                           lookup: string -> string, lookupAll: string -> seq<string>): (addresses: seq<string>)
    ensures HostMode(host) && IsLocalHost(host.value, interfaces, lookup) ==> addresses == lookupAll(host.value)
    ensures HostMode(host) && !IsLocalHost(host.value, interfaces, lookup) ==> addresses == lookupAll("localhost")
    ensures !HostMode(host) ==> addresses == CandidateAddresses(interfaces)
  {
    if HostMode(host) then
      (if FindLocal(interfaces, lookup(host.value)).Some? then lookupAll(host.value) else lookupAll("localhost"))
    else CandidateAddresses(interfaces)
  }

  /** The destination host of every pair, for both modes. */
  function TargetHost(host: Option<string>, interfaces: seq<Option<NetInterface>>, lookup: string -> string): (target: string)
    ensures HostMode(host) && IsLocalHost(host.value, interfaces, lookup) ==> target == "localhost"
    ensures HostMode(host) && !IsLocalHost(host.value, interfaces, lookup) ==> target == host.value
    ensures !HostMode(host) ==> target == "localhost"
  {
    if HostMode(host) && FindLocal(interfaces, lookup(host.value)).Some? then "localhost"
    else if HostMode(host) then host.value
    else "localhost"
  }

  lemma CandidateSnoc(interfaces: seq<Option<NetInterface>>, i: nat)
    requires i < |interfaces|
    ensures CandidateAddresses(interfaces[..i + 1]) == CandidateAddresses(interfaces[..i])
              + (if IsCandidate(interfaces[i]) then [interfaces[i].value.address] else [])
  {
    assert interfaces[..i + 1][..i] == interfaces[..i];
  }

  /** The inner loop shared by both branches: push one pair per port spec for one listen address. */
  method PushRow(inits: seq<Init>, address: string, ports: seq<PortSpec>, targetHost: string)
    returns (inits': seq<Init>)
    ensures inits' == inits + Row(address, ports, targetHost)
  {
    inits' := inits;
    for j := 0 to |ports|
      invariant inits' == inits + Row(address, ports[..j], targetHost)
    {
      RowSnoc(address, ports, j, targetHost);
      inits' := inits' + [Pair(address, ports[j], targetHost)];
    }
    assert ports[..|ports|] == ports;
  }

  /** The nested loops of the `--host` branch: one row of pairs per resolved address. */
  method ExpandAddresses(addresses: seq<string>, ports: seq<PortSpec>, targetHost: string)
    returns (inits: seq<Init>)
    ensures inits == Cross(addresses, ports, targetHost)
  {
    inits := [];
    for i := 0 to |addresses|
      invariant inits == Cross(addresses[..i], ports, targetHost)
    {
      inits := PushRow(inits, addresses[i], ports, targetHost);
      CrossSnoc(addresses[..i], addresses[i], ports, targetHost);
      assert addresses[..i] + [addresses[i]] == addresses[..i + 1];
    }
    assert addresses[..|addresses|] == addresses;
  }

  /** The `--host` branch of `main`: choose the listening side, then loop over its addresses. */
  method ExpandForHost(host: string, interfaces: seq<Option<NetInterface>>,
                       lookup: string -> string, lookupAll: string -> seq<string>,
                       ports: seq<PortSpec>) returns (inits: seq<Init>)
    requires host != ""
    ensures inits == Cross(SourceAddresses(Some(host), interfaces, lookup, lookupAll), ports,
                            TargetHost(Some(host), interfaces, lookup))
  {
    var hostAddress := lookup(host);
    var local := FindLocal(interfaces, hostAddress);
    var sourceHost := if local.Some? then host else "localhost";
    var targetHost := if local.Some? then "localhost" else host;
    inits := ExpandAddresses(lookupAll(sourceHost), ports, targetHost);
  }

  /** The branch of `main` without `--host`: every non-internal interface address. */
  method ExpandForInterfaces(interfaces: seq<Option<NetInterface>>, ports: seq<PortSpec>)
    returns (inits: seq<Init>)
    ensures inits == Cross(CandidateAddresses(interfaces), ports, "localhost")
  {
    inits := [];
    for i := 0 to |interfaces|
      invariant inits == Cross(CandidateAddresses(interfaces[..i]), ports, "localhost")
    {
      var addr := interfaces[i];
      CandidateSnoc(interfaces, i);
      if addr.None? || addr.value.internal {
        assert CandidateAddresses(interfaces[..i + 1]) == CandidateAddresses(interfaces[..i]);
        continue;
      }
      inits := PushRow(inits, addr.value.address, ports, "localhost");
      CrossSnoc(CandidateAddresses(interfaces[..i]), addr.value.address, ports, "localhost");
    }
    assert interfaces[..|interfaces|] == interfaces;
  }

  /** The two branches of `main` that fill `inits`. */
  method ExpandEndpoints(host: Option<string>, interfaces: seq<Option<NetInterface>>,
                         lookup: string -> string, lookupAll: string -> seq<string>,
                         ports: seq<PortSpec>) returns (inits: seq<Init>)
    ensures inits == Cross(SourceAddresses(host, interfaces, lookup, lookupAll), ports,
                            TargetHost(host, interfaces, lookup))
  {
    if HostMode(host) {
      inits := ExpandForHost(host.value, interfaces, lookup, lookupAll, ports);
    } else {
      inits := ExpandForInterfaces(interfaces, ports);
    }
  }

  /** What `main` does before it creates any forwarder: usage and exit code 1, or the pairs. */
  datatype Startup = Usage(exitCode: int) | Forward(inits: seq<Init>)

  method Plan(items: seq<string>, host: Option<string>, interfaces: seq<Option<NetInterface>>,
              lookup: string -> string, lookupAll: string -> seq<string>) returns (outcome: Startup)
    ensures outcome.Usage? <==> ParsePorts(items) == []
    ensures outcome.Usage? ==> outcome.exitCode == 1
    ensures outcome.Forward? ==>
              outcome.inits == Cross(SourceAddresses(host, interfaces, lookup, lookupAll), ParsePorts(items),
                                     TargetHost(host, interfaces, lookup))
  {
    var ports := ParsePorts(items);
    if |ports| == 0 {
      return Usage(1);
    }
    var inits := ExpandEndpoints(host, interfaces, lookup, lookupAll, ports);
    return Forward(inits);
  }
}
