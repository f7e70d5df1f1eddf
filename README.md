# forward: a verified model of a TCP port forwarder's bookkeeping

`forward.ts` is a command-line TCP port forwarder for Node.js. It reads positional arguments
of the form `src[:dst]` and an optional `--host`/`-a` option. From them it builds the list of
(listen, destination) endpoint pairs, either by looking the host up in DNS or by walking the
machine's network interfaces. It starts one `PortForward` per pair. A `PortForward` is a
listening server that relays every accepted connection to the destination and tracks the
live connection sockets. The supervisor, `setupForward`, stores each forwarder in a `Map`
under the key `"<listen port>:<destination port>"`. When a forwarder emits `'close'`, the
supervisor re-creates it, unless a bind error switched respawning off. On SIGINT, `stop`
clears the map and is meant to close every forwarder.

The Dafny model covers all of this bookkeeping. Sockets are opaque identifiers, and every
event the runtime delivers is an explicit step method.

| file | module | models |
|---|---|---|
| `wrappers.dfy` | `Wrappers` | the `Option` type |
| `js_text.dfy` | `JsText` | `split(':')`, `trim()`, unary `+` on a string, and the rendering of a number in a template literal |
| `port_spec.dfy` | `PortSpecs` | the `flatMap`/`filter` chain that turns positional arguments into port pairs |
| `endpoints.dfy` | `Endpoints` | the two nested-loop branches that fill `inits`, and the usage exit |
| `ecma_map.dfy` | `EcmaMap` | a JavaScript `Map`, modelled as the ECMA-262 entry list (section 24.1): `delete` and `clear` leave empty entries, iterators skip them |
| `forwarder.dfy` | `Forwarding` | class `PortForward`: server state, the `#sockets` set, the emitted events, `close()` |
| `supervisor.dfy` | `Supervision` | `setupForward` with its `'error'` and `'close'` handlers, the start-up loop, and `stop` |
| `scenarios.dfy` | `Scenarios` | concrete event sequences that end in the states the handlers produce |

Four behaviours of the source are modelled as written:

- **Overloaded `'close'`.** A connection socket's close emits the same `'close'` event as the
  server's close, so the respawn handler also runs when a single connection ends.
- **Whole-map guard.** The close handler only tests whether the whole map is empty. It deletes
  the key whatever forwarder is currently stored there.
- **Live iterator in `stop`.** `stop` takes `forwards.values()` and then clears the map. The
  iterator therefore yields nothing, and no forwarder is closed.
- **Two bind codes.** Only `EADDRNOTAVAIL` and `EADDRINUSE` switch respawning off. Any other
  listener error, `EACCES` for a privileged port among them, is logged and the forwarder is set
  up again on every close (`Scenarios.OtherErrorRespawns`).

## Model

| member | source | states |
|---|---|---|
| `JsText.Split` | forward.ts:79 | `split(':')` returns at least one part, and no part contains a colon |
| `JsText.JoinSplit` | forward.ts:79 | joining the parts of `split(':')` with `:` gives back the original string, so no character is lost or reordered |
| `JsText.SplitNoColon` | forward.ts:79 | a string without a colon splits into the one-element list holding itself |
| `JsText.SplitAtColon` | forward.ts:79 | the colon-free text before the first colon is the first part, and the rest splits on its own |
| `JsText.TrimStart` | forward.ts:79 | the result is a suffix of the input, every removed character is ECMA-262 white space or a line terminator, and the result does not start with one |
| `JsText.TrimEnd` | forward.ts:79 | the result is a prefix of the input, every removed character is white space or a line terminator, and the result does not end with one |
| `JsText.TrimUntouched` | forward.ts:79 | a string that neither starts nor ends with white space is its own trim |
| `JsText.Trim` | forward.ts:79 | `trim()`: the result is no longer than the input, neither starts nor ends with white space or a line terminator, and is empty exactly when every character of the input is one |
| `JsText.TrimIdempotent` | forward.ts:79 | trimming a trimmed string changes nothing |
| `JsText.NatToString` | forward.ts:129 | the decimal rendering of a natural number is a non-empty digit string without a leading zero (unless the number is 0) |
| `JsText.DecimalOfNatToString` | forward.ts:129 | reading the digits of a rendered natural number gives back the number |
| `JsText.IntToString` | forward.ts:129 | the rendering of an integer in a template literal starts with `-` exactly when the integer is negative, and the rest is a non-empty digit string without a leading zero unless the integer is 0 |
| `JsText.ToNumber` | forward.ts:79 | unary `+` on a string: after trimming, the empty string is 0, a digit string is its decimal value, and `+` or `-` followed by digits is that value or its negation; only decimal integers are covered (see "## Left out") |
| `JsText.ToNumberOfTrimmed` | forward.ts:79 | unary `+` trims its operand itself, so `+p.trim()` equals `+p`; this is why `PortSpecs.ParseItem` may pass the untrimmed part |
| `JsText.ToNumberOfDigits` | forward.ts:79 | unary `+` of a non-empty digit string is its decimal value |
| `JsText.ToNumberOfNegated` | forward.ts:79 | unary `+` of `-` followed by digits is the negated decimal value |
| `JsText.ToNumberOfIntToString` | forward.ts:79 | unary `+` of a rendered integer gives back that integer (round trip) |
| `JsText.IntToStringNoColon` | forward.ts:129 | a rendered integer contains no colon, so a key splits into exactly its two port texts |
| `PortSpecs.ParseItem` | forward.ts:79-81 | an item that survives has a nonzero source and a nonzero target (0 and NaN are falsy) |
| `PortSpecs.Kept` | forward.ts:78-83 | what `flatMap` and `filter` keep of one argument: at most one pair, and a pair exactly when `ParseItem` gives it |
| `PortSpecs.ParsePorts` | forward.ts:77-83 | no more pairs than arguments, and every surviving pair has nonzero ports |
| `PortSpecs.ParseWithoutColon` | forward.ts:79-81 | an item without a colon has its target default to its source, and is dropped exactly when that number is falsy |
| `PortSpecs.ParseTwoParts` | forward.ts:79-81 | `a:b` becomes the pair of the two converted parts, and is dropped when either part is falsy |
| `PortSpecs.ParseIgnoresExtraParts` | forward.ts:79 | parts after the second are ignored: `a:b:rest` parses like `a:b` |
| `PortSpecs.ParseEmptyTargetDropped` | forward.ts:79-80 | an empty target (`a:`) converts to 0, so the item is dropped |
| `PortSpecs.ParseEmptyTargetExample` | forward.ts:79-80 | `"8080:"` is dropped |
| `PortSpecs.ParsePortsAppend` | forward.ts:77-83 | parsing distributes over concatenation of the argument list, so surviving pairs keep input order |
| `PortSpecs.ParsePortsMembers` | forward.ts:77-83 | a pair is in the result exactly when some argument parses to it |
| `Endpoints.Row` | forward.ts:98-102 | the pairs the inner loop pushes for one address: one per port spec |
| `Endpoints.RowAt` | forward.ts:98-102 | the inner loop pushes one pair per port spec, and pair `j` (built by `Pair`) listens on the address at `ports[j].source` and forwards to the target host at `ports[j].target` |
| `Endpoints.CrossLength` | forward.ts:97-103 | `Cross`, the list the nested loops build, has exactly (number of addresses) × (number of port specs) pairs |
| `Endpoints.CrossAt` | forward.ts:97-112 | with P port specs, pair number i·P + j of `Cross` is the `Pair` for address i and port spec j (address-major, port-minor order), and `Cross` has exactly as many pairs as address × port-spec combinations |
| `Endpoints.CandidateAddresses` | forward.ts:105-106 | at most one address per interface entry |
| `Endpoints.CandidateAddressesAppend` | forward.ts:105-106 | selecting candidate interfaces keeps the interface order |
| `Endpoints.CandidateAddressesMembers` | forward.ts:105-106 | an address is used exactly when some interface entry passes `IsCandidate` (defined and not internal) and has it |
| `Endpoints.FindLocal` | forward.ts:92-94 | `find` returns the first index whose interface passes `MatchesHost` (defined, not internal, with the host's address); when it returns none, no interface matches |
| `Endpoints.SourceAddresses` | forward.ts:90-97 | `HostMode` is the truthiness of `args.host`; with `--host`: every address of the host when it resolves to a non-internal local interface, otherwise every address of `localhost`; without it: the candidate interface addresses |
| `Endpoints.TargetHost` | forward.ts:95-96 | with `--host`: `localhost` when the host is local, otherwise the host; without it: `localhost` |
| `Endpoints.PushRow` | forward.ts:98-102 | the inner loop appends exactly the row of pairs for one address |
| `Endpoints.ExpandAddresses` | forward.ts:97-103 | the `--host` nested loops produce exactly the address-major/port-minor cross list |
| `Endpoints.ExpandForHost` | forward.ts:90-103 | the `--host` branch produces the cross list of the chosen listening addresses and target host |
| `Endpoints.ExpandForInterfaces` | forward.ts:104-113 | the default branch skips undefined and internal interfaces and produces the cross list over the remaining addresses with target `localhost` |
| `Endpoints.ExpandEndpoints` | forward.ts:89-113 | `inits` is the cross list of the source addresses and port specs, with the mode's target host |
| `Endpoints.Plan` | forward.ts:77-113 | the usage path with exit code 1 is taken exactly when no argument survives parsing; otherwise the pairs are the cross list |
| `EcmaMap.Find` | forward.ts:141 | the index found holds a live entry with the key; when none is found, no live entry has that key |
| `EcmaMap.Clear` | forward.ts:121 | `clear` keeps the list length and empties every entry |
| `EcmaMap.ToMapFind` | forward.ts:141 | a key is in the map exactly when it has a live entry, and the map holds that entry's value |
| `EcmaMap.UpdateAt` | forward.ts:152 | overwriting a live entry in place updates the map at that key |
| `EcmaMap.TombstoneAt` | forward.ts:141 | emptying a live entry removes its key from the map |
| `EcmaMap.SetSpec` | forward.ts:152 | `set` (`EcmaMap.Set`) keeps keys unique and updates the map at the key, whether the key was present or not |
| `EcmaMap.DeleteSpec` | forward.ts:141 | `delete` (`EcmaMap.Delete`) keeps keys unique and removes exactly that key |
| `EcmaMap.ClearSpec` | forward.ts:120-122 | after `clear` the map is empty, the size is 0, and an iterator walking the list yields nothing |
| `EcmaMap.SizeZero` | forward.ts:140 | `size` (`EcmaMap.Size`, the count of live entries) is 0 exactly when the map is empty |
| `EcmaMap.SizeIsCount` | forward.ts:140 | under unique keys, `size` is the number of keys |
| `EcmaMap.ValuesListed` | forward.ts:120 | every value of the map is yielded by `LiveValues`, an iterator that walks the whole list and skips emptied entries |
| `EcmaMap.LiveValuesMapped` | forward.ts:120 | every value such an iterator yields is a value of the map |
| `EcmaMap.LiveValuesCount` | forward.ts:120 | such an iterator yields one value per live entry |
| `EcmaMap.LiveValuesFrom` | forward.ts:120 | every value such an iterator yields comes from a live entry of the list |
| `Forwarding.Remove` | forward.ts:46 | `Set.delete` keeps exactly the other elements, keeps them distinct, and shrinks the set by one when the element was present and not at all otherwise |
| `Forwarding.AfterClose` | forward.ts:27 | `server.close()` on a binding or listening server starts closing it; on a closing or closed server it changes nothing (forward.ts:57) |
| `Forwarding.Forwarder.constructor` | forward.ts:16-37 | a new forwarder for the pair has its server binding, no sockets, no peers and `respawn` true (with forward.ts:128) |
| `Forwarding.Forwarder.ServerListening` | forward.ts:33-35 | a binding server becomes bound and `'listening'` is emitted |
| `Forwarding.Forwarder.Accept` | forward.ts:18-23 | emits `'connection'` with the remote, records the remote for the inbound socket, and adds both the inbound and the outbound socket: the set grows by exactly two |
| `Forwarding.Forwarder.SocketClose` | forward.ts:21 | removes exactly that socket; an inbound socket first emits `'disconnection'` with the remote captured on accept, and then `'close'` is emitted (forward.ts:45-48, 51-54) |
| `Forwarding.Forwarder.SocketError` | forward.ts:44 | emits `'error'` with the code; the socket set is not touched (forward.ts:50) |
| `Forwarding.Forwarder.ServerError` | forward.ts:26-29 | `close()` is applied to the server (`AfterClose`), so it is closing or closed, before `'error'` is emitted |
| `Forwarding.Forwarder.ServerClose` | forward.ts:30-32 | a closing server becomes closed and `'close'` is emitted |
| `Forwarding.Forwarder.Close` | forward.ts:56-63 | the server moves by `AfterClose`, so it is closing or closed afterwards, `end()` is called on every tracked socket in set order, and the set itself is left unchanged |
| `Supervision.KeyParses` | forward.ts:129 | a key (`Key`, the template literal `${listen.port}:${destination.port}`) splits into the two port texts, each converts back to its port, and with nonzero ports the key parses as the pair `listen:destination` |
| `Supervision.KeyCollision` | forward.ts:129 | two pairs get the same key exactly when both their ports agree; the addresses play no part |
| `Supervision.LastByKeySpec` | forward.ts:116 | after repeated `set`, a key is present exactly when some element has it, and it holds the last such element |
| `Supervision.AssignmentsLast` | forward.ts:116 | after the start-up loop, each key holds the last pair in `inits` with that key |
| `Supervision.AssignmentsStep` | forward.ts:116 | one more loop iteration overwrites the entry under the new pair's key |
| `Supervision.CloseAll` | forward.ts:122 | `close()` is called on every listed forwarder in order: each one's server moves by `AfterClose`, `ended[j]` is the list of sockets `end()` was called on for forwarder `j`, and sockets, peers and `respawn` are unchanged (forward.ts:56-63) |
| `Supervision.Supervisor.constructor` | forward.ts:115 | the new map is empty |
| `Supervision.Supervisor.SetupForward` | forward.ts:127-130 | a fresh forwarder with `respawn` true is stored under `"<listen port>:<destination port>"`, replacing any entry with that key (forward.ts:152) |
| `Supervision.Supervisor.Start` | forward.ts:115-116 | after start-up the keys are exactly the keys of `inits`, and each holds a fresh forwarder for the last pair with that key |
| `Supervision.Supervisor.OnError` | forward.ts:132-138 | a bind error (`IsBindError`: `EADDRNOTAVAIL` or `EADDRINUSE`, nothing else) clears `respawn` and is not logged; any other code is logged and leaves `respawn` as it was, so `respawn` never becomes true again |
| `Supervision.Supervisor.OnClose` | forward.ts:139-143 | with an empty map nothing changes; otherwise the key is deleted and, when `respawn` holds, a fresh forwarder for the same pair is stored under it; afterwards the key is present exactly when the map was non-empty and `respawn` held |
| `Supervision.Supervisor.ServerListening` | forward.ts:33-35 | the server becomes bound; the handler only logs (forward.ts:144-146) |
| `Supervision.Supervisor.Accept` | forward.ts:18-23 | the socket set grows by both sockets; the handler only logs (forward.ts:147-151) |
| `Supervision.Supervisor.SocketClose` | forward.ts:45-48 | the socket is removed, and its `'close'` runs the respawn handler exactly as a server close does (forward.ts:139-143) |
| `Supervision.Supervisor.SocketError` | forward.ts:44 | the socket set is untouched, and the error goes through the same bind-error test as a server error (forward.ts:132-138) |
| `Supervision.Supervisor.ServerError` | forward.ts:26-29 | `close()` is applied to the server (`AfterClose`), so it is closing or closed, and the error handler's rule for `respawn` and logging applies (forward.ts:132-138) |
| `Supervision.Supervisor.ServerClose` | forward.ts:30-32 | the server is closed and the respawn handler runs (forward.ts:139-143) |
| `Supervision.Supervisor.Stop` | forward.ts:118-124 | afterwards the map is empty and its size is 0, and the live iterator yields no forwarder, so `close()` is called on none |
| `Supervision.Supervisor.StopSnapshot` | forward.ts:118-124 | with the values copied before `clear`, `close()` is called on every forwarder the map held, once per key: each ends with its old state except that the server moved by `AfterClose`, and `ended` lists the sockets each call ended; the map is empty |
| `Scenarios.OverloadedCloseRespawns` | forward.ts:53 | the outbound socket of a serving forwarder closes: another forwarder takes over the key while the first, still bound, keeps the inbound socket |
| `Scenarios.StaleCloseReplacesNewer` | forward.ts:47 | the first forwarder's inbound socket then closes as well: `'disconnection'` and `'close'` are emitted, the key's newer forwarder is replaced by a third, and the second is left binding outside the map (forward.ts:140-142) |
| `Scenarios.BindErrorEndsRespawn` | forward.ts:133-135 | after an `EADDRINUSE` error nothing is logged, `respawn` is false, and the server's close leaves the map empty with nothing spawned (forward.ts:139-143) |
| `Scenarios.OtherErrorRespawns` | forward.ts:137 | any other error is logged, and the server's close stores a fresh forwarder for the same pair (forward.ts:139-143) |
| `Scenarios.CloseAfterStopIsIgnored` | forward.ts:140 | after `stop` the serving forwarder is not closed, and a later socket close spawns nothing and leaves the map empty (forward.ts:118-124) |
| `Scenarios.SnapshotStopCloses` | forward.ts:122 | with the values copied first, the one serving forwarder is closed: its server is closing, `end()` is called on both sockets `[1, 2]` of its connection, the sockets and `respawn` stay as they were, and the map is empty |
| `Scenarios.SameIdOverwrites` | forward.ts:129 | two pairs with the same ports but different addresses: the second `setupForward` replaces the first in the map (forward.ts:152) |

## Left out

- Port ranges: Node.js throws `ERR_SOCKET_BAD_PORT` at once for a port outside 0–65535, and the model keeps any nonzero integer, such as `-80` or `70000`. A bad listen port makes `listen` (forward.ts:36) throw inside `new PortForward` (forward.ts:130); this aborts `setupForward` before `forwards.set`, so the start-up loop and `main` stop before SIGINT is registered (forward.ts:116, 125). The model instead creates a binding forwarder. A bad destination port is only seen by `createConnection` (forward.ts:22), which runs in the connection callback: the forwarder is stored and listens, and the first accepted connection throws out of that callback before `#forward` runs, which ends the process. `Forwarding.Forwarder.Accept` instead tracks both sockets.
- Socket creation, binding, `pipe` relaying and half-close (forward.ts:18, 22, 36, 41-42) are network I/O. Sockets are natural-number identifiers, and relaying carries no state.
- Event dispatch is asynchronous in Node.js. Each event and the handler registered for it are one atomic step method, and the order of steps is chosen by the caller. The runtime's ordering guarantees appear only as preconditions: `'listening'` needs a binding server, and a server `'close'` needs a closing one. In Node.js a server's `'close'` arrives only after all its connections have ended; the model does not enforce that.
- DNS lookups and `OS.networkInterfaces()` (forward.ts:91, 92-93, 97, 105) are foreign calls. They are parameters: a lookup function, an all-addresses lookup function, and the flattened interface list with `undefined` entries as `None`. The lookups are total: a failed lookup (such as `ENOTFOUND` for an unknown `--host`), which rejects `main` before any forwarder exists, is not modelled.
- `Util.parseArgs` (forward.ts:68-76) is not modelled. The host option and the positional arguments are inputs.
- `JsText.Trim`: its own contract does not say that the result is a contiguous piece of the input; that follows from the contracts of `TrimStart` and `TrimEnd`, which it composes.
- `JsText.ToNumber`: its contract gives the value of the empty string and of optionally signed decimal digit strings; it does not state that every other string is NaN, though the body makes it so. Unary `+` covers only trimmed, optionally signed decimal integers, with the empty string as 0. Hexadecimal, binary and octal literals, fractions, exponents and `Infinity` become NaN here. Numbers are unbounded integers rather than IEEE doubles, so exponent notation in the rendering of very large ports is not modelled.
- Console output (forward.ts:85, 137, 145, 148-150) is reduced to the `logged` result of the error handler.
- `process.exit`, SIGINT registration and removal, the microtask exit and the entry-point guard (forward.ts:86, 119, 123, 125, 155) are not modelled.
- `Forwarding.Forwarder.Accept`: requires socket identifiers that are distinct and not yet tracked. This stands in for "each socket is a new object".
- `Forwarding.Forwarder.Close`: a further `'close'` that Node.js may emit after a second `server.close()` is not modelled.
- `Supervision.Supervisor.Stop`: the loop that calls `close()` on each value as the iterator yields it is written as two phases. First the iterator is drained, then `close()` is called on what it yielded. `close()` never touches the map, so both visit the same forwarders in the same order.
- `Supervision.Supervisor.OnClose`: requires that the forwarder's key was computed from its own pair. This holds for every forwarder `SetupForward` creates.
- `EcmaMap.Find`: returns the last live entry with the key, whereas ECMA-262 searches front to back. Under unique keys, which every map operation preserves, the two are the same entry.

## Findings

| source | as written | input that shows it | evidently intended | confidence | as-written member | corrected member |
|---|---|---|---|---|---|---|
| forward.ts:120-122 | `stop` takes the live iterator `forwards.values()`, calls `forwards.clear()`, then loops over the iterator. Cleared entries are skipped, so the loop body never runs and no forwarder is closed | SIGINT while any forwarder is in the map, e.g. after one `setupForward` (`Scenarios.CloseAfterStopIsIgnored`) | copy the values before clearing (`[...forwards.values()]`), so that `close()` is called on every forwarder | not executed | `Supervision.Supervisor.Stop` | `Supervision.Supervisor.StopSnapshot` |
