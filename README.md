# grpc-p2p peer store, service, discovery and exchange — a Dafny model

This project models the core of grpc-p2p, a small peer-to-peer membership layer
over gRPC. It covers five parts:

- **Peer store.** Two maps keyed by address: peer metadata and connection
  handles. The store validates and normalises addresses before checking
  existence.
- **Peer service.** Seeds the store from a bootstrap list. Connects to peers,
  disconnects from them, and asks a peer for its neighbours.
- **Discovery engine.** Scans the listed peers for their neighbours and removes
  duplicates. Filters out the node itself. Picks the peers to reconnect.
- **Exchange RPC.** On the client side, the node announces its identity as
  request metadata and decodes the reply records. On the server side, the
  handler decodes the caller, answers with the listed peers, and then registers
  the caller.
- **Older root package.** A store keyed by peer name, plus a service with a
  cluster filter and connection teardown.

Each source file becomes one module:

- `Types`: shared values (peer, peer info, state, errors).
- `Address` (address validation).
- `Store` (peer/peer_store.go).
- `Service` (peer/peer_service.go).
- `Discovery` (discovery/discovery.go).
- `Proto` (message shapes).
- `Client` (peer/client.go).
- `Rpc` (rpc/rpc.go).
- `Legacy` (root peer_store.go and peer_service.go).

**State and mutation.** Objects that the Go code updates in place are classes:

- `PeerStore` holds the two maps as fields.
- `PeerService` holds a reference to the store; `Discovery` and `RpcService`
  hold a reference to the `PeerService`.
- `LegacyPeerStore` and `LegacyPeerService` model the root package.

Every state-changing method states its new state as a pure step function of
the old state, such as `AddPeerStep`, `ConnectStep` or `DisconnectStep`. The
properties are proved about those step functions. A method that only reads is
specified directly.

**Map iteration.** A Go `range` over a map has no fixed order. The model picks
each key with `:|` and records the visited order in a ghost variable (a ghost
out-parameter where callers need it, a ghost local in `Rpc.AttrsToPb`). The
predicate `Listing` states that this order lists every key exactly once.

**Library and transport calls.** These are not modelled. They enter as
function-valued parameters:

- `Net` stands for the address library routines.
- `Env` stands for the transport: handle states, dial results and exchange replies.
- `closeErr` stands for the error returned by closing a handle.
- `PeerService.getPeers` stands for `PeerStore.GetPeers`, which is not part of
  this model.

**Code and design disagree.** In these cases the model follows the code as
written:

- `Exists` checks for the *normalised* address as a key. `AddPeer`,
  `UpdatePeer`, `RemovePeer` and `GetPeer` call it first, but then write or
  read under the *raw* address.
  - For an address that is its own normalised form, this makes no difference.
  - A URL-style address such as `http://www.host` is normalised to `host`. It is
    stored under the raw address, so it can be added any number of times and is
    never found (`Store.UnnormalisedAddressIsNeverFound`).
- `UpdatePeer` and `RemovePeer` have their guard inverted: they fail with
  "peer not found" exactly when the peer exists.
  - For an address equal to its normalised form, `RemovePeer` therefore never
    removes anything.
  - `UpdatePeer` stores the new metadata with an empty address.
- In the root package, `Disconnect` looks up `p.Addr` in a map keyed by *name*.
  It therefore only finds a peer whose name equals some peer's address.
- In the root package, `PeerService.AddPeer` and `RemovePeer` return the result
  of the store's `AddPeer` and `RemovePeer`, which return nothing
  (peer_service.go:20-26 against peer_store.go:17-29). The model follows the
  store: both are methods without a result, so they never report an error.

## Model

| member | source | states |
|---|---|---|
| Types.PeerState | peer/peer.go:23-28 | no handle gives the no-connection sentinel; with a handle the state is exactly that handle's state |
| Types.StateLabel | rpc/rpc.go:80 | each of IDLE, CONNECTING, READY, TRANSIENT_FAILURE and SHUTDOWN is the label of exactly its own state, and the out-of-range label is exactly that of the no-connection sentinel |
| Types.StateLabelInjective | rpc/rpc.go:80 | distinct states get distinct labels, so the label sent in a record names the peer's state |
| Address.TrimPrefix | peer/peer_store.go:174 | one leading copy of the prefix is removed, and only if present; the rest of the string is unchanged |
| Address.HostColonPort | peer/peer_store.go:193 | the address is the host, a colon, then the port |
| Address.ParseIP | peer/peer_store.go:179-194 | with no host:port split, Ok iff the whole address is an IP (canonical form); with a split, Ok iff the host is an IP and the port resolves to a non-negative number, giving host:port; every failure is the invalid-address error |
| Address.ValidatePeerAddr | peer/peer_store.go:164-177 | a non-empty parseIP result wins; otherwise the URL host minus one leading "www.", or the URL parse error |
| Store.PeerStore.constructor | peer/peer_store.go:26-32 | both maps start empty |
| Store.ExistsOutcome | peer/peer_store.go:34-45 | error iff validation fails (with its error); otherwise true iff the normalised key is present |
| Store.PeerStore.Exists | peer/peer_store.go:34-45 | returns the outcome above and changes neither map |
| Store.AddPeerStep | peer/peer_store.go:47-63 | validation error or PeerAlreadyExists leaves the map unchanged; otherwise exactly one entry is added, under the raw address, holding that address and the attributes; success iff the normalised key is absent |
| Store.PeerStore.AddPeer | peer/peer_store.go:47-63 | the new peers map and error are those of AddPeerStep; conns is untouched |
| Store.AddPeersStep | peer/peer_store.go:65-72 | no key is lost; on success every listed address is a key |
| Store.AddPeersFirstError | peer/peer_store.go:65-72 | a failing AddPeers is some prefix added without error, followed by the first failing AddPeer, whose result it returns; later peers are never tried |
| Store.AddPeersFailsAtFirstError | peer/peer_store.go:65-72 | conversely, once a prefix is added without error and the next AddPeer fails, AddPeers returns exactly that AddPeer's map and error |
| Store.PeerStore.AddPeers | peer/peer_store.go:65-72 | the loop's final map and error are those of AddPeersStep; conns is untouched |
| Store.UpdatePeerStep | peer/peer_store.go:74-90 | fails with PeerNotFound exactly when the normalised key exists; otherwise writes attributes with an empty address under the raw key; for a self-normalised address, success iff the address is absent |
| Store.PeerStore.UpdatePeer | peer/peer_store.go:74-90 | the new map and error are those of UpdatePeerStep; conns is untouched |
| Store.RemovePeerStep | peer/peer_store.go:92-106 | fails with PeerNotFound exactly when the normalised key exists, otherwise deletes the raw key; for a self-normalised address the map never changes |
| Store.PeerStore.RemovePeer | peer/peer_store.go:92-106 | the new map and error are those of RemovePeerStep; conns is untouched |
| Store.GetPeerOutcome | peer/peer_store.go:108-127 | Ok iff the address validates and is present under both the normalised and the raw key; the result holds the stored address and attributes and the raw key's handle; otherwise the validation error or PeerNotFound |
| Store.LookupError | peer/peer_store.go:108-127 | the error GetPeer fails with is the same whatever handles are stored: it depends on the peers map only |
| Store.PeerStore.GetPeer | peer/peer_store.go:108-127 | returns GetPeerOutcome of the current maps; changes nothing |
| Store.AddThenGet | peer/peer_store.go:108-127 | a self-normalised address is found right after a successful add, with its attributes |
| Store.UnnormalisedAddressIsNeverFound | peer/peer_store.go:34-63 | an address whose normalised form differs is not found after a successful add, and can be added again |
| Store.PeerStore.GetAllPeers | peer/peer_store.go:129-139 | one peer per key in iteration order (length = map size); every stored entry appears, and every result is built from a stored entry's metadata with no handle |
| Store.PeerStore.GetPeerConnection | peer/peer_store.go:141-150 | the empty address is rejected; otherwise returns the handle stored under the address (nil if none) |
| Store.SetConnStep | peer/peer_store.go:152-162 | the empty address is rejected with conns unchanged; otherwise the handle is recorded under the address, with no existence check, and all other addresses are unchanged, so a later Get returns it |
| Store.PeerStore.SetPeerConnection | peer/peer_store.go:152-162 | the new conns and result are those of SetConnStep; peers is untouched |
| Service.SeedStep | peer/peer_service.go:36-42 | seeding keeps every existing key and adds only bootstrap addresses other than the node's own, so the node's own address is never a key; every valid bootstrap entry other than the node's own ends up stored, under its raw address or because its normalised address was already a key |
| Service.PeerService.constructor | peer/peer_service.go:23-45 | a fresh store seeded by SeedStep with no handles; the node's address is not stored |
| Service.PeerService.AddPeer | peer/peer_service.go:51-53 | delegates to the store: AddPeerStep on peers, conns unchanged |
| Service.PeerService.GetState | peer/peer_service.go:67-73 | the lookup error, or the looked-up peer's state |
| Service.ConnectStep | peer/peer_service.go:97-115 | the node's own address is refused and a lookup error propagated, both touching nothing; a Ready handle is returned without dialing; otherwise (dialed iff not Ready) the dial result is recorded for the stored address even on error, and both handle and error are returned |
| Service.PeerService.Connect | peer/peer_service.go:97-115 | the returned handle, error and new conns are those of ConnectStep; peers is untouched |
| Service.GetNeighborsStep | peer/peer_service.go:75-93 | the RPC is invoked iff Connect returned no error, a non-nil handle, and the handle is Ready; otherwise the result is Connect's error, ConnectionFailed for a nil handle, or ConnectionNotReady; when invoked, the result is the RPC's error or its decoded reply; conns are those Connect leaves |
| Service.PeerService.GetNeighbors | peer/peer_service.go:75-93 | result and new conns are those of GetNeighborsStep |
| Service.DisconnectStep | peer/peer_service.go:119-131 | propagates the lookup error; closes the peer's stored handle and clears it only when the peer is Ready, otherwise changes nothing; never installs a handle; nil on success |
| Service.PeerService.Disconnect | peer/peer_service.go:119-131 | error, closed handle and new conns are those of DisconnectStep |
| Service.DisconnectAllStep | peer/peer_service.go:133-141 | fails exactly when some listed address is not found, with the lookup error of the first such address; every handle either stays or is cleared |
| Service.DisconnectAllLeavesNoneReady | peer/peer_service.go:133-141 | after a successful DisconnectAll, no listed peer stored under its own non-empty address has a Ready handle; the empty address is excluded because SetPeerConnection refuses it |
| Service.DisconnectAllFirstError | peer/peer_service.go:133-141 | a failing DisconnectAll is some prefix disconnected without error, followed by the first failing Disconnect, whose error it returns; later peers are not processed |
| Service.DisconnectAllFailsAtFirstError | peer/peer_service.go:133-141 | conversely, once a prefix is disconnected without error and the next Disconnect fails, DisconnectAll returns that error with the handles as the prefix left them |
| Service.PeerService.DisconnectAll | peer/peer_service.go:133-141 | the loop's conns and error are those of DisconnectAllStep over the listed peers |
| Client.AttributeKeyIsNotAddr | peer/client.go:22 | no attribute key on the wire can equal "addr" |
| Client.OutgoingMetadata | peer/client.go:19-24 | the option list starts with ("addr", address), then one ("attr-"+k, v) pair per attribute in iteration order; length 2 + 2·(number of attributes) |
| Client.AttrsFromList | peer/client.go:39-42 | the keys are those of the list; for a repeated key, the last value wins |
| Client.PeersFromPb | peer/client.go:36-47 | length, order and addresses are preserved; attributes are decoded and the state label is dropped; no handle |
| Client.GetPeers | peer/client.go:18-34 | the announced options are the outgoing metadata; an RPC error is returned, otherwise the decoded records |
| Rpc.Transmit | peer/client.go:25 | every key that arrives carries at least one value, so the server's first-value reads are safe |
| Rpc.TransmitKeys | peer/client.go:25 | the keys that arrive are exactly the lower-cased keys of the pairs |
| Rpc.TransmitValues | peer/client.go:25 | every value arrives under its pair's lower-cased key |
| Rpc.TransmitDistinct | peer/client.go:25 | with distinct lower-cased keys, each pair arrives as its own key holding exactly its value, and no other key arrives |
| Rpc.PeerFromMetadata | rpc/rpc.go:47-65 | error iff there is no "addr" value; the address is the first "addr" value; the attributes are exactly the "attr-" keys with the prefix stripped, each mapped to its first value; no handle |
| Rpc.AddrIsNeverAnAttribute | rpc/rpc.go:54-60 | "addr" never becomes an attribute |
| Rpc.AttrsToPb | rpc/rpc.go:70-76 | one record per map key, keys distinct, values equal |
| Rpc.PeersToPb | rpc/rpc.go:67-85 | length, order and addresses are preserved; each record lists its peer's attributes and carries the label of its state |
| Rpc.AttrsRoundTrip | peer/client.go:39-42 | decoding an attribute list gives back the map it lists |
| Rpc.PeersRoundTrip | peer/client.go:36-47 | decoding the encoded records gives back each peer's address and attributes, in order |
| Rpc.OutgoingPairs | peer/client.go:19-24 | the client's pairs are ("addr", address) and, for each attribute, its lower-case key with its value; no two keys coincide |
| Rpc.TransmitOutgoing | peer/client.go:19-25 | the server receives "addr" with exactly the address, and an "attr-" key with exactly its value for each attribute and nothing else |
| Rpc.DecodeAnnounced | rpc/rpc.go:47-65 | metadata announcing an identity decodes to exactly that identity |
| Rpc.MetadataRoundTrip | rpc/rpc.go:47-65 | the server decodes the client's announcement to the client's address and attributes when attribute keys are lower-case |
| Rpc.RpcService.constructor | rpc/rpc.go:22-27 | holds the given PeerService; the logger is left out |
| Rpc.RpcService.GetPeers | rpc/rpc.go:33-45 | an undecodable caller is refused with the store untouched; otherwise the response encodes the peers listed BEFORE the caller is added, and the caller is then added (its error discarded) |
| Discovery.Dedupe | discovery/discovery.go:134-145 | addresses are pairwise distinct; no address is lost; no longer than the input; only input peers |
| Discovery.DedupePrefix | discovery/discovery.go:138-143 | deduplicating a prefix of the input gives a prefix of the result |
| Discovery.DedupeKeepsFirstOccurrences | discovery/discovery.go:138-142 | each kept peer is the first occurrence of its address |
| Discovery.DedupeOfDistinct | discovery/discovery.go:138-142 | a list with distinct addresses is unchanged |
| Discovery.DedupeIdempotent | discovery/discovery.go:134-145 | applying it twice equals applying it once |
| Discovery.RemoveDuplicatePeers | discovery/discovery.go:134-145 | the loop with its encountered set computes Dedupe |
| Discovery.ScanFold | discovery/discovery.go:29-44 | the merged neighbour lists carry no handles |
| Discovery.ScanFoldPrefix | discovery/discovery.go:32-39 | scanning more peers only appends: the neighbours found for a prefix of the list come first, in order |
| Discovery.Discovery.constructor | discovery/discovery.go:19-24 | holds the given PeerService; the logger is left out |
| Discovery.Discovery.Scan | discovery/discovery.go:29-44 | the result is the dedupe of the neighbour lists concatenated in list order, where a failing peer contributes nothing and does not stop the loop; conns is as the successive Connects leave it |
| Discovery.NotSelf | discovery/discovery.go:48-52 | exactly the peers whose address is not the node's own |
| Discovery.Discovery.AddPeers | discovery/discovery.go:46-53 | the list handed to AddPeers is exactly the input minus the node itself, in order |
| Discovery.WantsReconnect | discovery/discovery.go:65-73 | a chosen peer is not the node, is stored, and has no handle or a handle that is not Ready |
| Discovery.WantsReconnectIffDials | discovery/discovery.go:65-79 | on one snapshot of the store and of the handle states, the peers refresh picks are exactly those whose Connect dials |
| Discovery.Discovery.Refresh | discovery/discovery.go:60-103 | a connection attempt is started exactly for the listed peers that are not self, whose state can be read and is not Ready; always returns nil |
| Legacy.LegacyPeerStore.constructor | peer_store.go:10-15 | the store starts empty |
| Legacy.ListedPeersAreStored | peer_store.go:38-47 | a full listing holds exactly the stored peers |
| Legacy.LegacyPeerStore.AddPeer | peer_store.go:17-22 | stores the peer under its name, overwriting; keeps every peer under its own name |
| Legacy.LegacyPeerStore.RemovePeer | peer_store.go:24-29 | deletes only the name key; afterwards no stored peer has that name |
| Legacy.LegacyPeerStore.GetPeer | peer_store.go:31-36 | the stored peer, or none exactly when the name is absent |
| Legacy.LegacyPeerStore.GetAllPeers | peer_store.go:38-47 | one entry per key in iteration order (length = map size); exactly the stored peers |
| Legacy.LegacyPeerService.constructor | peer_service.go:13-18 | keeps the node's identity and starts with a fresh, empty store |
| Legacy.ClusterPeers | peer_service.go:36-45 | exactly the given peers of the cluster |
| Legacy.LegacyPeerService.AddPeer | peer_service.go:20-22 | delegates to the store |
| Legacy.LegacyPeerService.RemovePeer | peer_service.go:24-26 | delegates; afterwards no stored peer, and so none that GetPeers lists, has that name |
| Legacy.LegacyPeerService.GetPeer | peer_service.go:28-30 | the stored peer or none |
| Legacy.LegacyPeerService.GetPeers | peer_service.go:32-34 | all stored peers, in iteration order |
| Legacy.LegacyPeerService.GetClusterPeers | peer_service.go:36-45 | the listed peers of the node's cluster, in listing order; every stored peer of the cluster appears |
| Legacy.LegacyPeerService.Connect | peer_service.go:47-53 | a dial error is returned with no handle; otherwise the handle is returned without error |
| Legacy.DisconnectOutcome | peer_service.go:55-67 | no error when the lookup by `p.Addr` (as a name) finds nothing or an entry without a handle; otherwise the error of closing that handle |
| Legacy.LegacyPeerService.Disconnect | peer_service.go:55-67 | returns DisconnectOutcome; the store is not changed |
| Legacy.FirstDisconnectError | peer_service.go:69-77 | none iff every Disconnect succeeds; otherwise the error of the first failing one, with all earlier ones succeeding |
| Legacy.FirstErrorOverStored | peer_service.go:69-77 | in any iteration order, no error exactly when every stored peer disconnects cleanly; any error is that of some stored peer |
| Legacy.LegacyPeerService.DisconnectAll | peer_service.go:69-77 | the result is FirstDisconnectError over the listed peers, so later peers are not processed; nil exactly when every stored peer disconnects cleanly, otherwise the error of some stored peer |

## Left out

- Locking (`sync.RWMutex` in both stores): each store call is one atomic step. In the source, `AddPeer`, `UpdatePeer`, `RemovePeer` and `GetPeer` take the lock twice: once inside `Exists`, then again for the write or read. The model therefore closes a check-then-act window that the source leaves open to concurrent callers.
- Service.Env: handle states, dial results and exchange replies are one fixed snapshot for the whole of one call, including a whole `Scan`. The source polls some handles twice. `GetNeighbors` polls at peer/peer_service.go:83 after `Connect` polled at peer/peer_service.go:106, so the case "Ready in `Connect`, no longer Ready at line 83, so `connection not ready`" cannot happen in the model. `refresh` polls at discovery/discovery.go:69, and the `Connect` of its goroutine polls again at peer/peer_service.go:106; the model takes both polls to agree.
- The library routines `net.SplitHostPort`, `net.ParseIP`, `net.LookupPort` and `url.Parse` are parameters (`Net`), not models of themselves.
- `grpc.Dial`, `ClientConn.GetState`, `ClientConn.Close` and the RPC invocation are parameters (`Env`, `closeErr`). Closing a handle in `Disconnect` therefore has no effect beyond clearing the stored handle.
- `PeerStore.GetPeers`, `PeerStore.GetPeersWithAttributes` and `PeerStore.AddPeers(list, true)` are not part of this model. The listed peers are a function `getPeers` of the store contents, `GetPeersWithAttributes` is not modelled, and `Discovery.Discovery.AddPeers` stops at the list it hands over (logging of the added peers is left out with it).
- `PeerService.Self` and `PeerService.AddPeers` are one-line delegations: the first is the `self` field; the second hands over to the unmodelled `AddPeers(list, true)`.
- `refresh`'s goroutines, `WaitGroup`, `Connect` calls and 5-second busy wait: only the choice of peers to attempt is modelled.
- `Discovery.Start` (the endless scan / add / refresh loop with its sleep) and node.go (server lifecycle).
- peer/discovery.go, config/config.go, logger/logger.go and errors.go are not part of this model; error values are the constructors of `Types.Error`.
- The generated protobuf and gRPC code: only the message shapes `Attribute` and `Peer` are modelled.
- Rpc.Lower: lower-cases ASCII letters only; the metadata library's full Unicode lower-casing is not modelled.
- Types.StateLabel: labels follow the state names of gRPC's `connectivity.State`; the label of the no-connection sentinel is whatever that library prints for an out-of-range value, written here as "INVALID_STATE".
- Rpc.Transmit: models only the key lower-casing and the per-key value grouping of `metadata.AppendToOutgoingContext`; other transport metadata (for example gRPC's own reserved keys) is not modelled.
- Rpc.PeerFromMetadata: requires every "attr-" key to carry a value, because the code reads the first value without a guard (the transport always delivers at least one).
- The root package's `Peer.State` (peer.go:15-20) is the same sentinel logic as `Types.PeerState` and is not modelled separately; the root `GetPeer` returns only the stored peer or none, as the store defines it (peer_service.go:28-30 expects a second result that peer_store.go does not return).
- The map iteration order is unconstrained: the ghost order every listing method returns is only known to list each key once.
