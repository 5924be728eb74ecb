# TinyVPN: a verified model of the relay, the registry and their codecs

TinyVPN joins machines into a WireGuard mesh. Two servers hold state. The UDP
*relay* forwards packets between nodes that cannot reach each other. It learns
each node's endpoint from the packets it sees. The *control server* (CCS) keeps
the registry of nodes: a map in memory that caches an SQLite table. It hands out
VPN addresses, tracks heartbeats and filters peer lists by group. This project
models both, and the two text codecs used between the parts, and proves what
they guarantee over every run.

## How the model is built

- **Relay.** `RelayState` says what each critical section does to the two tables.
  `RelayServer.Relay` is the object that the program changes in place, with one
  method for each section. `RelayProtocol` interleaves those sections: the
  datagram loop and the reaper each have a program counter. The reaper reads its
  clock before it waits for `nodes`, keeps `nodes` while it waits for `ip_index`,
  and may run anywhere between the sections of the loop. Hash-map orders are
  choices. `RelayEndpoints`, `RelayFanOut`, `RelayDelivery`, `RelayIsolation`,
  `RelayIndex` and `RelayTiming` prove properties of all runs.
- **Registry.** `RegistryState` says what each operation does to memory and
  database; every database write may succeed or fail. `RegistryServer.Registry`
  is the object. `RegistryRuns` (agreement and addresses), `RegistryAges` (how old
  a heartbeat looks) and `RegistryConnection` (who is connected, who is deleted)
  prove properties of all runs, restarts included. `AddressPool` is the address
  search, `Acl` the group ACL.
- **Server.** `CcsServer` interleaves request streams, the dashboard's ACL
  requests, the reaper and restarts wherever the locks allow it, and refines
  `RegistryRuns`. The registry's lock is shared by readers, and the dashboard
  writes the ACL tables as a reader; so those writes fall between the reads of a
  listing, each of which locks the database for itself. `PeerLists` says what a
  listing comes to, read by read; `CcsListings` what its answer means in a run;
  `CcsRequests` what every other request stores and is answered;
  `CcsClients` what a client that keeps sending requests can count on.
  `CcsHandlers` holds the locked stretches as methods on the registry object;
  there, what the dashboard writes meanwhile is an argument.
- **Codecs.** `RegisterMessage` and `Base64`; `Text` has what the codecs and the
  address strings share.

Clock readings are in nanoseconds, and `as_secs()` is division by `SECOND`. The
monotonic and the wall clock advance together; a restart may bring a new
monotonic clock. History variables (`sent`, `swept`, `beat`, `reaped`) are written
and never read. Random ids and tokens are inputs. A payload is the text that the
relay reads.

## Where the code and its documents disagree

- `README.md:153` promises 65,534 nodes; `next_ip` enumerates 256 x 255 = 65,280
  addresses (`AddressPool.POOL`), and `RegistryRuns.RegistrationFailsIff` shows
  that this is the exact limit on addresses in use, `RegistrationFailsWhenFull`
  that on live nodes as long as deletes succeed.
- The comment at `crates/relay/src/lib.rs:137` calls `ip_index` a hint for
  `forward`; `RelayIndex.IndexIsNeverRead` shows that it has no effect on what is sent.

## Promises that hold only under a condition

Each has a run that breaks it and the exact condition under which it holds.

- Distinct endpoints: `RelayEndpoints.SharedSocketTakesOver`, and
  `RelayEndpoints.EndpointsStayDistinctIff`.
- Distinct addresses across restarts: `RegistryRuns.LostDeleteSharesAddress`, and
  `RegistryRuns.RowsStayDistinctIff`.
- Ages across restarts: `RegistryAges.ReloadsAreAccurateIff`, in terms of the
  stored row, and `RegistryAges.ReloadsAreAccurateIffStored`, in terms of writes.
- Regular heartbeats keep a node connected:
  `RegistryConnection.LostHeartbeatDisconnects`, and
  `RegistryConnection.HeardNodesStayConnectedIff`. If all writes succeed, or if
  there is no restart, it holds (`RegistryConnection.HeardNodesStayConnected`).
- After a reap a connected node was heard less than 61 seconds ago:
  `RegistryConnection.ReloadStretchesBound`, and
  `RegistryConnection.ReloadKeepsBoundIff`. Less than 62 seconds ago is always
  true (`RegistryConnection.ConnectedMeansRecent`), unless a restart since the
  reap reconnected the node, as in `RegistryConnection.LostMarkReconnects`;
  `RegistryConnection.RestartReconnectsIff` says which nodes that can be.
- A reap leaves no row older than 86,400 seconds:
  `RegistryConnection.ReapLeavesOlderRow`, and
  `RegistryConnection.ReapedRowsAreYoungIff`.
- A caller is told exactly the peers that they may see:
  `CcsListings.TornPeerList`, a run that answers nobody to a caller who always
  sees somebody, and `CcsListings.DisturbedPeerListIff`, for a listing that one
  change of the dashboard disturbs; with none it holds
  (`CcsListings.UndisturbedPeerList`), and `CcsListings.PeerListsAreSeen` says what
  any number of changes makes of the answer. For a listing of the ACL,
  `CcsListings.AclListingTears` and `CcsListings.DisturbedAclListing`.
- The ACL tables are what validated requests made them:
  `CcsServer.DashboardNeedsNoSession`, and `CcsServer.TablesAreAuthorisedIff`. The
  dashboard asks for no session.

## Model

| member | source | states |
|---|---|---|
| RelayServer.Relay.RegisterNode | crates/relay/src/lib.rs:99-123 | the `nodes` section of a REGISTER adds the peer, adopts the address or keeps the old one, and records the activity |
| RelayServer.Relay.RegisterIp | crates/relay/src/lib.rs:125 | the `ip_index` section maps the sender's IP to the node |
| RelayServer.Relay.Lookup | crates/relay/src/lib.rs:138-171 | the two searches return an exact match if there is one, else some match by IP, else nothing, in any iteration order |
| RelayServer.Relay.Learn | crates/relay/src/lib.rs:181-198 | records the sender's endpoint and activity if its entry still exists, then lists the endpoint of each peer that has one |
| RelayServer.Relay.Sweep | crates/relay/src/lib.rs:58-66 | keeps exactly the entries silent for under 120 whole seconds at the reaper's earlier clock reading |
| RelayServer.Relay.RebuildIndex | crates/relay/src/lib.rs:67-74 | leaves exactly the IPs of known endpoints, each mapped to a node at that IP |
| RelayProtocol.InvRun | crates/relay/src/lib.rs:99-190 | in every reachable state each entry has an endpoint, and a packet being learned has the IP of the node it was attributed to |
| RelayEndpoints.IpMovesAtMostOnce | crates/relay/src/lib.rs:110-121 | while an entry lives its endpoint's IP changes at most once, by a REGISTER that moves it from a non-loopback to a loopback IP |
| RelayEndpoints.IpStep | crates/relay/src/lib.rs:181-190 | no other step changes the IP: a forwarded packet changes only the port, even if the reaper ran between its two sections |
| RelayEndpoints.EndpointIsLatestFromItsIp | crates/relay/src/lib.rs:110-121 | port roaming: a live endpoint is the source of the latest datagram heard from the node at that IP |
| RelayEndpoints.PacketsAreAttributedToOwners | crates/relay/src/lib.rs:138-179 | if every REGISTER comes from an IP its node owns, a packet from any port is attributed to the owner of its source IP if that node's endpoint is at that IP, and is dropped otherwise, in every hash order |
| RelayEndpoints.RoamedPacketIsAttributed | crates/relay/src/lib.rs:154-168 | a packet from the IP of exactly one node is attributed to that node, whatever port it comes from |
| RelayEndpoints.KnownAddressIsAttributed | crates/relay/src/lib.rs:143-152 | a packet from the very address of exactly one node is attributed to that node, whoever else shares the IP |
| RelayEndpoints.UnknownIpIsDropped | crates/relay/src/lib.rs:172-179 | a packet is dropped if and only if no endpoint has its source IP |
| RelayEndpoints.AcceptedPacketIsLearned | crates/relay/src/lib.rs:181-190 | accepting a packet leaves its sender at the packet's source, active now, with the peers it had, and touches no other entry |
| RelayEndpoints.LoopbackIff | crates/relay/src/lib.rs:110-117 | loopback means 127.0.0.0/8 or `::1` |
| RelayEndpoints.RegisterIsStored | crates/relay/src/lib.rs:99-123 | a REGISTER adds its peer, adopts its source if the entry is new, at the same IP or off the loopback while the source is on it, notes the time and touches no other entry |
| RelayEndpoints.AttributionIsAmbiguousIff | crates/relay/src/lib.rs:143-168 | exactly when the attribution of a packet depends on the hash order |
| RelayEndpoints.AttributesIffSomeOrder | crates/relay/src/lib.rs:143-168 | the lookup relation of the protocol allows precisely what some iteration order finds |
| RelayEndpoints.DistinctStep | crates/relay/src/lib.rs:143-190 | packets and the reaper never make two endpoints equal; a REGISTER does exactly when it adopts an address another node holds |
| RelayEndpoints.EndpointsStayDistinctIff | crates/relay/src/lib.rs:110-190 | over a run endpoints stay pairwise distinct if and only if no REGISTER takes an address over |
| RelayEndpoints.SharedSocketTakesOver | crates/relay/src/lib.rs:83-123 | any two different ids whose REGISTERs arrive from one socket lead, in two received datagrams, to a takeover and two equal endpoints |
| RelayFanOut.PeersAreThoseNamed | crates/relay/src/lib.rs:102-107 | a live node's peers are exactly those it named in REGISTERs since its entry was made |
| RelayFanOut.IssuedRegisterIsHandled | crates/relay/src/lib.rs:83-91 | what the client prints for two issued ids is handled as the REGISTER of the first for the second, and as nothing else |
| RelayFanOut.AcceptedPacketReachesEachLivePeerOnce | crates/relay/src/lib.rs:181-212 | an accepted packet is sent once to each live named peer, at its current endpoint, and to nobody else |
| RelayDelivery.RoamedPacketIsDelivered | crates/relay/src/lib.rs:135-213 | whatever the reaper does between its sections, a packet from one node's IP on any port is delivered once to each live peer the node named, and the node's endpoint becomes its source; if the node was reaped meanwhile, nothing is sent |
| RelayDelivery.StrangersAreIgnored | crates/relay/src/lib.rs:172-179 | a packet from an IP that no endpoint has when it is looked up causes no send and changes no table |
| RelayFanOut.RegistersAreAnswered | crates/relay/src/lib.rs:83-96 | over a run the `OK`s sent to an address number the REGISTERs received from it, less the one in hand, plus copies of data packets that read `OK` |
| RelayFanOut.SendsAreProvoked | crates/relay/src/lib.rs:78-96 | over a run the relay sends only to addresses it has received from, and only `OK` or a copy of a received packet |
| RelayIsolation.PacketsReachOnlyNamedPeers | crates/relay/src/lib.rs:135-213 | over a run in which REGISTERs come from IPs their nodes own, all that is sent is the `OK` to a REGISTER and copies of packets, each to an IP of a peer that the owner of the packet's source IP had named |
| RelayIsolation.AcceptedPacketReachesOnlyNamedPeers | crates/relay/src/lib.rs:138-212 | in such a run an accepted packet is copied unchanged, and only to IPs of peers that the owner of its source IP has named since its entry was made |
| RelayIndex.IndexCoversLiveIps | crates/relay/src/lib.rs:67-127 | between datagrams every live endpoint's IP is in the index, wherever the reaper is |
| RelayIndex.IndexesIffSomeOrder | crates/relay/src/lib.rs:67-74 | the rebuild relation of the protocol allows precisely the indexes that some iteration order leaves, later entries of one IP overwriting earlier ones |
| RelayIndex.IpIsIndexed | crates/relay/src/lib.rs:125 | the second section of a REGISTER maps the sender's IP to its node and changes nothing else in the tables |
| RelayIndex.IndexIsNeverRead | crates/relay/src/lib.rs:135-213 | two relays that differ only in `ip_index` send the same datagrams for the same inputs, clock and hash orders |
| RelayTiming.SilenceIsBounded | crates/relay/src/lib.rs:54-66 | if the latest sweep read its clock at most `gap` ago, every entry's silence is below 120 s plus `gap` |
| RelayTiming.TickWasRead | crates/relay/src/lib.rs:54-60 | the clock reading that a sweep goes by is that of the latest tick |
| RelayTiming.HeardNodesAreKept | crates/relay/src/lib.rs:54-66 | a node that every sweep finds heard within 120 s is never reaped and its peer set only grows |
| RelayTiming.SweepKeepsIff | crates/relay/src/lib.rs:58-66 | a sweep keeps a live node if and only if it spoke less than 120 s before the sweep's clock reading |
| RegisterMessage.ParseInvertsPrint | crates/relay/src/lib.rs:83-88 | the relay's parser accepts exactly the printed messages and yields the one pair whose first id has no colon |
| RegisterMessage.RoundTripIffColonFree | crates/cli/src/main.rs:448 | a printed pair is parsed back unchanged if and only if the first id has no colon |
| RegisterMessage.WireForm | crates/cli/src/main.rs:448 | the printed text for `node-a` and `node-b`, and texts that are data packets |
| RegisterMessage.MalformedIff | crates/relay/src/lib.rs:83-92 | the prefix makes a REGISTER of any text, and it is malformed if and only if no colon follows |
| RegisterMessage.HexIsInjective | crates/ccs/src/registry.rs:352-356 | the hexadecimal form of the drawn bytes determines them |
| RegisterMessage.HexReadsBack | crates/ccs/src/registry.rs:352-356 | each byte reads back from its two digits, high digit first |
| RegisterMessage.IssuedIdForm | crates/ccs/src/registry.rs:103 | an issued id is `node-` and sixteen digits that spell the drawn bytes |
| RegisterMessage.IssuedIdsSurvive | crates/ccs/src/registry.rs:103 | any two issued ids survive the message unchanged, and different pairs print differently |
| Base64.Base64Encode | crates/cli/src/main.rs:473-487 | the chunk loop returns a string that decodes to its input |
| Base64.DecodeInvertsEncode | crates/cli/src/main.rs:473-487 | decoding (sections 4 and 3.5 of RFC 4648) undoes encoding for every byte string |
| Base64.DecodeAcceptsOnlyEncodings | crates/cli/src/main.rs:473-487 | a string decodes to `data` if and only if it is the encoding of `data` |
| Base64.EncodedShape | crates/cli/src/main.rs:473-487 | the length is 4 times the number of chunks, and the padding is 0, 1 or 2 `=` by the length modulo 3, at the end only |
| Base64.SymbolsOfEncoding | crates/cli/src/main.rs:473-487 | each symbol is the one that table 1 of RFC 4648 has for the six bits that its section 4 draws there, or a pad character |
| AddressPool.Search | crates/ccs/src/registry.rs:333-347 | the double loop finds the first address that is not in use, or reports that all 65,280 are |
| AddressPool.FirstFree | crates/ccs/src/registry.rs:333-347 | the place found is free and everything before it is in use |
| AddressPool.AddressIsInjective | crates/ccs/src/registry.rs:340 | different places in the enumeration are different strings |
| AddressPool.AddressReadsBack | crates/ccs/src/registry.rs:335-341 | the text of the k-th address starts with 10.13, its third octet reads k / 255 and its fourth k % 255 + 1 |
| AddressPool.AddressForm | crates/ccs/src/registry.rs:335-341 | every address has that form; the first is 10.13.0.1, the second 10.13.0.2, the 256th 10.13.1.1 |
| AddressPool.FirstFreeIsLow | crates/ccs/src/registry.rs:333-347 | the place found is at most the number of addresses in use, so with fewer than 65,280 there is always a free one |
| RegistryServer.Registry.constructor | crates/ccs/src/registry.rs:54-98 | reload makes one entry per row, its silence read off the wall clock in whole seconds |
| RegistryServer.Registry.NextFreeIp | crates/ccs/src/registry.rs:333-347 | the first free address with respect to the nodes in memory |
| RegistryServer.Registry.Register | crates/ccs/src/registry.rs:102-128 | grants id, address and token and writes both memory and row, or fails and changes neither |
| RegistryServer.Registry.ValidateSession | crates/ccs/src/registry.rs:131-136 | true exactly for the token of a node in memory |
| RegistryServer.Registry.UpdateEndpoint | crates/ccs/src/registry.rs:139-149 | stores the endpoint and refreshes the heartbeat, without marking the node connected |
| RegistryServer.Registry.Heartbeat | crates/ccs/src/registry.rs:152-161 | refreshes the heartbeat and marks the node connected |
| RegistryServer.Registry.ReapStale | crates/ccs/src/registry.rs:164-191 | marks the nodes silent for over 60 s and deletes those silent for over 86,400 s, with any of the writes lost |
| RegistryServer.Registry.NodeGroups | crates/ccs/src/registry.rs:280-291 | lists exactly the groups of the node |
| RegistryServer.Registry.VisibleGroups | crates/ccs/src/registry.rs:293-314 | lists, without repeats, exactly the groups that some rule lets the given groups see |
| RegistryServer.Registry.GetPeers | crates/ccs/src/registry.rs:194-224 | returns exactly once each peer that the reads permit, each read finding what the dashboard has written by then, and nobody else; no id means id `""` |
| RegistryServer.Registry.ListAcl | crates/ccs/src/registry.rs:258-278 | returns the groups, and the rules as they are when what is written between the two reads is done |
| PeerLists.PermitsAcrossIff | crates/ccs/src/registry.rs:194-224 | what the filter of a peer list computes from its reads is whether a group of the caller, a rule and a group of the peer, each as read, fit together |
| PeerLists.UndisturbedReads | crates/ccs/src/registry.rs:194-224 | if what is written between the reads has no effect, a peer list is exactly what the tables permit |
| PeerLists.OneChangeIff | crates/ccs/src/registry.rs:194-224 | a peer list with one change among its reads is what the tables permit before or after it, if and only if it does not remove the last rule between the first and the third read, of a caller who saw somebody |
| PeerLists.GrowingListing | crates/ccs/src/registry.rs:194-224 | while pairs are only added, a peer list has at least what was permitted at its first read, and with rules there at most what is permitted at its end |
| PeerLists.ShrinkingListing | crates/ccs/src/registry.rs:194-224 | while pairs are only removed and rules remain, it is the other way round |
| RegistryServer.Registry.ChangeAcl | crates/ccs/src/registry.rs:226-256 | adds or removes one pair, or leaves the tables alone when the write fails |
| PeerLists.NobodySeen | crates/ccs/src/registry.rs:204-212 | the early returns are right: without groups, or with groups that head no rule when the rules are read, a caller sees nobody |
| RegistryState.PeersOfIff | crates/ccs/src/registry.rs:194-224 | a caller is told the whole entry of every other node if there are no rules, and otherwise of those of which a group may be seen by one of its groups |
| RegistryRuns.MemoryIsBackedByRows | crates/ccs/src/registry.rs:102-191 | whichever writes fail, every entry has a row with equal id, name, address, key and token |
| RegistryRuns.RegisterNeverReplaces | crates/ccs/src/registry.rs:107-110 | a drawn id that collides with a live node is refused and changes nothing |
| RegistryRuns.CleanRunsAgree | crates/ccs/src/registry.rs:102-191 | if all writes succeed, memory and rows hold the same nodes with the same data, and a reload would change only heartbeat readings |
| RegistryRuns.EndpointIsLastReport | crates/ccs/src/registry.rs:139-149 | in every run a node's endpoint is its last remembered report since it registered, or empty; a report is forgotten only by a restart after its write was lost |
| RegistryRuns.StoredEndpointIsLastWritten | crates/ccs/src/registry.rs:54-149 | the endpoint that a restart would read back is the last one whose write succeeded |
| RegistryRuns.DistinctUntilRestart | crates/ccs/src/registry.rs:333-347 | without restarts live addresses are pairwise distinct, whichever writes fail |
| RegistryRuns.DistinctAcrossRestarts | crates/ccs/src/registry.rs:163-191 | if deletes succeed, live addresses are pairwise distinct across any number of restarts |
| RegistryRuns.RowsStayDistinctIff | crates/ccs/src/registry.rs:102-191 | addresses survive restarts without a clash if and only if no registration is granted the address of a row whose node's delete was lost |
| RegistryRuns.RestartIsDistinctIff | crates/ccs/src/registry.rs:54-90 | a restart gives pairwise distinct addresses if and only if the rows have them |
| RegistryRuns.LostDeleteSharesAddress | crates/ccs/src/registry.rs:183-191 | a lost delete can put two live nodes on one address after a restart |
| RegistryRuns.AddressesStayBelowPeak | crates/ccs/src/registry.rs:333-347 | every address lies below the peak number of simultaneous nodes in the search order, whatever fails and however often the server restarts |
| RegistryRuns.UndeletedAddressesAreAPrefix | crates/ccs/src/registry.rs:333-347 | with no deletions the used addresses are exactly the first ones |
| RegistryRuns.RegistrationFailsIff | crates/ccs/src/registry.rs:102-128 | in every run registration fails if and only if 65,280 addresses are in use, a row has the id or the write fails |
| RegistryRuns.RegistrationFailsWhenFull | crates/ccs/src/registry.rs:102-128 | if all deletes so far succeeded, that is if and only if 65,280 nodes are live, a live node has the id or the write fails |
| RegistryRuns.FirstGrants | crates/ccs/src/registry.rs:102-128 | on an empty registry the first two registrations are granted 10.13.0.1 and 10.13.0.2 |
| RegistryAges.RestartsPreserveAges | crates/ccs/src/registry.rs:72-89 | if writes succeed, after any number of restarts a node's apparent age is within one second of its true age |
| RegistryAges.ReloadsAreAccurateIff | crates/ccs/src/registry.rs:72-89 | under lost writes, a reload at any moment reads a node's age within one second if and only if the row holds the second of its latest beat |
| RegistryAges.AgesAreNotUnderstated | crates/ccs/src/registry.rs:72-89 | whichever writes fail, a node never looks a second younger than it is |
| RegistryAges.AgesAreExactUntilRestart | crates/ccs/src/registry.rs:139-161 | within one process ages are exact, whichever writes fail |
| RegistryAges.HeardAtIsTimeSet | crates/ccs/src/registry.rs:72-89 | in every run memory takes a node to have been heard at its latest beat, or, if a restart came later, at the second in the row plus how far into its own second the reload came |
| RegistryAges.RowHoldsLastStored | crates/ccs/src/registry.rs:139-161 | in every run a row holds the second of the latest beat whose write succeeded |
| RegistryAges.ReloadsAreAccurateIffStored | crates/ccs/src/registry.rs:72-161 | a reload at any moment reads a node's age within one second if and only if its latest beat and its latest stored beat are of the same second |
| RegistryConnection.StaysConnectedIff | crates/ccs/src/registry.rs:54-191 | in every run a connected node stays so exactly as long as no reap finds it silent for over 60 s and every restart finds its row connected |
| RegistryConnection.RowConnectedIff | crates/ccs/src/registry.rs:102-182 | in every run a row says connected if and only if, of the registrations, heartbeats and offline marks that were stored, the latest is not a mark |
| RegistryConnection.HeardNodesStayConnectedIff | crates/ccs/src/registry.rs:54-191 | a node that every reap finds heard within 60 s stays connected if and only if every restart finds its row connected, and every reap after a restart and before the next beat comes less than 61 s after the time read back |
| RegistryConnection.HeardNodesStayConnected | crates/ccs/src/registry.rs:152-191 | so it does if all writes succeed, or if there is no restart |
| RegistryConnection.StaysOfflineIff | crates/ccs/src/registry.rs:54-161 | in every run a node marked offline stays so exactly until a heartbeat, or a restart that finds its row connected; endpoint reports do not reconnect it |
| RegistryConnection.OfflineUntilHeartbeat | crates/ccs/src/registry.rs:139-161 | only a heartbeat ends it if all writes succeed, or if there is no restart |
| RegistryConnection.LostHeartbeatDisconnects | crates/ccs/src/registry.rs:152-161 | with a lost write and a restart, a node is marked offline one second after it was heard |
| RegistryConnection.ConnectedMeansRecent | crates/ccs/src/registry.rs:54-177 | in every run, if the latest reap was at most `gap` ago and no restart since has reconnected it, a connected node was heard less than 62 s plus `gap` ago, or 61 s without restarts |
| RegistryConnection.RestartReconnectsIff | crates/ccs/src/registry.rs:54-98 | after a restart exactly the nodes whose rows say so are connected; if all writes succeeded none of them is new |
| RegistryConnection.ConnectedAfterRestartIff | crates/ccs/src/registry.rs:54-161 | until the next reap the connected nodes are those the rows had connected and those that registered or sent a heartbeat since |
| RegistryConnection.LostMarkReconnects | crates/ccs/src/registry.rs:164-182 | a reap whose mark is lost, and a restart, leave a node connected after any silence between a minute and a day |
| RegistryConnection.ReloadStretchesBound | crates/ccs/src/registry.rs:72-177 | with every write successful, a node can be connected after a reap nearly 62 s after it was heard |
| RegistryConnection.ReloadKeepsBoundIff | crates/ccs/src/registry.rs:72-177 | a reload keeps the bound of 61 s for a connected node if and only if the node is due already or the time read back is not later than its beat, that is, in clean runs, if the reload came no further into its second than the beat |
| RegistryConnection.ReapLeavesNoOldNodes | crates/ccs/src/registry.rs:164-191 | right after a reap, whichever writes fail, no node in memory is older than 86,400 whole seconds |
| RegistryConnection.ReapKeepsIff | crates/ccs/src/registry.rs:164-191 | a reap keeps a node in memory if and only if it was heard less than 86,401 s ago by memory's reckoning, and changes nothing in it but the mark, from 61 s on |
| RegistryConnection.ReapKeepsRowIff | crates/ccs/src/registry.rs:164-191 | the row goes with the node unless the delete is lost, is marked with it unless the update is lost, and stays as it is without a node |
| RegistryConnection.ReapKeepsLastSetIff | crates/ccs/src/registry.rs:164-191 | in every run a reap keeps a node if and only if less than 86,401 s have passed since its latest beat, or since the time that a later restart read back |
| RegistryConnection.StaysRegisteredIff | crates/ccs/src/registry.rs:54-191 | in every run a node stays registered exactly as long as every reap finds it heard less than 86,401 s ago; restarts bring it back |
| RegistryConnection.HeardNodesStayRegistered | crates/ccs/src/registry.rs:164-191 | a node that every reap finds heard within 86,400 s is never deleted, if all writes succeed or there is no restart |
| RegistryConnection.ReapedRowsAreYoungIff | crates/ccs/src/registry.rs:164-191 | if all writes succeed the rows are then those nodes, at most 86,401 s old by their epochs, and at most 86,400 s exactly when the node is younger in memory or was heard no further into a second than the reap came into its own |
| RegistryConnection.ReapLeavesOlderRow | crates/ccs/src/registry.rs:164-191 | with every write successful, a reap can leave a row that is 86,401 s old by its epoch |
| Acl.ChangesAreMonotone | crates/ccs/src/registry.rs:194-256 | whatever changes follow, adding a group, or a rule when there are rules without it in the end, never hides a peer; removing a group, or a rule when there are rules in the end, never reveals one |
| Acl.FirstRuleHides | crates/ccs/src/registry.rs:197-202 | the exception: exactly which peers the first rule hides |
| Acl.TablesFollowLastWord | crates/ccs/src/registry.rs:226-256 | after any history a pair is present exactly when the last change that speaks of it added it |
| Acl.SameLastWordsSameVisibility | crates/ccs/src/registry.rs:194-256 | visibility depends only on the last change to each pair |
| Acl.AddThenRemoveRestores | crates/ccs/src/registry.rs:226-256 | adding an absent pair and later removing it has no effect, with any changes to other pairs between |
| CcsHandlers.Respond | crates/ccs/src/server.rs:84-141 | the arms handled under one locking of both locks validate, act and answer as the protocol says |
| CcsHandlers.RespondPeers | crates/ccs/src/server.rs:96-104 | the peer-list arm validates, then answers what its reads permit, with the dashboard writing between them |
| CcsHandlers.RespondAcl | crates/ccs/src/server.rs:191-206 | the ACL-listing arm validates, then answers groups and rules read one after the other |
| CcsHandlers.ValidateChange | crates/ccs/src/server.rs:143-146 | the first locking of an ACL arm only validates |
| CcsHandlers.ApplyChange | crates/ccs/src/server.rs:147-152 | the second locking applies the change without validating again |
| CcsRequests.ReportIsStored | crates/ccs/src/server.rs:106-116 | an authentic endpoint report sets the endpoint and the heartbeat, in the row if the write succeeds, leaves the mark and everything else alone, and is answered `Pong` |
| CcsRequests.PingIsStored | crates/ccs/src/server.rs:135-141 | an authentic ping marks the node connected and sets its heartbeat, likewise |
| CcsRequests.RegistrationIsAnswered | crates/ccs/src/server.rs:85-94 | a registration that makes a node is answered its id, address and token, and stores the name, key and token sent; one that does not changes nothing and fails |
| CcsRequests.RegistrationIsAnsweredIff | crates/ccs/src/server.rs:85-94 | over any run it fails if and only if 65,280 addresses are in use, a row has the id or the write fails, and otherwise is answered the first free address |
| CcsRequests.RelayIsAssigned | crates/ccs/src/server.rs:118-133 | an authentic request for the relay is answered the relay's address and the target asked for |
| CcsRequests.RelayAddressIsConstant | crates/ccs/src/registry.rs:327-329 | which never changes |
| CcsRequests.ListingIsAdmitted | crates/ccs/src/server.rs:96-104 | an authentic request for a listing is admitted with nothing read |
| CcsRequests.AclRequestIsApproved | crates/ccs/src/server.rs:143-146 | an authentic ACL request is approved |
| CcsRequests.AclRequestIsApplied | crates/ccs/src/server.rs:147-152 | an approved one makes its change if the write succeeds, touches nothing else and is answered `Pong` |
| CcsRequests.ChangeIsMade | crates/ccs/src/registry.rs:226-256 | each change adds or removes its one pair in its own table |
| CcsRequests.OtherStreamsStay | crates/ccs/src/server.rs:66-219 | a step moves no stream but its own, except that a restart drops them all |
| CcsRequests.RequestArrives | crates/ccs/src/server.rs:66-82 | a request arrives as sent and changes nothing by arriving; one of an unknown kind is answered `Pong` and changes nothing at all |
| CcsServer.SessionsAreConstant | crates/ccs/src/registry.rs:131-136 | while a node exists its token, name, address and key never change |
| CcsServer.GrantedSessionsLast | crates/ccs/src/server.rs:85-94 | the token that a registration is answered with opens its node, at the address answered, for as long as the node exists, and no other token does |
| CcsServer.AppliedChangesAreAuthorised | crates/ccs/src/server.rs:143-189 | an ACL change that a stream applies was validated earlier on it, and its caller is still valid or was reaped in between |
| CcsServer.TableChangesAreAuthorisedOrPosted | crates/ccs/src/web.rs:60-108 | a step that changes the ACL tables is the dashboard's, or makes the validated change of a stream |
| CcsServer.FreshIdsLeaveNoImpostor | crates/ccs/src/registry.rs:102-136 | if an id is not drawn again, a caller once valid is later valid exactly when its node exists |
| CcsClients.SpeaksIffBeats | crates/ccs/src/server.rs:84-141 | a heartbeat is recorded for a node exactly when a granted registration, or a ping or report with its token, is handled |
| CcsClients.SpeakingClientsStayConnectedIff | crates/ccs/src/server.rs:96-141 | in every interleaving a connected client whose authentic requests are handled within 60 s before each reap stays connected, with its token valid, if and only if every restart finds its row connected and every reap after a restart and before its next request comes less than 61 s after the time read back |
| CcsClients.SpeakingClientsStayConnected | crates/ccs/src/server.rs:96-141 | so it does if all writes succeed, or if there is no restart |
| CcsClients.EndpointsAreReported | crates/ccs/src/server.rs:106-116 | in every interleaving the endpoint that peers are told of a node is the latest remembered report that carried its token, and empty only if there is none since it registered or it reported that |
| CcsServer.UnauthenticRequestsChangeNothing | crates/ccs/src/server.rs:96-190 | a request that fails validation leaves the registry unchanged and is answered `Pong` |
| CcsServer.TablesAreTheStoredHistory | crates/ccs/src/registry.rs:226-256 | the ACL tables are the initial ones with exactly the stored changes made in order, those of streams and those of the dashboard |
| CcsServer.TablesAreAuthorisedIff | crates/ccs/src/web.rs:60-108 | the tables are at all times what the streams' validated changes make of the initial ones if and only if no request to the dashboard ever has an effect |
| CcsServer.DashboardNeedsNoSession | crates/ccs/src/web.rs:60-108 | one request to the dashboard changes the tables with no stream, no node and no session |
| CcsListings.PeerListsAreSeen | crates/ccs/src/server.rs:96-104 | in every run the peers answered are exactly those that the reads permit, each made in its turn between admission and answer, while no node comes, goes or changes |
| CcsListings.ListingsProgress | crates/ccs/src/registry.rs:194-224 | a peer list in progress can always read on, and is answered after at most as many reads as there are nodes, and three |
| CcsListings.OnlyDashboardDisturbs | crates/ccs/src/server.rs:96-104 | while a peer list holds the lock, only the dashboard changes the database, and only the ACL tables |
| CcsListings.ListingsWereBegun | crates/ccs/src/server.rs:96-104 | every peer list in progress was admitted by a step that validated it, and has held the lock since |
| CcsListings.UndisturbedPeerList | crates/ccs/src/server.rs:96-104 | if the tables stay the same meanwhile, the peers answered are those that the caller may see, from admission to answer |
| CcsListings.DisturbedPeerListIff | crates/ccs/src/web.rs:99-108 | with one change of the dashboard meanwhile, they are those of before or after it if and only if it does not remove the last rule after the listing found rules and before it looked for the caller's, who saw somebody |
| CcsListings.ListingTears | crates/ccs/src/registry.rs:194-224 | in any state in which one rule lets a caller see somebody, its peer list can be answered with nobody although it sees somebody all the time |
| CcsListings.TornPeerList | crates/ccs/src/registry.rs:194-224 | such a run of the whole server, from an empty registry with one rule |
| CcsListings.AclListingsAreRead | crates/ccs/src/server.rs:191-206 | a listing of the ACL has the groups of one state and the rules of a later one, both between admission and answer |
| CcsListings.DisturbedAclListing | crates/ccs/src/server.rs:191-206 | with one change of the dashboard meanwhile it is what the tables were before or after it |
| CcsListings.AclListingTears | crates/ccs/src/server.rs:191-206 | with two it can be what the tables never were |

## Left out

- Sockets, QUIC, TLS, task scheduling and send errors: libraries and I/O; a packet's fan-out is emitted in one step with the collection of its targets, since nothing reads the tables between.
- JSON encoding of messages and the order of rows in the ACL listing and in peer lists: messages are datatypes and listings are sets.
- SQL text, prepare and row-decoding errors, and a reload that fails: a write succeeds or fails as a whole and reads succeed.
- Randomness of ids and tokens: they are inputs, and freshness is assumed only where a property names it.
- A wall clock that is set back, and underflow of an instant: readings are unbounded and do not decrease.
- Bytes that are not UTF-8: payloads are text, so two payloads that decode alike are one.
- IPv6 flow labels and scope ids in socket addresses.
- Cryptography, WireGuard set-up, NAT traversal, the dashboard's pages and the CLI's other commands: wrappers, process spawning and presentation. What the dashboard writes is modelled; what it lists (`web.rs:38-52`) is `GetPeers` without an id and `ListAcl`.
- The order in which waiting tasks get the registry's lock: any task may get it as soon as those that hold it allow it.
