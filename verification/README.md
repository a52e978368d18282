# vnt verification model

A Dafny model of the stateful core of the vnt virtual network: the server's lease table and session
machine, the client's replica of it, registration with several servers in two phases, the
peer-to-peer and federation route tables, forward error correction, and the packet pipeline on the
offset buffer.  `dafny verify dfyconfig.toml` checks everything.

## How it is organised

| file | subject |
|---|---|
| `Base.dfy` | options, results, IPv4 addresses, the address plan of one network |
| `LeaseState.dfy`, `Loader.dfy` | the lease table as values: allocation, session end, expiry, loading; what every operation keeps |
| `NetworkState.dfy` | the same operations in place, on the server's object |
| `Sessions.dfy`, `Leases.dfy` | the server as a state machine over registration, confirmation, drop, expiry, deletion and time; safety over whole runs |
| `RegistrationOutcome.dfy` | what a registration, a session's end and a lease's end come to, in terms of the tables alone |
| `ControlServer.dfy` | the control service and its handlers, each operation one step of that machine |
| `ClientList.dfy`, `DeltaSync.dfy`, `StaleCopy.dfy` | delta replication to a client over a lossy ordered channel; what the copy keeps of addresses nobody holds |
| `ServerInfo.dfy` | the client's nodes per server and the flat list merged from them |
| `Coordinated.dfy`, `CoordinatedProgress.dfy` | two-phase registration with several servers: what each step keeps, how an attempt ends, and that it succeeds where all goes well |
| `RouteTable.dfy` | the peer-to-peer route table and its three maps |
| `Federation.dfy`, `FederationAnswers.dfy` | the best-five routes over peer servers; what one answer leaves of each address |
| `FecGroup.dfy`, `FecCompletion.dfy`, `FecDecoder.dfy`, `FecEncoder.dfy`, `FecTransfer.dfy` | error-correction groups on both sides, and a batch from one side to the other |
| `Packet.dfy`, `Transmission.dfy`, `Pipeline.dfy`, `PipelineSteps.dfy` | header bits and time-to-live, the offset buffer, the transformations as values and in place |
| `PortMapping.dfy` | port mappings as text |

Objects that the program updates in place are classes whose methods are proved against functions on
their value (`View()`); the laws are lemmas about those functions and about runs of steps.  Where the
program walks a hash map, the order is left open.  A `NetworkState` operation, a lease clean-up and a
route expiry are one step each, although the program releases a lock in the middle of some of them
(vnts/src/server/network_state_provider.rs:252-278, vnts/src/server/control_server/service.rs:422-430,
vnt/vnt-core/src/tunnel_core/p2p/route_table.rs:233-268).  `RemoveDevicesKeepsInvIff` says what would
go wrong if a device came back between collecting and removing.  Counters are unbounded; random ids
are assumed fresh.  LZ4, the cipher, the error-correction wire format, Reed-Solomon reconstruction and
the printing of socket addresses are parameters with inverse hypotheses.

## Where the code does less than one might expect

Each has a lemma with the exact condition; the lemmas named `...Example` give an input.

- The address index keeps a stale key when a device that has an address is served another one by the
  scan (`RegisterKeepsIndexExactIff`, over runs `RunKeepsExactIff`, `StaleKeyExample`), and no later
  step of any kind frees the address again (`StaleForEver`).
- A batch removal does not clean the session maps, so it is right only for disconnected devices
  (`RemoveDevicesKeepsInvIff`, `RemovedWhileConnectedExample`).
- The loader keeps a stored address that is unusable or held twice (`LoadedInvIff`,
  `BadRecordsExample`).
- A client that keeps its version over a restart of the server can stay wrong about a device
  (`AnswerRepairsEveryCopyIff`, `RestartExample`).
- The server announces no removal: an address shown online whose holder is gone stays so until the
  client stops its network or somebody takes the address (`UnheldAnswerIff`, `UnheldRunIff`,
  `ReleasedExample`).
- With variation allowed, servers asked in turn may grant different addresses (`VariedWishIsMetIff`).
- A punched route appended under the default time breaks the order of a list whose last route is
  slower, and the slower of two direct routes is then chosen (`AddOwnerRoute`,
  `AppendKeepsSortedIff`, `AppendExample`).
- A peer's answer that names one address twice can drop another peer's route and keep a slower one
  (`AnswerIsExact`, `RepeatedAddressExample`).
- An original that arrives intact is lost when its arrival sets off a reconstruction that fails: it
  is not handed out, and its slot is taken, so a copy of it is ignored (`OriginalHandedOutIff`,
  `FailedReconstructionLosesAnOriginal`).
- Originals rebuilt with an arrival are passed up before it, and the first that cannot be decompressed
  or is refused above ends the loop, so the intact original behind it is lost
  (`PipelineRoundTripIff`, `SiblingCostsAnOriginal`).
- A reconstruction that yields an unreadable original fills the group without finishing it, and from
  then on every packet of the group is ignored (`UnreadableFillsGroup`, `StuckForEver`).
- Sender and receiver feed Reed-Solomon different flag bytes for the same packet
  (`ReceiverShardAgreesIff`), and a rebuilt original whose flags come out wrong keeps or loses its
  compression mark, and with it its content (`RebuiltContentIff`).

## Model

| member | source | states |
|---|---|---|
| LeaseState.AvailableIsLeastFreeHost | vnts/src/server/network_state_provider.rs:672-686 | the scan gives the least free host; it fails exactly when all hosts are taken, so never below 2^(32-p) - 3 index keys for p at most 30 |
| LeaseState.AllocatePlaces | vnts/src/server/network_state_provider.rs:564-670 | every granting branch writes one connected entry under a fresh stamp, for a usable address nobody else holds, and leaves all other entries and keys alone |
| LeaseState.SessionFollowsGrant | vnts/src/server/network_state_provider.rs:307-331 | moving sender and counter from the previous to the granted address keeps both session maps equal to the online addresses |
| LeaseState.RegisterKeepsInv | vnts/src/server/network_state_provider.rs:307-331 | a granted registration keeps the whole table invariant and routes the address to the new channel |
| LeaseState.OfflineKeepsInv | vnts/src/server/network_state_provider.rs:488-512 | the end of a confirmed session keeps the table invariant |
| LeaseState.RemoveDeviceKeepsInv | vnts/src/server/network_state_provider.rs:233-245 | removing one device, connected or not, keeps the table invariant |
| LeaseState.ReleaseIsRemoval | vnts/src/server/network_state_provider.rs:252-278 | releasing a pre-registration is removing the device if the session is its current one, else nothing |
| LeaseState.RemoveDevicesKeepsInvIff | vnts/src/server/network_state_provider.rs:533-545 | a batch removal keeps the table consistent if and only if nobody in the batch is connected |
| LeaseState.RemovedWhileConnectedExample | vnts/src/server/network_state_provider.rs:533-545 | removing a connected device in a batch leaves its channel behind |
| LeaseState.RegisterKeepsIndexExactIff | vnts/src/server/network_state_provider.rs:605-669 | no stale index key arises if and only if the scan does not serve a device that already has an address |
| LeaseState.StaleKeyExample | vnts/src/server/network_state_provider.rs:653-669 | a concrete request that leaves a stale index key |
| Loader.LoadedInvIff | vnts/src/server/network_state_provider.rs:690-739 | a loaded table is consistent if and only if the stored addresses are usable and distinct |
| Loader.LoadedIsExact | vnts/src/server/network_state_provider.rs:690-739 | exactly the recorded devices are loaded, disconnected, with a lease from the moment of loading; only usable addresses are indexed |
| Loader.BadRecordsExample | vnts/src/server/network_state_provider.rs:690-739 | records that share an address, or hold the gateway's, load into an inconsistent table |
| NetworkStates.NetworkState.FromRecords | vnts/src/server/network_state_provider.rs:741-759 | the loader's loop builds that table |
| NetworkStates.NetworkState.FindAvailableIp | vnts/src/server/network_state_provider.rs:672-686 | the loop returns the least free host or none if there is none |
| NetworkStates.NetworkState.AllocateIp | vnts/src/server/network_state_provider.rs:564-670 | the branches in place equal the value-level allocation; a refusal changes nothing |
| NetworkStates.NetworkState.AllocateIpAndGetEntry | vnts/src/server/network_state_provider.rs:307-331 | registration in place equals the value-level one, keeps validity, and meets a fixed wish exactly |
| NetworkStates.NetworkState.OfflineIp | vnts/src/server/network_state_provider.rs:192-216 | only the device's current session takes it offline; validity is kept |
| NetworkStates.NetworkState.ReleasePreRegisteredIp | vnts/src/server/network_state_provider.rs:252-278 | only the device's current session releases it; validity is kept |
| NetworkStates.NetworkState.RemoveDeviceFromMemory | vnts/src/server/network_state_provider.rs:233-245 | removes entry, index key and session maps of the device |
| NetworkStates.NetworkState.CollectExpiredDevices | vnts/src/server/network_state_provider.rs:514-531 | lists exactly the disconnected devices whose lease is over |
| NetworkStates.NetworkState.RemoveDevices | vnts/src/server/network_state_provider.rs:533-545 | the loop removes exactly the listed devices and their keys under one version bump |
| NetworkStates.NetworkState.ChangedClientSimpleList | vnts/src/server/network_state_provider.rs:410-453 | answers a poll with nothing, the changes, or everything, without the poller itself |
| Sessions.DropIsLocal | vnts/src/server/control_server/service.rs:786-816 | a dropped session changes the table if and only if it is its device's current one, and then that device only |
| Sessions.NextKeepsInv | vnts/src/server/control_server/service.rs:255-816 | every step of the server keeps table, sessions and clock consistent |
| RegistrationOutcomes.KnownDeviceOutcome | vnts/src/server/network_state_provider.rs:573-603 | a known device that asks for nothing or its own address keeps address and counter; with no address yet it gets the least free host or is refused if there is none |
| RegistrationOutcomes.OtherRequestOutcome | vnts/src/server/network_state_provider.rs:605-669 | any other request gets the address it names if that is possible, the matching refusal if it insists on an impossible one, else the least free host, refused only if there is none; the counter is the one it brings |
| RegistrationOutcomes.SessionEndIff | vnts/src/server/control_server/service.rs:786-816 | after the end of its session a device keeps address, counter and a lease from then on if and only if it registered normally or its confirmation was saved; else nothing of it is left |
| RegistrationOutcomes.PollAfterRegister | vnts/src/server/control_server/service.rs:255-316 | a poll right after a normal registration is answered for the granted address, after a pre-registration not at all |
| RegistrationOutcomes.ExpiryIsExact | vnts/src/server/network_state_provider.rs:514-545 | clean-up takes exactly the devices that have been disconnected for as long as the lease |
| RegistrationOutcomes.LeaseEndsIff | vnts/src/server/network_state_provider.rs:514-531 | a disconnected device goes with the next clean-up once the lease has passed, and not before |
| RegistrationOutcomes.DeletionIsExact | vnts/src/server/control_server/service.rs:644-656 | a deletion takes exactly the named device unless it is connected |
| RegistrationOutcomes.VersionCountsChanges | vnts/src/server/network_state_provider.rs:488-670 | the version goes up by one exactly in the steps that change some device's entry |
| Leases.ReachableIsSafe | vnts/src/server/network_state_provider.rs:487-670 | in every reachable state addresses are usable, unshared and indexed back, and both session maps hold exactly the online addresses |
| Leases.FixedWishIsExact | vnts/src/server/network_state_provider.rs:607-651 | a wish without variation yields exactly the wished address, granted if and only if held already or without objection |
| Leases.VariedWishIsMetIff | vnts/src/server/network_state_provider.rs:607-653 | a wish with variation is met if and only if it would be met without |
| Leases.NextHoldsIff | vnts/src/server/network_state_provider.rs:488-670 | one step takes an address from its holder if and only if it is one of the listed losing steps |
| Leases.HeldThroughoutIff | vnts/src/server/network_state_provider.rs:488-670 | over a whole run a device holds its address in every state if and only if no step is a losing one where it happens |
| Leases.StaleForEver | vnts/src/server/network_state_provider.rs:653-669 | the address of a stale index key is never granted again in any run |
| Leases.RunKeepsExactIff | vnts/src/server/network_state_provider.rs:605-669 | over a whole run from an exact index, the index is exact at the end if and only if no step served a device with an address another one by the scan |
| Leases.LeaseIsStable | vnts/src/server/network_state_provider.rs:573-603 | a device back before its lease ends gets its old address and counter, whatever others did in between and whatever it did itself short of asking for another address, being deleted while away, or losing its current unconfirmed pre-registration |
| Leases.OnlyOwnDropDisconnects | vnts/src/server/network_state_provider.rs:488-545 | no expiry, deletion, foreign registration or stale session disconnects a device |
| ControlServers.ControlServer.Register | vnts/src/server/control_server/service.rs:255-316 | registration is one step of the machine and opens a session for the granted address, confirmed if normal and pending if a pre-registration |
| ControlServers.ControlServer.HandleConfirmReg | vnts/src/server/control_server/handler.rs:91-132 | confirms exactly a pending session whose record was saved; otherwise nothing changes |
| ControlServers.ControlServer.DropSession | vnts/src/server/control_server/service.rs:786-816 | the end of a session is one step of the machine |
| ControlServers.ControlServer.ReleaseExpiredIps | vnts/src/server/control_server/service.rs:422-442 | clean-up is one step of the machine |
| ControlServers.ControlServer.DeleteDevice | vnts/src/server/control_server/service.rs:644-656 | refuses a connected device, else removes it |
| ControlServers.ControlServer.HandlePingTurn | vnts/src/server/control_server/handler.rs:152-175 | a poll of a confirmed session is answered for the session's own address |
| ClientList.AnswerSaysExactly | vnts/src/server/network_state_provider.rs:410-453 | an answer lists, in terms of the table, all live devices to a poller ahead, else those stamped later than the version asked for, never the poller; there is none at equal versions |
| DeltaSync.ChangesAreStamped | vnts/src/server/network_state_provider.rs:505-506 | every change of an entry carries a stamp above the previous version |
| DeltaSync.LastEntryCounts | vnt/vnt-core/src/context/mod.rs:430-435 | of several entries for one address the last counts |
| DeltaSync.AnswerIsTruthful | vnts/src/server/network_state_provider.rs:410-453 | an answer to a poll from any version is right about every live device stamped no later than it, and mentions each of them that changed after the version asked for, a full list all of them |
| DeltaSync.DeliveryKeepsAccuracy | vnt/vnt-core/src/context/mod.rs:417-441 | applying a truthful answer keeps the copy accurate; a full list makes any copy accurate |
| DeltaSync.StepKeepsSync | vnts/src/server/control_server/handler.rs:152-175 | every server step, poll, answer, loss, delivery, reconnection and reset keeps the copy accurate |
| DeltaSync.DeltaSyncIsSound | vnt/vnt-core/src/tunnel_core/server/inbound.rs:131-139 | after any run the client shows each live device stamped no later than its version as online exactly when connected |
| DeltaSync.OneRoundCatchesUp | vnt/vnt-core/src/tunnel_core/server/inbound.rs:299-316 | one undisturbed poll makes the copy right about every live device |
| DeltaSync.UpToDatePollIsSilent | vnts/src/server/control_server/handler.rs:152-175 | an up-to-date client polls from the server's own version and is answered nothing |
| DeltaSync.AnswerRepairsEveryCopyIff | vnts/src/server/network_state_provider.rs:418-437 | a poll from a given version repairs every copy at that version, with or without an answer, if and only if the poller is ahead or no live device is stamped that early |
| DeltaSync.RestartExample | vnts/src/server/network_state_provider.rs:438-452 | a consistent restarted server with the poller's own session, and a copy that its answer leaves wrong |
| StaleCopies.UnheldAnswerIff | vnts/src/server/network_state_provider.rs:410-453 | an answer leaves an address that nobody holds shown online if and only if it was and the poller was not ahead |
| StaleCopies.UnheldRunIff | vnt/vnt-core/src/context/mod.rs:417-441 | over any run in which nobody holds the address it is shown online at the end if and only if it was at the start and the network was not stopped |
| StaleCopies.ReleasedExample | vnts/src/server/network_state_provider.rs:252-278 | a poll during a pre-registration that is then released leaves the address shown online |
| ServerInfo.ServerInfoCollection.UpdateServer | vnt/vnt-core/src/context/mod.rs:342-355 | starts over with empty nodes and an empty flat list |
| ServerInfo.ServerInfoCollection.UpdateClientSimpleList | vnt/vnt-core/src/context/mod.rs:417-457 | takes over an answer for one server and leaves the flat list the merge of all |
| ServerInfo.ServerInfoCollection.Merge | vnt/vnt-core/src/context/mod.rs:442-453 | the nested loops list each known address once, online exactly if some server says so |
| ServerInfo.MergeClients | vnt/vnt-core/src/context/mod.rs:444-452 | the inner loop forms the union with online winning |
| ServerInfo.ServerInfoCollection.Clear | vnt/vnt-core/src/context/mod.rs:534-545 | forgets everything but the server list |
| ServerInfo.ServerInfoCollection.OnlineIffSomeServerSaysSo | vnt/vnt-core/src/context/mod.rs:528-533 | the flat list shows an address online exactly if some server's copy does |
| ServerInfo.ServerInfoCollection.ConnectedDeviceIsVisible | vnt/vnt-core/src/context/mod.rs:417-457 | a settled connected device of any accurate copy is visible in the flat list |
| ServerInfo.FindIpToServerIsFirstNearest | vnt/vnt-core/src/context/mod.rs:375-398 | the chosen server is the first nearest connected one that shows the address online, none only if there is none |
| ServerInfo.ChoiceIsNearest | vnt/vnt-core/src/context/mod.rs:375-398 | in terms of the nodes: the choice is listed, connected and shows the address online; no other such server has a smaller round-trip time, unmeasured counting as largest, and those listed earlier have a greater one; none only if none qualifies |
| Coordinated.StepKeepsInv | vnt/vnt-core/src/tunnel_core/server/connection_manager.rs:272-346 | every event of an attempt, with losses and other devices' steps, keeps what both sides know consistent |
| Coordinated.ConfirmOnlyAfterAllGrants | vnt/vnt-core/src/tunnel_core/server/connection_manager.rs:300-327 | when a confirmation can be sent the client has every server's grant, for the fixed address if there is one, and wherever the connection stands the device is connected there under that session |
| Coordinated.SuccessIsEverywhere | vnt/vnt-core/src/tunnel_core/server/connection_manager.rs:324-345 | success means a confirmed session for the fixed address on every server |
| Coordinated.AttemptEndsIff | vnt/vnt-core/src/tunnel_core/server/connection_manager.rs:272-346 | an ended attempt succeeded if and only if all acknowledged, was given up before confirming if and only if some server failed to grant, and while confirming if and only if all granted and some confirmation failed |
| CoordinatedProgress.WillingServersSucceed | vnt/vnt-core/src/tunnel_core/server/connection_manager.rs:272-346 | if every server grants its part, the first for the user's wish and the others for the address it gave, the attempt has a run to success |
| CoordinatedProgress.OneRefusalStopsAll | vnt/vnt-core/src/tunnel_core/server/connection_manager.rs:291-321 | one server that is not reached, refuses, or whose reply is lost keeps the attempt from ever confirming anywhere |
| CoordinatedProgress.OneLostConfirmationFails | vnt/vnt-core/src/tunnel_core/server/connection_manager.rs:324-339 | one confirmation that is not stored or not answered keeps the attempt from ever succeeding |
| CoordinatedProgress.HangupEndsSession | vnts/src/server/control_server/service.rs:786-816 | hanging up at any point leaves nothing of the device where no confirmation was stored, and its address with a running lease where one was |
| Coordinated.UnconfirmedLeavesNothing | vnts/src/server/network_state_provider.rs:252-278 | where nothing was confirmed, a closed attempt leaves no session, entry, index key or channel |
| RouteTables.UpdatedList | vnt/vnt-core/src/tunnel_core/p2p/route_table.rs:205-230 | replacing or inserting one route keeps the others in order, keys distinct and the list sorted |
| RouteTables.Bubble | vnt/vnt-core/src/tunnel_core/p2p/route_table.rs:206-220 | the two bubble loops move the replaced route to a fitting place and nothing else |
| RouteTables.InsertNew | vnt/vnt-core/src/tunnel_core/p2p/route_table.rs:222-230 | the search loop inserts a new route at a fitting place |
| RouteTables.RouteTable.AddOwnerRoute | vnt/vnt-core/src/tunnel_core/p2p/route_table.rs:172-184 | keeps the maps in agreement; keeps lists sorted if and only if the key is known or the last route is no slower than the default |
| RouteTables.RouteTable.AddRoute | vnt/vnt-core/src/tunnel_core/p2p/route_table.rs:186-231 | keeps the maps in agreement and every list sorted, changing one route; refuses a relayed route to an unknown peer |
| RouteTables.RouteTable.AddRouteIfAbsent | vnt/vnt-core/src/tunnel_core/p2p/route_table.rs:112-119 | leaves a known peer and a relayed route alone; else the route is the peer's only one, with its time and, if the key had none, its owner |
| RouteTables.RouteTable.RemoveRoute | vnt/vnt-core/src/tunnel_core/p2p/route_table.rs:134-153 | removes one route from all three maps |
| RouteTables.RouteTable.RemoveOldestRoute | vnt/vnt-core/src/tunnel_core/p2p/route_table.rs:233-268 | removes exactly the routes last refreshed at or before the given time, from all three maps |
| RouteTables.RemovedRoutes | vnt/vnt-core/src/tunnel_core/p2p/route_table.rs:251-267 | removing any set of routes keeps the maps in agreement and removes exactly that set, with exactly its times and owner entries |
| RouteTables.RemovedLists | vnt/vnt-core/src/tunnel_core/p2p/route_table.rs:233-268 | each list keeps exactly its other routes |
| RouteTables.RouteTable.GetByIdIsFastest | vnt/vnt-core/src/tunnel_core/p2p/route_table.rs:162-170 | with sorted lists the choice is the fastest direct route, else the fastest of all |
| RouteTables.AppendKeepsSortedIff | vnt/vnt-core/src/tunnel_core/p2p/route_table.rs:172-184 | when appending keeps the order |
| RouteTables.AppendExample | vnt/vnt-core/src/tunnel_core/p2p/route_table.rs:162-184 | for any default time, a sorted list whose order an append breaks and from which the slower direct route is then chosen |
| Federation.BestIsBestFive | vnts/src/server/peer_server.rs:609-610 | sorting and cutting selects the five fastest, fastest first |
| Federation.BestHasLeastSums | vnts/src/server/peer_server.rs:119-133 | in terms of the latencies: no route left out has a smaller sum of the peer's measured latency, 10 if none, and the client's than one that is kept |
| Federation.ReportReplacesOne | vnts/src/server/peer_server.rs:600-608 | the peer's entry is replaced or added, the others stay, no peer twice |
| FederationAnswers.AnswerIsExact | vnts/src/server/peer_server.rs:576-622 | lists stay non-empty, at most five, one per peer; an unlisted address loses the peer's routes only; a listed one ends with the best five of its old routes and the peer's last report if and only if the list had room or named the peer, or the peer ends no slower than some other, or never was faster before |
| FederationAnswers.ReportsAreBestIff | vnts/src/server/peer_server.rs:589-613 | the same for one list after any sequence of reports |
| FederationAnswers.RepeatedAddressExample | vnts/src/server/peer_server.rs:589-613 | an answer that names an address twice and costs another peer its route |
| Federation.PeerServerManager.HandleClientInfoResponse | vnts/src/server/peer_server.rs:570-625 | the loops compute that answer by answer and record every network |
| Federation.CodesAreNamed | vnts/src/server/peer_server.rs:576-578 | the recorded networks of an answer are those it names |
| Federation.TotalIsLowBits | vnts/src/server/peer_server.rs:130-132 | a total is what 32 bits hold of the sum |
| Federation.PeerServerManager.EndPeer | vnts/src/server/peer_server.rs:285-293 | after a peer's loop every address of every network has exactly its other routes |
| Federation.CleanedIsExact | vnts/src/server/peer_server.rs:627-645 | the clean-up of a network takes exactly the peer's routes, keeps the order of the others and drops the lists that run empty |
| Federation.PeerServerManager.CleanupRoutes | vnts/src/server/peer_server.rs:627-645 | the recorded networks lose exactly the peer's routes |
| Federation.CleanupIsComplete | vnts/src/server/peer_server.rs:233-293 | cleaning the recorded networks suffices, because all routes of a peer lie in them |
| Federation.PeerServerManager.FindBestRoute | vnts/src/server/peer_server.rs:719-760 | the loop returns the first connected peer of least total latency, none only if none is connected, with the local latency; without overflow the total is the peer's measured latency, 10 if none, plus the client's plus 2 |
| FecGroups.ReceiveClosesWhatItHandsOut | vnt/vnt-core/src/fec/decoder.rs:65-252 | one reception hands out distinct open indices and closes them |
| FecGroups.NoIndexTwice | vnt/vnt-core/src/fec/decoder.rs:65-252 | for any packets and outcomes no index is handed out twice in a group's lifetime |
| FecGroups.RefusalIsExact | vnt/vnt-core/src/fec/decoder.rs:95-125 | a redundancy packet is refused without effect exactly if its counts exceed fifty, its index lies beyond them, or they differ from the group's |
| FecGroups.OriginalHandedOutIff | vnt/vnt-core/src/fec/decoder.rs:123-179 | a new original of an open group is handed out, behind the originals rebuilt with it, if and only if its arrival sets off no reconstruction that fails |
| FecGroups.FailedReconstructionLosesAnOriginal | vnt/vnt-core/src/fec/decoder.rs:160-179 | two arrivals after which an intact original is lost |
| FecGroups.FailureKeepsShards | vnt/vnt-core/src/fec/decoder.rs:207-228 | a reconstruction that fails as a whole leaves the group as it was |
| FecGroups.StuckForEver | vnt/vnt-core/src/fec/decoder.rs:226-247 | a group left filled by an unreadable reconstructed original ignores every later packet of its own |
| FecGroups.OvercountedIsNotDone | vnt/vnt-core/src/fec/decoder.rs:40-60 | a group that counted more originals than are then announced is not done |
| FecCompletion.ReceiveTracks | vnt/vnt-core/src/fec/decoder.rs:84-199 | with a well-formed sender the group's state is determined by what has arrived |
| FecCompletion.AnyKOfNComplete | vnt/vnt-core/src/fec/decoder.rs:182-252 | done exactly when a redundancy packet and k distinct packets arrived; then each original was handed out once |
| FecDecoders.FecDecoder.Receive | vnt/vnt-core/src/fec/decoder.rs:65-179 | a packet acts on its own group only, others go at most in a due clean-up; an index above the limit is refused first |
| FecDecoders.FecDecoder.CleanupOldGroups | vnt/vnt-core/src/fec/decoder.rs:287-301 | keeps timely groups, at most 1000, the latest |
| FecDecoders.AcceptedSurvives | vnt/vnt-core/src/fec/decoder.rs:153-179 | after a new shard its group survives every clean-up within three seconds, unless a thousand groups refreshed no earlier are kept, and none later |
| FecDecoders.RebuildMissing | vnt/vnt-core/src/fec/decoder.rs:232-247 | the loop rebuilds the missing originals in order or stops at an unreadable one |
| FecEncoders.AddingSettles | vnt/vnt-core/src/fec/encoder.rs:77-110 | adding a packet keeps the stream partitioned into batches with unique labels |
| FecEncoders.FlushKeepsPartition | vnt/vnt-core/src/fec/encoder.rs:152-159 | finishing a batch keeps the stream partitioned |
| FecEncoders.FecEncoder.Encode | vnt/vnt-core/src/fec/encoder.rs:54-110 | labels a packet with group and index, finishes the tenth and hands the batch over if the queue has room, refuses a payload above 65535 bytes |
| FecEncoders.FecEncoder.FlushTimeouts | vnt/vnt-core/src/fec/encoder.rs:146-162 | finishes exactly the overdue non-empty batches |
| FecEncoders.OverdueIff | vnt/vnt-core/src/fec/encoder.rs:146-162 | a batch opened behind a finished one is overdue twenty milliseconds after that and not before, an empty one never |
| FecEncoders.FecEncoder.FirstPacketState | vnt/vnt-core/src/fec/encoder.rs:77-84 | the first packet to a destination opens its group 0 and waits at most twenty milliseconds |
| FecEncoders.EncodeParity | vnt/vnt-core/src/fec/encoder.rs:186-222 | the loops pad to the longest shard and label the coder's rows after the originals with both counts |
| FecEncoders.PaddingFillsWithZeros | vnt/vnt-core/src/fec/encoder.rs:197-202 | every shard is brought to the length of the longest with zeros behind its own bytes |
| FecEncoders.BatchPassesChecks | vnt/vnt-core/src/fec/decoder.rs:77-120 | every packet of a batch passes the decoder's range checks |
| FecTransfers.EncodedIsGiven | vnt/vnt-core/src/fec/encoder.rs:75-118 | what is encoded is on record under the label it is sent with, for good |
| FecTransfers.SentIsEmitted | vnt/vnt-core/src/fec/encoder.rs:186-222 | all that the encoder sends for a finished batch, original or redundant, is a well-formed packet of that group |
| FecTransfers.BatchReachesReceiver | vnt/vnt-core/src/fec/decoder.rs:65-252 | from encoder to receiver: any k packets of a finished batch with redundancy among them complete it, and every packet handed out, direct or rebuilt, is the content encoded under its label, a rebuilt one with its type byte |
| Packets.NonceSharedIff | vnt/vnt-core/src/crypto/chacha20_poly1305.rs:43-64 | two packets share a nonce if and only if type byte, addresses and the low 24 bits of the sequence number agree |
| Packets.RelayLowersTtl | vnt/vnt-core/src/tunnel_core/p2p/inbound.rs:87-116 | the header's part of the decision: a packet can be passed on if and only if it has two steps left and passes a client's checks of ids and maximum; it then differs in the current time-to-live only, one less and positive |
| Packets.PathsEnd | vnts/src/protocol/ip_packet_protocol.rs:66-74 | a path of any hops is survived if and only if it is shorter than the time-to-live and each client's checks pass where it is met, for any header |
| Packets.PathBound | vnts/src/server/peer_server.rs:504-518 | whatever its header, a packet makes at most T - 1 moves between clients, at most two from a server and none there if T is at most one |
| Packets.MetricCountsRelays | vnt/vnt-core/src/tunnel_core/p2p/inbound.rs:181 | the receiver's metric is the number of relays plus one |
| Transmission.TransmissionBytes.RetreatHead | vnt/vnt-core/src/protocol/transmission.rs:123-135 | uncovers the bytes before the packet if there is room |
| Transmission.TransmissionBytes.Resize | vnt/vnt-core/src/protocol/transmission.rs:163-167 | new length; what the store held stays, what lies beyond it gets the given value |
| Transmission.TransmissionBytes.ExtendEnd | vnt/vnt-core/src/protocol/transmission.rs:168-173 | room at the end, the packet kept |
| Transmission.TransmissionBytes.ShrinkEnd | vnt/vnt-core/src/protocol/transmission.rs:174-180 | drops bytes from the end, at most all |
| Pipeline.CompressesIff | vnt/vnt-core/src/compression/lz4_compression.rs:20-42 | compression takes place and is marked if and only if it is on, the content has at least 256 bytes and gets shorter; no packet gets longer |
| Pipeline.OutboundRefusesIff | vnt/vnt-core/src/fec/encoder.rs:60-62 | a packet is refused if and only if it is to be protected and two length bytes could not tell its length |
| Pipeline.WireForm | vnt/vnt-core/src/tunnel_core/outbound.rs:235-243 | what goes on the wire, byte for byte: content packed if due, wrapped, sealed under the packet's own nonce, and in the header only the two flags |
| Pipeline.DecryptUndoesEncrypt | vnt/vnt-core/src/crypto/chacha20_poly1305.rs:43-103 | decryption undoes encryption under any change of the time-to-live, because the nonce leaves it out |
| Pipeline.UnwrapUndoesWrap | vnt/vnt-core/src/fec/decoder.rs:130-136 | unwrapping undoes wrapping under any change of the time-to-live |
| Pipeline.DecompressUndoesCompress | vnt/vnt-core/src/compression/lz4_compression.rs:20-71 | decompression undoes compression, whichever branch compression took |
| Pipeline.PipelineRoundTripIff | vnt/vnt-core/src/tunnel_core/outbound.rs:209-248 | for all settings and any time-to-live byte on arrival, what was sent comes out unchanged but for that byte; an unseen original is lost if and only if its index is out of range, its arrival sets off a reconstruction that fails, or one rebuilt with it cannot be decompressed or is refused above |
| Pipeline.LastIsReachedIff | vnt/vnt-core/src/tunnel_core/p2p/inbound.rs:148-157 | the receive loop reaches its last packet if and only if it passes up all before it without an error |
| Pipeline.ForgedIsRejected | vnt/vnt-core/src/crypto/chacha20_poly1305.rs:89-103 | what fails the authenticity check or does not parse is passed up in no form |
| Pipeline.SiblingCostsAnOriginal | vnt/vnt-core/src/tunnel_core/server/inbound.rs:189-206 | an intact original that is handed out by its group and lost behind a rebuilt one |
| Pipeline.RebuiltContentIff | vnt/vnt-core/src/fec/decoder.rs:254-285 | a rebuilt original comes out with its content if and only if its flags tell rightly whether it is compressed, or it decompresses to itself |
| Pipeline.FromDeviceBytes | vnt/vnt-core/src/tunnel_core/outbound.rs:222-233 | the header an outgoing device packet starts with, byte for byte |
| Pipeline.DeviceToDevice | vnt/vnt-core/src/tunnel_core/p2p/inbound.rs:136-164 | a device packet reaches its addressee if and only if it passes at most four relays and no client's own-address check; it then comes out with type, addresses and content if and only if error correction hands it out and no original rebuilt with it stops the receive loop |
| Pipeline.ReceiverShardAgreesIff | vnt/vnt-core/src/fec/decoder.rs:142-150 | the receiver's stored shard equals the sender's if and only if the error-correction flag was set before wrapping |
| PipelineSteps.CompressInPlace | vnt/vnt-core/src/compression/lz4_compression.rs:20-42 | the buffer version computes the compressed packet |
| PipelineSteps.WrapInPlace | vnt/vnt-core/src/fec/encoder.rs:112-126 | the buffer version computes the wrapped packet |
| PipelineSteps.EncryptInPlace | vnt/vnt-core/src/crypto/mod.rs:27-36 | extending and sealing in place computes the encrypted packet |
| PipelineSteps.DecryptInPlace | vnt/vnt-core/src/crypto/mod.rs:37-46 | opening and shrinking in place computes the decrypted packet; after a failed check header and length stay, the payload is whatever the cipher left |
| PipelineSteps.DecompressInPlace | vnt/vnt-core/src/compression/lz4_compression.rs:46-71 | the buffer version computes the decompressed packet |
| PipelineSteps.PassUpEach | vnt/vnt-core/src/tunnel_core/p2p/inbound.rs:148-157 | the receive loop decompresses and passes up the packets in order until one fails |
| PipelineSteps.Ipv4Outbound | vnt/vnt-core/src/tunnel_core/outbound.rs:209-245 | the whole way out in the offset buffer: header into the head room, to the packet's own destination inside the network and to its next hop outside, silent drop without a route, transformations |
| PipelineSteps.SendFromDevice | vnt/vnt-core/src/tunnel_core/outbound.rs:209-245 | a device packet goes to the address in its bytes 16 to 19 inside the network, to that address's next hop outside, and nowhere without one; the bytes sent are those of `DeviceToDevice` |
| PortMappings.RoundTripIff | vnt/vnt-core/src/port_mapping/mod.rs:29-100 | parsing a printed mapping gives it back if and only if it is for TCP or UDP with a non-zero port, for any host string |
| PortMappings.ProtocolIgnoresCase | vnt/vnt-core/src/port_mapping/mod.rs:94-100 | the protocol is read in any mixture of cases |
| PortMappings.ReadPortIff | vnt/vnt-core/src/port_mapping/mod.rs:70-75 | a port is read with or without a plus sign, and only up to 65535 |
| PortMappings.ReadErrors | vnt/vnt-core/src/port_mapping/mod.rs:47-63 | which complaint a text draws up to its source address |
| PortMappings.ReadTargetErrors | vnt/vnt-core/src/port_mapping/mod.rs:59-75 | which complaint it draws behind that |
| PortMappings.ReadingIsStable | vnt/vnt-core/src/port_mapping/mod.rs:43-84 | a mapping read from any text prints to a text that reads as the same mapping |

## Left out

- Names, versions, key signatures, latencies and connection times of a device entry: display data that no modelled branch reads, except the federation's latencies, which are parameters there.
- Network creation and deletion, secrets and the white list: they only decide whether a registration reaches the lease table.
- The database: it appears as the list of loaded records and as the outcome of a save.
- More than one lifetime of a `NetworkState` in one run: the synchronisation laws hold within one; `AnswerRepairsEveryCopyIff` says what an answer does for a copy of an earlier one.
- Interleaving inside one server operation: each is one step.
- Concurrency of the multi-server client: the attempt is a state machine over its events, not a loop over managers.
- A second session of the same device during a coordinated attempt, and an attempt without a fixed address beyond `Leases.VariedWishIsMetIff`.
- FecTransfers.BatchReachesReceiver: assumes that a reconstruction yields the sender's shards except for the flags byte; it is an outcome given to the model, which may also fail, and the receiver does not pad the shards it feeds to it.
- FecDecoders.FecDecoder.CleanupOldGroups: removes the oldest group repeatedly where the program sorts once; which of several equally old groups goes is open in both.
- Wrap-around of 64-bit versions, group numbers and session ids.
- Growth policy of the byte store (capacity): `put` and `set_len`, which depend on it.
- Federation.PeerServerManager.EndPeer: does not model the cancellation of an outbound peer task, which skips the clean-up.
- Choice between a remote and the local path for one packet, broadcasts, ICMP replies and RPC.
- Packets of the QUIC type, which are neither encrypted nor compressed, and what the layer above does with a packet: whether it refuses the k-th one is a parameter.
- Transports, TLS, QUIC, TUN device, hole punching, user-space TCP/IP, consoles and command line.
- Sender identities of error-correction batches and the parity transport: only labels, counts and padding are modelled.
