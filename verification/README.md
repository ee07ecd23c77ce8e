# Sensor mesh: verified model

A Dafny 4.11 model of the firmware of a battery-powered sensor node. Nodes form a mesh over Bluetooth Low Energy: they
flood packets to each other and to a hub, obtain an id from the hub, sleep together, update themselves over the air, and
discover each other's GATT services into linked lists that share four memory pools.

`dafny verify dfyconfig.toml` checks the whole project.

## How the modules fit together

| files | what they hold |
|---|---|
| `Types`, `DataPacket` | machine integers; the packet on the heap, its wire format and the allocation counter (`main/mesh_data_packet.c`) |
| `NodeSpec` | one node as a value, one function per event of `main/mesh_node.c`, `main/mesh_main.c`, `main/mesh_ota_update.c` |
| `SensorNode` | the code of those files as a class that updates its variables in place, proved to do what `NodeSpec` says |
| `NodeProps`, `BootProps` | what every run of one node keeps: provisioning, accounting, at-most-once handling, updates and settings across reboots |
| `Protocol` | the same node from outside, in packet types and payload bytes: whom it answers and with what, when it announces itself, what it repeats, how a boot ends |
| `Network` | many nodes, a hub, links and a multiset of messages under way; one action at a time |
| `Termination`, `Strays`, `Flood`, `SleepWave`, `Provisioning` | what every run of the network keeps |
| `GattSpec` | the discovered tree of a peer, the pools and the discovery callbacks of `main/mesh_peer.c` as functions |
| `Callbacks`, `Arrivals`, `PoolBlocks` | what holds of one peer's discovery whatever the peer and the stack report, and whatever other peers do to the shared pools meanwhile |
| `Server`, `Discovery` | what holds against a GATT server with a well-formed attribute table (Bluetooth Core Specification, Vol 3, Part G, sections 4.4.1, 4.6.1 and 4.7.1) |
| `TableSpec`, `TableProps` | the table of peers as a value, one function per operation; what every run of adds, deletions, discoveries and callbacks of all peers keeps |
| `BlockLists`, `PeerStore`, `Peers` | the lists of `main/mesh_peer.c` as pool blocks linked by block numbers, with the add, delete, search and callback code, proved to do what `GattSpec` and `TableSpec` say |

The specification functions (`NodeSpec`, `GattSpec`, `TableSpec`) take the same branches as the source. What they do is
stated apart from them, in values on the air and statuses returned, in `Protocol`, `Callbacks` and `TableProps`; what
follows for whole runs is proved about them in the other modules. The classes are proved to do the same step by step:
`SensorNode.Node` event by event, `Peers.Table` operation by operation on the table of all peers. What `Callbacks` and
`Discovery` say of one peer between two of whose callbacks others use the pools holds of every peer of such a table:
`TableProps.SeenIsARun` and `TableProps.MovesArePlayed`.

## Where the code does not do what it is for

Each of these is kept as it is in the source. One lemma shows the failure, at a concrete input where a single one says
enough, and another says when the code is right.

- A node-connected response for another node that has the same id is forwarded without a look at its ttl
  (`main/mesh_node.c:343-352`), and the 8-bit ttl then wraps from 0 to 255 (`main/mesh_node.c:394`). This is the only
  way a ttl wraps: `Termination.WrapsOnlyMisaddressedResponses`, `Termination.DeliveriesBounded`. Two linked nodes pass
  such a packet back and forth for ever, in whatever network, if both have the id it is sent to, as two unprovisioned
  neighbours do; but also if only one has and the ttl at it is even, so that the other, a forwarder, never sees it used
  up: `Termination.FloodsNeedNotEnd`. For the two alone that is exact: `Termination.PairEndsIff`. In any network floods
  end if no awake node but its addressee has or may get the id a response is sent to: `Strays.FloodsEndUnlessAstray`.
- A service with room for characteristics that has none is asked for them again and again
  (`main/mesh_peer.c:430-442`): `Discovery.HollowNeverEnds`, `Discovery.EndsIffNoHollowService`.
- `peer_chr_add` and `peer_dsc_add` drop what follows the place of insertion (`main/mesh_peer.c:186`,
  `main/mesh_peer.c:376`); the blocks are lost: `Arrivals.ChrsCutOff`, `Arrivals.DscsCutOff`;
  `Arrivals.ListedAsReportedIffInOrder`, `Arrivals.DscsListedIffAscending`, `TableSpec.CapacityKeptIffNoneCutOff`.
- `peer_chr_add` looks a characteristic up by its definition handle in a list ordered by value handle
  (`main/mesh_peer.c:294`, `main/mesh_peer.c:358`) and so adds a known one again: `Arrivals.KnownChrIsAddedAgain`.
- A characteristic with value handle 0 makes a discovery stop without completion being reported
  (`main/mesh_peer.c:217`, `main/mesh_peer.c:247`): `Callbacks.SilentOnHandleZero`, `Callbacks.ReportedUnlessHandleZero`.
- A boot that finds the store without free pages or of another version erases it (`main/mesh_main.c:881-886`), and with it
  a request to install that was promised, the address and all settings: `BootProps.EraseLosesOffer`,
  `BootProps.InstallLeftOnlyByDownloadOrErase`, `BootProps.StoredOfferSurvives`.
- The reply to an update offer promises the installation even if the request or the address could not be written
  (`main/mesh_main.c:619-636`). Without the request nothing is installed: `BootProps.PromiseCanBreak`. With the request
  but no address every later boot fails its address check (`main/mesh_ota_update.c:81-85`), and the node crashes over and
  over: `BootProps.PromiseEndsInCrashLoop`. Exactly when the promise is kept: `BootProps.PromiseKeptWhenWritten`,
  `BootProps.AcceptedOfferGetsInstalled`.
- A configuration packet is acknowledged even if its value could not be written (`main/mesh_main.c:585-593`):
  `BootProps.AcknowledgementCanBeWrong`, `BootProps.AcknowledgedButNotStored`.
- A packet is never freed when an offer meets a store that does not open (`main/mesh_main.c:615-618`):
  `NodeProps.LeakHappens`; `NodeProps.PacketAccounting` counts these.
- A sleep request addressed to a node that has marked its key stops there (`main/mesh_node.c:353-355`):
  `SleepWave.IgnoringNodeExists`, `SleepWave.WholeComponentSleepsIffNoneIgnores`.

## Model

| member | source | states |
|---|---|---|
| DataPacket.WireRoundTrip | main/mesh_data_packet.c:10-38 | unpacking inverts packing for every payload that fits the buffer, whatever follows in it |
| DataPacket.WireLayout | main/mesh_data_packet.h:18-24 | which byte of the wire format holds which field |
| Types.BytesRoundTrip | main/mesh_main.c:550 | four bytes and the number memcpy makes of them determine each other, lowest byte first |
| DataPacket.HopKeepsBytes | main/mesh_node.c:387-396 | one hop changes the ttl byte and no other exactly when the length byte agrees with the received length |
| DataPacket.HopsOnlyLowerTtl | main/mesh_node.c:387-396 | after any number of hops only the ttl byte differs, by the number of hops modulo 256; without wrapping exactly while there was ttl for them |
| DataPacket.Memcpy | main/mesh_data_packet.c:12-18 | copies a slice between two buffers and leaves the rest of the target alone |
| DataPacket.Pack | main/mesh_data_packet.c:10-23 | writes the wire format of the packet on the heap into the caller's buffer and reports its length |
| DataPacket.Unpack | main/mesh_data_packet.c:25-38 | reads the packet of a receive buffer into a struct with a payload of its own; for a length byte above 15 it reads on behind the buffer |
| DataPacket.PacketHeap.Alloc | main/mesh_data_packet.c:78-93 | a zeroed packet in fresh memory, two blocks more and one more counted; the counter stays half the number of blocks not yet freed |
| DataPacket.PacketHeap.Copy | main/mesh_data_packet.c:47-57 | a deep copy in memory of its own, so that neither a write to one nor freeing it touches the other; one more counted |
| DataPacket.PacketHeap.Free | main/mesh_data_packet.c:66-76 | of a live packet both blocks are given back, no others, and it is live no more; the counter stays half the number of blocks not yet freed |
| DataPacket.Flatten | main/mesh_node.c:145-165 | the received bytes at the front of the zeroed buffer |
| DataPacket.ForwardHop | main/mesh_node.c:374-396 | receiving, unpacking, lowering the ttl in place and packing yields exactly the forwarded bytes, whatever lies behind the receive buffer |
| NodeSpec.IndexOfType | main/mesh_node.c:201-212 | finds the first waiting packet of a type, or none if there is none |
| SensorNode.Node.constructor | main/mesh_node.c:12-30 | the static initialisers: provisional id, no key marked, nothing loaded from the store |
| SensorNode.Node.AppMain | main/mesh_main.c:875-914 | a boot erases the store where that is asked for, loads it and does what the stored boot state asks for; handlers are registered unless the node stopped or the update branch was taken |
| SensorNode.Node.InitStore | main/mesh_main.c:881-886 | the store is used as it is, or erased and initialised again, or the failed check ends the node |
| SensorNode.Node.ReadStoredState | main/mesh_main.c:763-809 | every stored value is loaded, every missing key leaves the default; nothing is loaded from a store that does not open |
| SensorNode.Node.LoadVoltages | main/mesh_main.c:778-800 | each of the four limits is the stored one or the default, independently of the others |
| SensorNode.Node.InstallOtaUpdate | main/mesh_ota_update.c:64-117 | every path ends in a restart or a failed check; VERIFY is stored only after a download and two store calls that work |
| SensorNode.Node.VerifyOtaUpdate | main/mesh_main.c:811-830 | the image is marked valid first; the boot state changes only if the store opens and writes |
| SensorNode.Node.OnSync | main/mesh_main.c:701-714 | after registration every packet type has the handler meant for it and all others have none |
| SensorNode.Node.NextIdempotencyKey | main/mesh_node.c:83-86 | hands out the counter, which wraps at 256 |
| SensorNode.Node.ForwardToPeers | main/mesh_node.c:421-453 | the packet on the heap is packed into a buffer per connection and goes out once to each, in list order |
| SensorNode.OnWireAt | main/mesh_node.c:421-453 | of several packets the i-th goes once to each connection, in list order, before the next goes to any |
| SensorNode.Node.AddPacketAwaitingResponse | main/mesh_node.c:175-199 | a deep copy goes to the head of the list and the timer runs, unless the pool of two is used up |
| SensorNode.Node.FindParByType | main/mesh_node.c:201-212 | the search loop finds the first waiting packet of a type |
| SensorNode.Node.RemovePacketAwaitingResponse | main/mesh_node.c:214-226 | takes the first waiting packet of a type off the list and frees its memory, if there is one |
| SensorNode.Node.SendPacket | main/mesh_node.c:285-295 | sends, keeps a copy if a response is awaited, and frees the packet it was given; the copy stays intact |
| SensorNode.Node.NewPacket | main/mesh_node.c:273-280 | a live packet to the hub under the next key, in memory apart from the waiting packets |
| SensorNode.Node.SendEmptyPacket | main/mesh_node.c:269-283 | one byte of zero to the hub under the next key |
| SensorNode.Node.ConnectionAvailable | main/mesh_node.c:308-331 | the node announces its address once per boot and waits for the response |
| SensorNode.Node.Rekey | main/mesh_node.c:127-128 | the key of one waiting packet is overwritten where it lies; the others keep theirs |
| SensorNode.Node.ResendAll | main/mesh_node.c:124-130 | the loop gives each waiting packet the next key in place and sends it, in list order |
| SensorNode.Node.ResendPacketsIfNeeded | main/mesh_node.c:114-136 | does so when the flag is set, clears it, and stops the timer if nothing waits |
| SensorNode.Node.ProcDataRequest | main/mesh_main.c:497-540 | answers with the measured value under the reply type of the request |
| SensorNode.Node.ProcConfigUpdate | main/mesh_main.c:542-594 | stores the value under its key if the store lets it and acknowledges whenever the store opens; the sleep duration also changes in memory |
| SensorNode.Node.ProcOtaUpdateAvailable | main/mesh_main.c:596-644 | a newer version is stored as a request with the node's address and answered 0; any other is answered with the own version |
| SensorNode.Node.ProcGoToSleep | main/mesh_main.c:646-668 | two unchanged copies to every peer, then all connections are closed and the node sleeps, or restarts if an update waits; a payload that does not fit the send buffer ends the node |
| SensorNode.Node.SendCopy | main/mesh_main.c:650-653 | a deep copy of the received packet goes out and is freed; the packet itself stays |
| SensorNode.Node.ProcNodeConnectedResp | main/mesh_main.c:670-676 | takes the id behind the address and stops waiting |
| SensorNode.Node.PacketNextStep | main/mesh_node.c:338-367 | FORWARD, PROCESS or TERMINATE as the id, the type, the address, the marked keys and the ttl decide, for every packet whose address is not read past its payload |
| SensorNode.Node.PassOn | main/mesh_node.c:391-396 | the packet goes out to every connection; the check in mdp_pack ends the node if its payload does not fit the send buffer |
| SensorNode.Node.ProcessPacket | main/mesh_node.c:455-470 | marks the key and runs the registered handler; a type the table does not have ends the node |
| SensorNode.Node.ReceivePacket | main/mesh_node.c:390-407 | carries the decision out, a forwarded packet with its ttl lowered in place, then the pending resends unless the node stopped |
| SensorNode.Node.ReceiveData | main/mesh_node.c:369-411 | rejects a length outside 7 to 21 without any effect; any other bytes are received as the packet unpacked from the padded buffer and what lies behind it |
| SensorNode.Node.SetResendFlag | main/mesh_node.c:106-109 | the timer only sets the flag |
| SensorNode.Node.ForcedSleepTimer | main/mesh_main.c:719-722 | after too long awake the node sleeps without telling anybody |
| NodeProps.OneKeyAtATime | main/mesh_node.c:114-136 | with one waiting packet a resend takes exactly one key |
| NodeProps.ProcessedEffect | main/mesh_node.c:455-470 | no handler but the one for responses touches the link variables, and each leaves the packet counter as it was but for a leak |
| NodeProps.HandledAwaiting | main/mesh_main.c:670-676 | handling a packet leaves the waiting list alone, or empties it for a response that is taken |
| NodeProps.AwaitingKept | main/mesh_node.c:88-136 | every event keeps: at most one packet waits, it announces this node to the hub, the timer runs while it waits |
| NodeProps.AwaitingInvOverRuns | main/mesh_node.c:175-234 | so it is in every run; the pool of two is never used up |
| NodeProps.WaitingChangesOnlyItsKey | main/mesh_node.c:124-130 | over every run in which it keeps waiting the packet differs from the announcement only in its key |
| NodeProps.ResponseEndsProvisioning | main/mesh_main.c:670-676 | a response for this id and address assigns the id it carries and empties the list |
| NodeProps.RegisteredTypesAreKnown | main/mesh_main.c:532-535 | the unknown-type returns of the data and configuration handlers are not reached through registration |
| NodeProps.PacketAccounting | main/mesh_data_packet.c:47-93 | between events the allocation counter is the number of waiting packets plus the offers that met a closed store |
| NodeProps.LeakHappens | main/mesh_main.c:615-618 | an input after which one packet is counted and none waits |
| NodeProps.MarksGrow | main/mesh_node.c:461 | within a boot a mark is never taken back and a handled key is marked |
| NodeProps.AtMostOncePerKey | main/mesh_node.c:333-358 | over a whole boot packets for the node are handled at most once per key, at most 256 in all, even as the id changes |
| BootProps.StoreEffect | main/mesh_main.c:542-644 | every event but a reboot changes the store and the settings only as its packet asks |
| BootProps.InstallEnteredOnlyByOffer | main/mesh_main.c:612-624 | the request to install is entered exactly by an offer of a newer firmware whose write works |
| BootProps.InstallLeftOnlyByDownloadOrErase | main/mesh_ota_update.c:96-116 | it is left exactly by a boot that downloads and records the image, for VERIFY, or by one that erases the store |
| BootProps.StoredOfferSurvives | main/mesh_ota_update.c:96-116 | over any sleeps, restarts, failed downloads and packets the request stays stored up to the first successful download or erase |
| BootProps.EraseLosesOffer | main/mesh_main.c:881-886 | an offer accepted, promised and written, and a next boot after which nothing of it or of the settings is left |
| BootProps.AddressKeptOverRuns | main/mesh_main.c:625-631 | the node's own address, once stored, stays stored until an erase |
| BootProps.AcceptedOfferGetsInstalled | main/mesh_main.c:890-892 | with no erase and no other offer in between, an offer is installed by the first boot in which everything works, however much later, exactly when its request and an address are in the store |
| BootProps.WrittenOfferGetsInstalled | main/mesh_main.c:612-631 | an offer whose writes work is installed by then whatever else is offered meanwhile |
| BootProps.ReadinessKept | main/mesh_ota_update.c:81-95 | between offer and installation neither sleeps nor failed downloads nor packets change whether a working boot installs |
| BootProps.PromiseKeptWhenWritten | main/mesh_main.c:612-643 | the reply promises whenever the store opens; a boot in which everything works then installs exactly when the request and the address were each written or already stored |
| BootProps.PromiseCanBreak | main/mesh_main.c:619-636 | an input for which the reply promises and nothing is stored |
| BootProps.NoAddressNoBoot | main/mesh_ota_update.c:81-85 | with a request and no address every boot that opens the store crashes and changes nothing, any number of times |
| BootProps.PromiseEndsInCrashLoop | main/mesh_main.c:627-636 | an input for which the reply promises, the request is stored, and every later boot crashes |
| BootProps.ImageMarkedOnlyAfterVerifyBoot | main/mesh_main.c:868-870 | the image is marked valid exactly in boots that load VERIFY, and so erased nothing |
| BootProps.MarkedImageWasDownloaded | main/mesh_ota_update.c:108 | VERIFY is stored only by a successful download, so a marked image was downloaded before |
| BootProps.UpperHalfKept | main/mesh_main.c:802-806 | the copy of four stored bytes into the 64-bit duration sets its lower half and leaves the upper one |
| BootProps.LowHalfExact | main/mesh_main.c:802-806 | copying four bytes into the 64-bit duration is exact as long as it is below 2^32 |
| BootProps.SettingsAreLastWritten | main/mesh_main.c:542-594 | whatever the store does, each setting it holds is the value accepted last while it opened and wrote, since the last erase, or the default |
| BootProps.RebootLoadsLastWritten | main/mesh_main.c:763-809 | and that is what a reboot that erases nothing puts into memory |
| BootProps.SettingsAreLastAccepted | main/mesh_main.c:542-594 | with a store that always works that is the value accepted last, and the sleep duration in memory follows at once |
| BootProps.RebootLoadsLastAccepted | main/mesh_main.c:763-809 | then a reboot that erases nothing puts the values accepted last into memory |
| BootProps.AcknowledgedButNotStored | main/mesh_main.c:585-593 | a value whose write fails is acknowledged but not stored |
| BootProps.AcknowledgementCanBeWrong | main/mesh_main.c:585-593 | an input that is acknowledged while the store keeps another value |
| BootProps.SleepNeverOverflows | main/mesh_main.c:87-95 | whatever the store does the duration stays below 2^32 and its product in microseconds fits 64 bits |
| Protocol.RequestAnswered | main/mesh_main.c:497-540 | a data request (10, 12, 14, 16) is answered to the hub with the battery percentage, battery voltage, moisture percentage or moisture voltage, under the type behind its own |
| Protocol.ConfigurationApplied | main/mesh_main.c:542-594 | a value of type 30, 32, 34, 36 or 38 sets exactly the upper or lower sensor limit, the upper or lower battery limit or the sleep duration, and is acknowledged under the type behind its own exactly if the store opens |
| Protocol.OfferIsAnswered | main/mesh_main.c:596-644 | an offer above version 2 is stored and answered 0 if the store opens, and lost with its reply if not; any other is answered 2 and changes nothing |
| Protocol.WrongLengthEndsNode | main/mesh_main.c:549-602 | a configuration or an offer without exactly four bytes ends the node before anything is stored or sent |
| Protocol.OthersOnlyMarked | main/mesh_node.c:455-470 | packets of any other type for this node are only marked |
| Protocol.RepeatedIsDropped | main/mesh_node.c:353-355 | a packet for this node under a marked key is dropped |
| Protocol.OthersPassedOn | main/mesh_node.c:360-366 | a packet for another node goes on with one ttl less, or is dropped when none is left |
| Protocol.MisaddressedPassedOn | main/mesh_node.c:349-352 | a response for this id and another address goes on whatever its ttl |
| Protocol.OverrunsEndNode | main/mesh_data_packet.c:60 | what is read behind a payload, or does not fit the send buffer, ends the node |
| Protocol.ResponseTaken | main/mesh_main.c:670-676 | a response with this address gives the node the id behind it, and nothing waits any more |
| Protocol.AsleepUntilBoot | main/mesh_main.c:87-95 | a node that is not awake does nothing until it boots |
| Protocol.TimersFire | main/mesh_node.c:106-109 | the resend timer sets its flag, the other one puts the node to sleep |
| Protocol.FirstConnectionAnnounces | main/mesh_node.c:309-331 | the first completed discovery makes the node send its address to the hub under type 1 and wait, the timer running; later ones do nothing |
| Protocol.AnnouncesOnce | main/mesh_node.c:308-331 | over a boot the node announces itself exactly once if some discovery completes while it is awake, else never; the announcement waits exactly until the response comes |
| Protocol.PollSendsAgain | main/mesh_node.c:114-136 | with the flag set every waiting packet is sent again once, in list order, under the next keys; without it nothing is |
| Protocol.ReceptionSendsAgain | main/mesh_node.c:390-407 | so it is after every packet the node is still awake after, behind what that made it send |
| Protocol.UnansweredIsRepeated | main/mesh_node.c:114-136 | after any events of a boot, an announcement still unanswered is sent again under the next key once the timer has fired |
| Protocol.SleepsUnlessOffered | main/mesh_main.c:646-668 | a request to sleep ends in a restart exactly if a newer firmware was offered in this boot while the store opened, and else in deep sleep |
| Protocol.UnusableStoreEndsNode | main/mesh_main.c:881-886 | a store that cannot be used, erased or not, ends the node |
| Protocol.InstallBoots | main/mesh_ota_update.c:64-117 | a boot that finds the request to install restarts after a failed download, restarts with VERIFY stored after a recorded one, and ends in every other case |
| Protocol.OtherBootsRun | main/mesh_main.c:875-914 | any other boot starts the node afresh; after VERIFY the image is marked and READ_AND_REPORT stored |
| Protocol.BuiltInSettings | main/mesh_main.c:763-809 | with nothing stored the limits are 2100, 1450, 2707 and 1344 and the duration 60 seconds |
| Network.ResendSends | main/mesh_node.c:121-131 | a pending resend sends at most one packet, the announcement of this node |
| Network.HandledSends | main/mesh_node.c:390-405 | every packet sent fits the send buffer; a node-connected response is only ever passed on, payload untouched |
| Network.NetOkKept | main/mesh_node.c:369-411 | every action of the network, with a hub that sends any packets at all, keeps what nodes and packets under way satisfy |
| Termination.WrapsOnlyMisaddressedResponses | main/mesh_node.c:342-366 | a ttl of 0 is forwarded, and wraps, exactly for a node-connected response for this id and another address that fits the send buffer |
| Termination.ReceivingLowers | main/mesh_node.c:369-411 | what a reception can still cause falls by at least one, unless a ttl wraps |
| Termination.ActionPotential | main/mesh_node.c:369-411 | a delivery lowers the potential of the network; any other action or a wrap raises it by at most a constant |
| Termination.DeliveriesBounded | main/mesh_node.c:286-295 | in every topology, with anything else happening meanwhile, deliveries are bounded by a constant plus a constant per disturbance |
| Termination.FloodsEnd | main/mesh_node.c:362-366 | with deliveries only and no wrap every run is finite, with an explicit bound |
| Strays.ResponsesOnlyMove | main/mesh_node.c:343-352 | the responses under way after a delivery were under way before, but for place and ttl |
| Strays.NoStrayKept | main/mesh_node.c:343-352 | deliveries keep: no response under way is sent to an id that an awake node with another address has or may get |
| Strays.FloodsEndUnlessAstray | main/mesh_node.c:391-396 | from a network of which that holds every run of deliveries is at most as long as its potential |
| Strays.FloodsEndWithoutResponses | main/mesh_node.c:391-396 | in particular from one with no node-connected response under way |
| Termination.BootedNodePassesOn | main/mesh_node.c:349-352 | a freshly booted node passes on the responses to every other unprovisioned node |
| Termination.FloodsNeedNotEnd | main/mesh_node.c:349-352 | in any network, two linked nodes pass a response that is for neither back and forth in runs of every length, if one has its destination as id and the other has too, or the ttl at the one is even |
| Termination.PairEndsIff | main/mesh_node.c:342-366 | for two such nodes alone the runs are bounded exactly if the other has another id and the ttl at the one is odd |
| Termination.PairRuns | main/mesh_node.c:342-366 | where every run of deliveries of the two leads |
| Provisioning.IdAfterReceiving | main/mesh_node.c:342-352 | only a response for the node's id and address changes its id |
| Provisioning.AgreementOverRuns | main/mesh_main.c:670-676 | in every reachable state, through losses, relinking, sleep and reboots, a node has the provisional id or the one assigned to its address |
| Provisioning.ProvisionedIdsDistinct | main/mesh_node.h:12-13 | with an injective assignment that avoids the reserved ids no two provisioned nodes share an id |
| Provisioning.AssignedIdStays | main/mesh_main.c:670-676 | an assigned id is final for the boot |
| Flood.WalksExist | main/mesh_node.c:362-366 | the number of walks is positive exactly if there is one |
| Flood.FloodReceive | main/mesh_node.c:391-396 | forwarders pass a copy on with one ttl less; nobody's id changes |
| Flood.FloodConserves | main/mesh_node.c:391-396 | every copy ever sent is either delivered or still under way |
| Flood.DeliveredOncePerWalk | main/mesh_node.c:362-395 | when the flood is over a node has received one copy with ttl t for each walk of length ttl + 1 - t that leads to it through forwarders |
| Flood.ReachIsExact | main/mesh_node.c:362-395 | so a copy with ttl t arrives if and only if there is such a walk |
| Flood.HandledOnceIffReached | main/mesh_node.c:353-358 | a node with the destination id and the key unmarked has then handled the packet exactly once if such a walk leads to it, else not at all |
| Flood.HandledAtMostOnce | main/mesh_node.c:353-358 | at every point of a flood it has handled the packet once if a copy has reached it, else not yet |
| Flood.FanIsPowerSum | main/mesh_sensor_constants.h:35 | the weight of a flood of the standard ttl is d + d^2 + ... + d^6 |
| Flood.FloodCost | main/mesh_node.c:286-295 | with at most d peers per node a flood makes at most that many transmissions |
| SleepWave.SleepReceived | main/mesh_main.c:646-668 | whatever the ttl, an awake node that does not ignore the request sends it twice, unchanged, and leaves |
| SleepWave.SleepWaveCovers | main/mesh_node.c:360-361 | once one node has gone to sleep and no request is under way, every node a path of awake nodes connects to it sleeps, whatever else was delivered |
| SleepWave.WaveIsExact | main/mesh_node.c:342-361 | exactly the nodes on a path along which nobody ignores the request go to sleep |
| SleepWave.WholeComponentSleepsIffNoneIgnores | main/mesh_node.c:353-361 | all connected awake nodes go to sleep exactly if none of them has the request's destination as id and its key marked |
| SleepWave.TwoCopiesPerPeer | main/mesh_main.c:650-658 | over each link from a node that goes to sleep its peer is sent exactly two copies, and nobody else sends it any |
| SleepWave.TwoCopiesInAll | main/mesh_main.c:650-658 | summed over the network: two copies per peer of every node that went to sleep |
| SleepWave.HandledKeyIsIgnored | main/mesh_node.c:353-355 | a node that handled a packet of its own ignores a sleep request to its id under the same key |
| SleepWave.IgnoringNodeExists | main/mesh_node.c:353-355 | an input that makes a booted node such a one |
| GattSpec.Position | main/mesh_peer.c:454-470 | the *_find_prev loops stop behind all leading keys below the handle and before the first that is not |
| GattSpec.SvcInRange | main/mesh_peer.c:496-510 | the first service whose handle range contains the handle |
| GattSpec.NextChr | main/mesh_peer.c:204-207 | the first characteristic of a service that still needs its descriptors |
| GattSpec.NextSvc | main/mesh_peer.c:203-221 | the first service with such a characteristic |
| GattSpec.NextBare | main/mesh_peer.c:430-442 | the first service with room for characteristics and none yet |
| Callbacks.OneCallKept | main/mesh_peer.c:89-97 | while a procedure runs nothing has been reported; when none does exactly one status has; other peers changing the pools change nothing of this |
| Callbacks.CompletionReportedOnce | main/mesh_peer.c:658-686 | after disc_all returned 0 the callback fires exactly once in a run that comes to rest, through errors, exhausted pools, failed starts and whatever other peers do to the pools; after another result no callback can follow |
| Callbacks.ReportedUnlessHandleZero | main/mesh_peer.c:247-249 | with no condition on the handles: once, unless a callback ended the descriptors of a characteristic with value handle 0; then never |
| Callbacks.ReportsWhatEndedIt | main/mesh_peer.c:621-655 | at any point of any run the callback has been given exactly the status that ended the discovery: the procedure's error, 6 for want of memory, the stack's refusal of the next procedure, or 0 when nothing is left to ask for |
| Callbacks.AsksForCharacteristics | main/mesh_peer.c:420-446 | the next procedure is for the first service with room for characteristics and none yet |
| Callbacks.AsksForDescriptors | main/mesh_peer.c:192-225 | then for the first characteristic in list order with room for descriptors and none yet that the search has not passed |
| Callbacks.SilentOnHandleZero | main/mesh_peer.c:217 | such a discovery stops without a word |
| Arrivals.SearchIsMembership | main/mesh_peer.c:472-494 | in an ascending list the search finds a handle exactly if it is there |
| Arrivals.SvcAddIsMapInsert | main/mesh_peer.c:577-606 | peer_svc_add is insertion-if-absent into a map ordered by start handle, duplicates and exhaustion included |
| Arrivals.AnyOrderGivesSortedMap | main/mesh_peer.c:577-606 | in whatever order services arrive the list is ascending and holds, for each start handle, the one reported first |
| Arrivals.ListedAsReportedIffInOrder | main/mesh_peer.c:358-377 | different characteristics are listed as reported exactly if they arrive in handle order |
| Arrivals.ChrsCutOff | main/mesh_peer.c:364-377 | three characteristics, the last between the others: two are listed and three blocks are gone |
| Arrivals.KnownChrIsAddedAgain | main/mesh_peer.c:358-377 | a characteristic reported again is listed again, at the head or in place of itself and all behind it |
| Arrivals.DscsListedIffAscending | main/mesh_peer.c:168-187 | descriptors are listed as reported exactly if their handles ascend |
| Arrivals.DscsCutOff | main/mesh_peer.c:174-187 | the same for three descriptors |
| Arrivals.HeadIsLeast | main/mesh_peer.c:183-187 | whatever the order the head has the least handle reported so far |
| PoolBlocks.BlocksKeptIffNoneCutOff | main/mesh_peer.c:174-189 | a callback keeps every block free or reachable exactly if it cuts no list off, and never gains one |
| PoolBlocks.CapacityKeptIffNothingCutOff | main/mesh_peer.c:364-379 | over a whole discovery free and reachable blocks change by what the other peers gave or took, exactly if nothing was cut off |
| PoolBlocks.RediscoveryGivesAllBack | main/mesh_peer.c:670-674 | discovering again first gives every reachable block back |
| Server.ChrEndBounds | main/mesh_peer.c:267-284 | the descriptor range of a characteristic starts at its value and ends before every later definition; an empty one has no descriptors |
| Server.DescriptorRangesDisjoint | main/mesh_peer.c:267-284 | the ranges of two characteristics of a well-formed table never meet and lie inside their services |
| Server.ServiceAnswers | main/mesh_peer.c:433-436 | asked for the range of a service the server reports all its characteristics and no others |
| Server.CharacteristicAnswers | main/mesh_peer.c:209-212 | asked for the range of a characteristic the server reports all its descriptors and no others |
| Discovery.NextSvcAppended | main/mesh_peer.c:577-606 | a service reported in handle order is appended, or there is no memory |
| Discovery.NextChrAppended | main/mesh_peer.c:341-380 | the next characteristic of a service is appended to that service and nothing is cut off |
| Discovery.NextDscAppended | main/mesh_peer.c:141-190 | the next descriptor lands on its own characteristic; neither assertion is reached and nothing is cut off |
| Discovery.EnterDscs | main/mesh_peer.c:192-225 | the search resumes at the next characteristic with a non-empty range, or everything is found |
| Discovery.EnterChrs | main/mesh_peer.c:420-446 | the search resumes at the next service with room for characteristics, or goes on to the descriptors |
| Discovery.StuckMove | main/mesh_peer.c:430-442 | a service without characteristics is the first one without them again |
| Discovery.OnTrackKept | main/mesh_peer.c:192-446 | every callback, and every use of the pools by others, keeps the relation between what was discovered so far and the server's table |
| Discovery.DiscoveryFindsTheTable | main/mesh_peer.c:577-686 | whatever fails on the way and whatever other peers do to the pools: no assertion is reached, no block is lost, completion is reported exactly at the end, and with status 0 the tree is the server's table, one procedure per non-empty range in ascending order |
| Discovery.TwiceIsOnce | main/mesh_peer.c:670-674 | discovering an unchanged server again, others at work before and meanwhile, leaves the same tree and costs no block |
| Discovery.DiscoveryEnds | main/mesh_peer.c:192-225 | without hollow services no run has more callbacks of this peer than reporting every attribute and the end of each procedure takes |
| Discovery.DiscoverySucceeds | main/mesh_peer.c:658-686 | with a working stack and pools in which the others always leave enough for the table, status 0 and the table are reached from wherever the discovery has come to |
| Discovery.HollowNeverEnds | main/mesh_peer.c:430-442 | with a hollow service the discovery goes on for ever |
| Discovery.EndsIffNoHollowService | main/mesh_peer.c:420-446 | given memory, the number of this peer's callbacks is bounded exactly if no service is hollow |
| TableSpec.TableValidKept | main/mesh_peer.c:688-746 | every operation keeps connection handles unique and peers and free slots together as many as before |
| TableSpec.CapacityAfterOne | main/mesh_peer.c:577-746 | whatever is done to one peer, over all peers every block stays free or reachable exactly if no list is cut off |
| TableSpec.CapacityKeptIffNoneCutOff | main/mesh_peer.c:577-746 | so it is over any run of adds, deletions, rediscoveries and callbacks of all peers; a lost block never comes back |
| TableSpec.EmptyTableHasAll | main/mesh_peer.c:688-715 | when the last peer has left, the pools are as at the start but for the blocks cut off |
| TableProps.OthersOnlyUsePools | main/mesh_peer.c:27-38 | whatever is done to another peer this one keeps its tree and how far it is, beside the new pools |
| TableProps.SeenIsARun | main/mesh_main.c:247-258 | what a peer of the table goes through is a run of its own callbacks with others using the pools in between |
| TableProps.EveryPeerReportsOnce | main/mesh_peer.c:658-686 | every peer of the table for which mesh_peer_disc_all returned 0 has its completion reported exactly once, whatever the others do; after any other result never |
| TableProps.EveryPeerReportsWhatEndedIt | main/mesh_peer.c:621-655 | and the status reported is what ended its own discovery |
| TableProps.AddOutcome | main/mesh_peer.c:717-746 | 2 for a known handle, 6 for a full table, else 0 and an idle peer first in the list |
| TableProps.DeleteOutcome | main/mesh_peer.c:688-715 | 7 for an unknown handle, else 0, the peer gone and its blocks given back |
| TableProps.DiscoverOutcome | main/mesh_peer.c:658-686 | 7 for an unknown handle; for a known one the answer of the stack, 0 exactly if the discovery of services is then under way |
| TableProps.MovesArePlayed | main/mesh_main.c:247-258 | against a server it is a run of moves of Discovery |
| TableProps.EveryPeerFindsItsTable | main/mesh_peer.c:577-686 | a peer that is a server among peers that do what they like: no assertion, completion exactly at the end, with status 0 exactly its table, and without hollow services a bound on its callbacks |
| TableProps.EveryTableIsFound | main/mesh_peer.c:577-746 | any number of servers connected, deleted and discovered in any order and all at once: no block is ever lost, and every discovery reported with status 0 has found its table |
| BlockLists.HeadLinked | main/mesh_peer.c:599-600 | SLIST_INSERT_HEAD: the pointers link the new block before the old list, all other lists as before |
| BlockLists.AfterLinked | main/mesh_peer.c:601-602 | SLIST_INSERT_AFTER: the pointers link the new block between its neighbours, all other lists as before |
| BlockLists.CutLinked | main/mesh_peer.c:376 | the bare assignment to the next pointer: the list ends with the new block, all other lists as before |
| BlockLists.HeadUnlinked | main/mesh_peer.c:333-334 | SLIST_REMOVE_HEAD: the rest of the list, all other lists as before |
| BlockLists.Lists.constructor | main/mesh_peer.c:764-837 | os_mempool_init: all blocks free, all lists empty |
| BlockLists.Lists.AddKeeping | main/mesh_peer.c:589-603 | a new block behind prev with what followed, or NULL if no block is free |
| BlockLists.Lists.AddLinking | main/mesh_peer.c:364-377 | a new block behind prev; what followed prev is on no list any more |
| BlockLists.Lists.Find | main/mesh_peer.c:472-494 | the loop over the blocks finds the position of the handle and its block exactly if it is there |
| BlockLists.Lists.Drain | main/mesh_peer.c:333-336 | every block of the list is given back and the list is empty |
| PeerStore.SvcAddRefines | main/mesh_peer.c:577-606 | the block-level outcome is the one on the tree of the peer and the pools; other peers keep their trees |
| PeerStore.ChrAddRefines | main/mesh_peer.c:341-380 | the same for characteristics, cut-off lists and failed assertions included |
| PeerStore.DscAddRefines | main/mesh_peer.c:141-190 | the same for descriptors |
| PeerStore.SvcDeletedViews | main/mesh_peer.c:608-619 | deleting a service gives back its whole subtree and leaves every other service as it is |
| PeerStore.ClearedGivesBack | main/mesh_peer.c:670-674 | clearing a peer gives back exactly the blocks of its tree; the other peers keep theirs |
| PeerStore.SvcOfKept | main/mesh_peer.c:394 | another peer's discovery leaves this peer's cur_svc pointing to the same service |
| PeerStore.CapacityOfAllPeers | main/mesh_peer.c:27-38 | free blocks and those reachable from all peers add up as before exactly if they do for the changed peer |
| PeerStore.Store.SvcAdd | main/mesh_peer.c:577-606 | the code does to the blocks what SvcAddRefines is about |
| PeerStore.Store.ChrAdd | main/mesh_peer.c:341-380 | the code does to the blocks what ChrAddRefines is about; false where it asserts that this cannot happen |
| PeerStore.Store.DscAdd | main/mesh_peer.c:141-190 | the code does to the blocks what DscAddRefines is about |
| PeerStore.Store.ChrDelete | main/mesh_peer.c:328-339 | the descriptors and then the characteristic go back to their pools |
| PeerStore.Store.SvcDelete | main/mesh_peer.c:608-619 | the characteristics with their descriptors and then the service go back |
| PeerStore.Store.Clear | main/mesh_peer.c:670-674 | the loop deletes all services of one peer |
| PeerStore.Store.FindRange | main/mesh_peer.c:496-510 | the loop finds the first service whose range contains the handle |
| PeerStore.Store.NextBareSvc | main/mesh_peer.c:430-442 | the loop finds the first service with room for characteristics and none yet |
| PeerStore.Store.ChrEndHandle | main/mesh_peer.c:267-278 | the end of the descriptor range, read off the next pointer |
| PeerStore.Store.NextNeedy | main/mesh_peer.c:203-221 | the nested loops find the first characteristic that still needs its descriptors |
| Peers.Peer.DiscDscs | main/mesh_peer.c:192-225 | starts the next descriptor procedure or reports completion |
| Peers.Peer.DiscChrs | main/mesh_peer.c:420-446 | starts the next characteristic procedure or goes on to the descriptors |
| Peers.Peer.SvcDisced | main/mesh_peer.c:621-655 | a reported service is added to this peer's tree; a failure ends the discovery |
| Peers.Peer.ChrDisced | main/mesh_peer.c:382-418 | a reported characteristic is added to the service cur_svc points to, which is never dangling |
| Peers.Peer.DscDisced | main/mesh_peer.c:227-265 | a reported descriptor is added to its characteristic |
| Peers.Peer.ProcedureDone | main/mesh_peer.c:636-642 | the end of a procedure starts the next one unless the marker is 0 |
| Peers.Peer.DiscAll | main/mesh_peer.c:658-686 | everything discovered before is given back and the service procedure is started |
| Peers.CallbackAndCapacity | main/mesh_peer.c:577-655 | over all peers a callback keeps every block free or reachable exactly if it cuts no list off |
| Peers.Table.constructor | main/mesh_peer.c:764-837 | no peers, all slots and blocks free |
| Peers.Table.Find | main/mesh_peer.c:63-74 | the loop finds the peer with a connection handle, if there is one |
| Peers.Table.Add | main/mesh_peer.c:717-746 | refuses a known handle and a full pool; else a new idle peer with nothing discovered is first in the list, in the first free slot; no block moves |
| Peers.Table.Delete | main/mesh_peer.c:688-715 | exactly this peer leaves the table, its slot is free and empty, the others keep their trees, and all blocks add up to what they did |
| Peers.Table.OnCallback | main/mesh_peer.c:621-655 | a callback for one peer is that operation of the table; the other peers keep their trees, and all blocks add up to what they did unless it cuts a list off |
| Peers.Table.DiscAllAt | main/mesh_peer.c:658-686 | a discovery of one peer is that operation of the table; the other peers keep their trees and all blocks add up to what they did |
| Peers.Table.DiscAll | main/mesh_peer.c:658-668 | the same by connection handle; an unknown one is refused and nothing changes |

## Left out

- NimBLE, FreeRTOS timers, the flash store, HTTPS, Wi-Fi and deep sleep: their outcomes are parameters of the events (`Env`, `BootEnv`, the status a procedure start returns); a store is a map, a timer a flag. At most one GATT procedure runs per peer and none reports after it ended.
- `main/mesh_wifi_connect.c`, advertising, scanning, connection set-up, security and logging: plumbing around the modelled calls. Links come and go freely in `Network`, and `SensorNode.Node.links` is the list of connections a broadcast uses.
- `main/mesh_battery_state.c` and `main/mesh_sensor.c`: one-line formulas over hardware readings; a reading is a parameter and the four limits are a map.
- `mesh_peer_exec_for_each(mesh_node_disconnect)`: it deletes the list element it stands on (`main/mesh_node.c:139-143`, `main/mesh_peer.c:843`), so that its course depends on freed memory; the node leaves the network with no connection left.
- Reading past the handler table for a type from 40 up (`main/mesh_node.c:463`), and past a payload too short for the address or the id of a response that is compared or taken (`main/mesh_node.c:347`, `main/mesh_main.c:672`): what is found there is not modelled, the node ends. Such packets are forwarded or terminated like any others where nothing is read.
- A payload beyond 15 bytes overruns the send buffer before the check that ends the node (`main/mesh_data_packet.c:18`, `main/mesh_data_packet.c:60`); the model has the check alone, and has it also where no connection is left to send to.
- `mdp_unpack` allocates a payload for every received packet, which nobody frees and `allocated_packets` does not count (`main/mesh_data_packet.c:34`, `main/mesh_node.c:387`); a received packet is memory outside `DataPacket.PacketHeap`.
- UUID lookups and the choice between a write and a notification (`main/mesh_node.c:437-451`): the same bytes go to the peer either way.
- SensorNode.Node: the list of waiting packets is a `seq` of references to packets on the heap; the pool blocks that link them are counted, not laid out.
- BlockLists.Lists: `os_memblock_get` and `_put` take and return the first free block; the real pool's bookkeeping inside free blocks is not modelled, and neither is the null `disc_cb`.
- Peers.Peer.Step: a callback for a peer that was deleted meanwhile, which the code would run on freed memory, is not modelled.
- SensorNode.Node.ReadStoredState: a read error other than a missing key behaves like a missing key, as in the code.
- `mn_packet_resender_init`: the memory of the pool of waiting packets is freed on the success path too (`main/mesh_node.c:263-266`); the model keeps the pool's bound of two.
- `mdp_cmp` and `write_update_url_and_reset`: never called.
- The hub is an environment that sends any packets; for provisioning its responses are assumed to follow one assignment of ids to addresses.
