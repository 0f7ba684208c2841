# A verified model of LL-DLEP and two net-snmp agent structures

LL-DLEP implements the Dynamic Link Exchange Protocol of RFC 8175: a modem tells a router which
destinations it can reach. This project models the parts of the library that carry its guarantees,
and two data structures of the net-snmp agent bundled with it, and proves what they keep in every run.

| file | what it models |
|---|---|
| `Outcomes.dfy` | results of operations that throw or return an error |
| `Octets.dfy` | integers of varying sizes in network byte order |
| `DataItems.dfy` | the 22 value types of a data item, their wire form and its inverse |
| `ProtocolConfig.dfy` | the protocol configuration, as an immutable record |
| `Messages.dfy`, `MessageObject.dfy` | the message grammar, both round trips, and the object that builds and parses a buffer |
| `MessageRules.dfy` | which data items a message may carry, and which status code stands in for a missing one |
| `Framing.dfy` | reassembly of messages from the TCP stream in a fixed buffer |
| `PeerTransactions.dfy`, `PeerHistory.dfy`, `PeerRetry.dfy` | the transaction machine of one peer, what every run of it keeps, and bounded retry |
| `TwoNode.dfy` | that machine against a router, over reliable FIFO channels |
| `Announce.dfy` | Destination Announce on the modem, and the responses it owes |
| `IpLists.dfy`, `InfoBase.dfy` | IP lists that act as sets, and the ownership of addresses |
| `DestAdvert.dfy` | the destination advertisement table beside the local destinations |
| `IndexTable.dfy`, `IndexRegistry.dfy` | net-snmp's index registry: as a table, and as the linked structure that refines it |
| `ObjectMonitor.dfy` | net-snmp's object monitor: watchers, pending notifications, ready callbacks and reference counts |

Objects that the original updates in place are classes whose methods are proved against a function
of the old state (`Peer`, `ProtocolMessage`, `Receiver`, `PeerRecord`, `RouterPeer`, `AdvertTable`,
`Registry`, `Monitor`); the properties of whole runs are lemmas about those functions. History that
the original does not keep (what was sent, matched, delivered, freed) is in ghost fields.

Time, the order in which a hash or tree map is walked, the answers of the client, and the octets a
socket delivers are arguments of the operations.

## Findings

Some properties one would expect are false of the code. The model keeps the code as it is, and
states when the property does hold.

- A `u16_vu8` data item with a non-empty vector is always rejected on parse, because the iterator is
  not moved behind the vector (LL-DLEP/DataItem.cpp:621-628): `DecodeOfEncode`, `BuildParseRoundTrip`.
- A connection point with an explicit port of zero loses its port when it is re-serialised:
  `ParseBuildRoundTrip`, `ExplicitZeroPortIsLost`.
- A two-octet length field can announce more than the 65536-octet receive buffer holds, and then the
  receive loop has no room left to read into: `StallsIffLengthFieldIsWide`.
- `add_data_item` leaves an item in the buffer when the body outgrows the length field, and when the
  item is not configured: `AddDataItem`.
- A retransmission that crosses its answer makes the modem end the session, from every consistent
  state; a tick is harmless exactly when no answer is late: `LateRetransmitEndsSession`, `TickIsHarmlessIffTimely`.
- Destination Up stores inconsistent addresses all the same, so an address can get two owners:
  `DestinationUpKeepsOwnershipIff`, `DestinationUpGivesSecondOwner`.
- The hold interval erases placeholder entries without removing their destinations, and an advert
  does not make its entry cease to be a placeholder: `PurgeInStepIff`, `HoldIntervalStrandsDestination`.
- A data item rule that occurs twice, as rules appended by an extension can, is checked against
  nothing the second time; a mandatory one then rejects every message and an "at most one" lets too
  many through: `RulesCheckedIffHarmless` says exactly when the repetition does no harm.
- The status fallback loop runs forever for some status unless the configuration is complete:
  `FallbackEndsIffComplete`.
- Index values are compared by a difference that is cut to an int, which files 32-bit values out of
  order exactly when the difference does not fit: `RegistryStaysSortedIff`.
- For the same reason a value in use is granted a second time, and its owner is told that it is not
  allocated, exactly when it is too far from the lowest value registered: `RegisterGrants`,
  `UnregisterReleases`, `InUseComparableIff`, `GrantedTwice`.
- A watcher unregistered while a callback for it is still to be made leaves a placeholder with a
  freed watcher: `UnregisterKeepsIff`.

## Model

| member | source | states |
|---|---|---|
| `Octets.Append` | LL-DLEP/Serialize.h:21-83 | succeeds exactly when the value fits the field, and then appends the big-endian octets of the value |
| `Octets.Overwrite` | LL-DLEP/Serialize.h:21-60 | overwrites exactly the octets of the field, or fails when the value does not fit or the buffer ends inside the field |
| `Octets.ReadAt` | LL-DLEP/Serialize.h:102-159 | succeeds exactly when enough octets are left, and returns the number they spell |
| `Octets.ValueOfBigEndian` | LL-DLEP/Serialize.h:21-159 | reading what was written gives the value back, for every size |
| `Octets.BigEndianOfValue` | LL-DLEP/Serialize.h:21-159 | writing what was read gives the octets back, and the number fits their count |
| `Octets.BigEndianAt` | LL-DLEP/Serialize.h:42-57 | the octet at each position is the quotient by the weight of the octets behind it: most significant first |
| `DataItems.DecodeOfEncode` | LL-DLEP/DataItem.cpp:137-720 | for all 22 value types, decoding an encoded value gives it back, except a `u16_vu8` with a non-empty vector, which is rejected |
| `DataItems.EncodeOfDecode` | LL-DLEP/DataItem.cpp:137-720 | every accepted value re-encodes to its own octets, less the two octets of an explicit zero port, and has the configured type |
| `DataItems.AddressOctets` | LL-DLEP/DataItem.cpp:230-384 | octet for octet: flags in front of the address, prefix length or non-zero port behind it |
| `DataItems.FieldOctets` | LL-DLEP/DataItem.cpp:152-310 | octet for octet: integers most significant octet first in the order of the fields, strings and vectors as they are |
| `Messages.ParseItemsBack` | LL-DLEP/ProtocolMessage.cpp:566-598 | a built list of data items parses back to itself if and only if no vector is unreadable; otherwise parsing fails at the first such item, having read exactly those in front of it |
| `Messages.BuildParseRoundTrip` | LL-DLEP/ProtocolMessage.cpp:27-91 | parsing a built message gives the same id and exactly the same items if and only if no vector is unreadable |
| `Messages.ItemsReencode` | LL-DLEP/ProtocolMessage.cpp:566-598 | accepted data items all fit and are well typed, and re-serialise to the canonical spelling of their octets |
| `Messages.CanonicalLength` | LL-DLEP/DataItem.cpp:312-350 | the canonical spelling is two octets shorter per explicit zero port, and identical if there is none |
| `Messages.ParseBuildRoundTrip` | LL-DLEP/ProtocolMessage.cpp:499-612 | any accepted, correctly framed message re-serialises octet for octet, except that each explicit zero port loses its two octets with lengths adjusted |
| `Messages.ExplicitZeroPortIsLost` | LL-DLEP/DataItem.cpp:312-330 | for every address, an accepted message with one explicit zero port that re-serialises two octets shorter |
| `Messages.FrameLayout` | LL-DLEP/ProtocolMessage.cpp:27-64 | a signal starts with the configured prefix, a message does not; id, length and body stand where `is_complete_message` and `parse` look for them |
| `Messages.ItemLayout` | LL-DLEP/DataItem.cpp:390-409 | a data item is its id, the length of its value, and its value |
| `Messages.BuildLayout` | LL-DLEP/ProtocolMessage.cpp:30-47 | a name that is a signal is sent with the configured prefix and its id, any other name with the id of the message |
| `Messages.PrefixDemanded` | LL-DLEP/ProtocolMessage.cpp:526-547 | a signal is refused for its prefix exactly when it does not start with the configured octets or has nothing behind them; a message never is |
| `Messages.HeaderAccepted` | LL-DLEP/ProtocolMessage.cpp:526-564 | exactly which headers are accepted, and that the id of a message is read from its first octets, that of a signal from behind its prefix |
| `MessageObject.SerializeItem` | LL-DLEP/DataItem.cpp:390-409 | succeeds exactly when every field fits, with the item's wire form |
| `MessageObject.ProtocolMessage.AddHeader` | LL-DLEP/ProtocolMessage.cpp:27-64 | for a configured name whose id fits, appends the configured prefix if it is a signal, id and a zero length, so the buffer holds a whole empty message (`FrameLayout`) |
| `MessageObject.ProtocolMessage.AddDataItem` | LL-DLEP/ProtocolMessage.cpp:66-82 | after every success the buffer is a whole message with the new item last and a length equal to the body; states what each failure leaves behind |
| `MessageObject.ProtocolMessage.AddDataItems` | LL-DLEP/ProtocolMessage.cpp:84-91 | succeeds exactly when every item is configured and fits and the whole body fits its length field; the buffer then holds all of them |
| `MessageObject.ProtocolMessage.ParseBuffer` | LL-DLEP/ProtocolMessage.cpp:499-612 | the loop leaves exactly the items before the first error, and reports no error exactly when the whole buffer, behind an acceptable header (`HeaderAccepted`), parses |
| `Framing.IsCompleteMessage` | LL-DLEP/ProtocolMessage.cpp:426-459 | true exactly when the buffer holds at least the announced octets, and then gives their number |
| `Framing.GreedyIsTheOnlySplit` | LL-DLEP/Peer.cpp:975-1021 | the greedy split is the only way to cut a stream into whole messages and an incomplete rest |
| `Framing.FeedExtendsGreedy` | LL-DLEP/Peer.cpp:968-1021 | handling one more read after a split stream is the split of the longer stream |
| `Framing.ChunkingIndependence` | LL-DLEP/Peer.cpp:961-1022 | any sequence of reads dispatches and leaves over what one greedy split of the concatenated stream does |
| `Framing.EveryChunkingAgrees` | LL-DLEP/Peer.cpp:961-1022 | two ways of cutting the same stream into reads dispatch the same messages and leave the same octets |
| `Framing.BuiltIsWhole` | LL-DLEP/ProtocolMessage.cpp:438-458 | a built message is complete as soon as all of it is there, and announces exactly its own size, whatever follows |
| `Framing.PartIsIncomplete` | LL-DLEP/ProtocolMessage.cpp:438-458 | and not before |
| `Framing.BuiltMessagesAreDispatched` | LL-DLEP/Peer.cpp:961-1022 | however the octets of built messages and of the beginning of one more are cut into reads, exactly these messages are dispatched, in order, and the beginning stays |
| `Framing.FullBufferIsOversized` | LL-DLEP/Peer.cpp:1024-1032 | the buffer is full after a read only if the message at its front announces more than MAX_SIGNAL_SIZE octets |
| `Framing.StallsIffLengthFieldIsWide` | LL-DLEP/ProtocolMessage.h:45 | some stream fills the buffer for good if and only if the length field has at least two octets |
| `Framing.MoveToFront` | LL-DLEP/Peer.cpp:1004-1012 | the overlapping move brings the remaining octets to the front unchanged |
| `Framing.Receiver.HandleReceive` | LL-DLEP/Peer.cpp:927-1033 | the loop over the in-place buffer ends, does to messages and rest what one read should, and leaves room unless the front message is oversized |
| `PeerTransactions.Peer.SendMessageExpectingResponse` | LL-DLEP/Peer.cpp:210-262 | the new queues, send counters and transmissions, with nothing done for a destination that is not wanted |
| `PeerTransactions.Peer.HandleIncomingResponse` | LL-DLEP/Peer.cpp:264-346 | accepted exactly when it answers the head of its destination's queue; then the head goes and its successor is sent, otherwise the session terminates |
| `PeerTransactions.Peer.CheckRetransmits` | LL-DLEP/Peer.cpp:398-456 | in any order of queues, resends late heads until one has no tries left, which terminates the session (`TickSparesFresh`, `TickResendsLate` and `TickTerminatesIff` say when, in seconds) |
| `PeerTransactions.Peer.TerminateSession` | LL-DLEP/Peer.cpp:814-850 | enters the terminating state and queues one Session Termination, and does nothing the second time |
| `PeerHistory.RunKeepsInv` | LL-DLEP/Peer.cpp:210-346 | every run keeps the queues in agreement with what was queued, sent and answered |
| `PeerHistory.QueuesInEveryRun` | LL-DLEP/Peer.h:298-305 | in every run no queue is empty or holds another destination's request; a queue is exactly what was queued and not answered; only its head was ever sent |
| `PeerHistory.AnsweredWhenSent` | LL-DLEP/Peer.cpp:245-316 | when a destination's j-th request is on the wire, exactly the j requests before it have been answered |
| `PeerHistory.TransactionOrder` | LL-DLEP/Peer.cpp:210-346 | in every run a request is never sent before every earlier one for its destination was answered, so sends are in the order of queueing (section 8 of RFC 8175) |
| `PeerHistory.UnwantedIsSilent` | LL-DLEP/Peer.cpp:219-226 | whatever happens, nothing is queued or sent for a destination in which the peer is not interested |
| `PeerHistory.TerminationIsAnnounced` | LL-DLEP/Peer.cpp:829-844 | a peer that terminates sends Session Termination at once, or queues it last if the session has requests pending |
| `PeerRetry.BoundedRetransmission` | LL-DLEP/Peer.cpp:398-456 | in every run with constant configuration no request is sent more than max(1, send-tries) times |
| `PeerRetry.TickSparesFresh` | LL-DLEP/Peer.cpp:429-441 | a tick no later than send time plus ack-timeout leaves a head alone |
| `PeerRetry.TickResendsLate` | LL-DLEP/Peer.cpp:429-441 | a later one sends a wanted head again, once, and notes the time, unless the tick ends the session |
| `PeerRetry.TickTerminatesIff` | LL-DLEP/Peer.cpp:442-452 | a tick ends the session if and only if some head is later than its timeout and has no tries left |
| `PeerRetry.RetransmissionsAreSpaced` | LL-DLEP/Peer.cpp:398-456 | in every run with a constant ack-timeout, two transmissions of one request are more than that many seconds apart |
| `PeerRetry.UnansweredRequestTerminates` | LL-DLEP/Peer.cpp:398-501 | whatever else happens, a wanted, unanswered head that is some way through its tries ends the session by the deadline |
| `PeerRetry.DeadlineAfterFirstSend` | LL-DLEP/Peer.cpp:398-501 | with one tick a second, within max(1, send-tries) * (ack-timeout + 1) seconds of its first transmission |
| `TwoNode.RunKeepsConsistent` | LL-DLEP/Peer.cpp:519-611 | every run of client calls, deliveries and timely ticks keeps, per destination, queue, channels and both sets consistent |
| `TwoNode.AnswerIsExpected` | LL-DLEP/Peer.cpp:1381-1472 | every answer that reaches the modem is a success that its queue head expects |
| `TwoNode.TwoNodeAgreement` | LL-DLEP/Peer.cpp:1381-1472 | from any session start neither side terminates, every answer matches, and whenever both channels are empty nothing is pending and the router's set equals the modem's |
| `TwoNode.DeliveriesReachAgreement` | LL-DLEP/Peer.cpp:264-346 | from every consistent state finitely many deliveries empty both channels and bring about that agreement |
| `TwoNode.AnnouncedIsConsistent` | LL-DLEP/InfoBaseMgr.cpp:285-297 | announcing any list of existing destinations at session start leaves a consistent state |
| `TwoNode.LateRetransmitEndsSession` | LL-DLEP/Peer.cpp:398-456 | from every consistent state, after a tick that finds any head late, deliveries alone make the modem terminate, whatever the request, the tries and the order of queues |
| `TwoNode.TickIsHarmlessIffTimely` | LL-DLEP/Peer.cpp:398-456 | both sides stay in session through a tick and whatever is delivered afterwards if and only if no answer was late |
| `TwoNode.RouterKeepsDoomed` | LL-DLEP/Peer.cpp:1457-1461 | nothing the router receives saves a session in which a repeated request is on its way: it is refused when it arrives |
| `TwoNode.RouterNeverEndsAlone` | LL-DLEP/Peer.cpp:1763-1774 | in every run, late ticks included, a router that is terminating has told the modem: it is terminating too, or the message is on its way |
| `Announce.RouterPeer.HandleDestinationAnnounce` | LL-DLEP/Peer.cpp:1532-1659 | which announces are answered at once, which leave a response owed, and what becomes of the destination; the balance of announces is kept |
| `Announce.RouterPeer.DestinationUp` | LL-DLEP/Peer.cpp:519-589 | pays exactly the response that is owed, or else hands a Destination Up request on; the balance of announces is kept |
| `Announce.RouterPeer.HandleDestinationDown` | LL-DLEP/Peer.cpp:1741-1781 | forgets the peer's destination with what it was owed, or loses interest in our own, and responds; or terminates; the balance of announces is kept |
| `Announce.AnnounceConservation` | LL-DLEP/Peer.cpp:1532-1659 | in every run, per destination and kind of response: announces received are responses sent, plus one if one is owed, plus those abandoned |
| `Announce.AnnounceBalances` | LL-DLEP/Peer.cpp:1567-1658 | every branch of the handler counts the announce exactly once, as answered or as owed |
| `Announce.AnnounceOutcome` | LL-DLEP/Peer.cpp:1567-1658 | a response waits exactly for a newly announced, absent and accepted destination and is sent at once otherwise; interest comes back with the first announce; nothing else changes |
| `Announce.DownOutcome` | LL-DLEP/Peer.cpp:1751-1780 | what a Down comes to for the router's, the modem's and an unknown destination, with the response, the loss of interest and the abandoned announce |
| `Announce.UpOutcome` | LL-DLEP/Peer.cpp:530-588 | a client's new destination pays the response owed for it, or else is a Destination Up request |
| `IpLists.IpEqualIsKeyEquality` | LL-DLEP/DataItem.cpp:1513-1586 | `ip_equal` is equality of type, address and, for draft 17 subnets, prefix, and so an equivalence on IP items |
| `IpLists.IpEqualOnTheWire` | LL-DLEP/DataItem.cpp:1513-1586 | items are `ip_equal` exactly when their octets agree behind the flags, or, for subnets without flags, in front of the prefix length |
| `IpLists.AddingOnTheWire` | LL-DLEP/DataItem.cpp:1592-1643 | an item adds its address exactly when the lowest bit of its first octet is set; one without flags always does |
| `IpLists.UpdateIpDataItems` | LL-DLEP/InfoBaseMgr.cpp:26-68 | the loop adds an absent address at the end, erases the first equal one on a drop, and otherwise leaves the list alone |
| `IpLists.UpdateKeepsSet` | LL-DLEP/InfoBaseMgr.cpp:26-68 | one update keeps the list free of equal items and changes membership of exactly its own address |
| `IpLists.UpdateIsStable` | LL-DLEP/InfoBaseMgr.cpp:36-67 | what stays keeps its order, a new address goes to the end, and a drop erases one equal item |
| `IpLists.ListIsASet` | LL-DLEP/InfoBaseMgr.cpp:26-68 | after any sequence of updates there are no equal items, and an address is present exactly if its last operation was an add, or it was present and never mentioned |
| `InfoBase.FindIpDataItem` | LL-DLEP/DataItem.cpp:1645-1655 | the search finds an item exactly when one in the list is `ip_equal` |
| `InfoBase.FindOnPeer` | LL-DLEP/InfoBaseMgr.cpp:560-581 | finds an address exactly when it is on the peer itself or on one of its destinations, in whatever order they are searched |
| `InfoBase.FindOwner` | LL-DLEP/Peer.cpp:2137-2152 | finds an owner exactly when the local node, a peer or a destination has the address |
| `InfoBase.ValidateIpDataItems` | LL-DLEP/Peer.cpp:2126-2171 | accepts exactly when every added address is owned nowhere and every dropped one is on the sender's list |
| `InfoBase.ItemAllowedIff` | LL-DLEP/Peer.cpp:2126-2171 | an address may be added exactly when no owner has it and dropped exactly when the sender has it; a connection point may be neither |
| `InfoBase.IpAddrIff` | LL-DLEP/ProtocolConfigImpl.cpp:1413-1434 | a well-typed item is treated as an address exactly when its value carries one |
| `InfoBase.PeerRecord.UpdateDataItems` | LL-DLEP/InfoBaseMgr.cpp:410-488 | an unknown metric changes nothing at all; otherwise metrics, addresses and the metrics of all destinations are those after every item in turn |
| `InfoBase.MetricIsLastReported` | LL-DLEP/InfoBaseMgr.cpp:442-456 | after an update each metric is the one reported last in it, or unchanged if none was |
| `InfoBase.UpdateReachesDestinations` | LL-DLEP/InfoBaseMgr.cpp:458-476 | the metrics reported last reach the peer and every destination, whose addresses stay their own |
| `InfoBase.KnownIffNoNewMetric` | LL-DLEP/InfoBaseMgr.cpp:420-435 | an update is accepted exactly when it would add no metric to those the peer reports |
| `InfoBase.NewAddressWasUnowned` | LL-DLEP/Peer.cpp:1314-1332 | an address that an accepted update adds to the peer had no owner before, whatever else the message repeats or drops |
| `InfoBase.SessionUpdateKeepsOwnership` | LL-DLEP/Peer.cpp:1314-1332 | every accepted Session Update keeps each address with at most one owner among local node, peers and destinations (section 13.8.1 of RFC 8175) |
| `InfoBase.DestinationUpKeepsOwnershipIff` | LL-DLEP/Peer.cpp:1381-1456 | Destination Up keeps single ownership if and only if no address it leaves added has an owner already |
| `InfoBase.DestinationUpGivesSecondOwner` | LL-DLEP/Peer.cpp:1405-1455 | an address of the local node that gets a second owner with a peer's destination |
| `DestAdvert.GetDifference` | LL-DLEP/DlepMac.h:50-74 | the nested loops add exactly the set difference to the output set |
| `DestAdvert.AdvertTable.HandleMessage` | LL-DLEP/DestAdvert.cpp:97-202 | the entry is new and down, or takes the new destinations, with the difference carried over to the local set if it is up |
| `DestAdvert.AdvertTable.DestinationUp` | LL-DLEP/DlepServiceImpl.cpp:42-109 | the new table and local set, and the status returned |
| `DestAdvert.AdvertTable.DestinationDown` | LL-DLEP/DlepServiceImpl.cpp:186-255 | the new table and local set, and the status returned |
| `DestAdvert.StatusFollowsCalls` | LL-DLEP/DlepServiceImpl.cpp:42-255 | a client is told that a destination exists exactly after an up call without a down call since |
| `DestAdvert.AdvertTable.PurgeTimeout` | LL-DLEP/DestAdvert.cpp:456-533 | in any order of entries, what one tick erases from the table and from the local set |
| `DestAdvert.PurgeExactly` | LL-DLEP/DestAdvert.cpp:484-530 | exactly which entries a tick erases, in seconds, and which local destinations it takes down |
| `DestAdvert.RecentAdvertSurvives` | LL-DLEP/DestAdvert.cpp:508-526 | an entry outlives every tick within the expiry time of its last advert |
| `DestAdvert.SilentSourceGoes` | LL-DLEP/DestAdvert.cpp:508-526 | from the expiry time on it is gone, with its destinations if it was up |
| `DestAdvert.TableInStep` | LL-DLEP/DestAdvert.cpp:97-202 | in every run the destinations of up entries are local; without a hold interval the local set is exactly their union |
| `DestAdvert.PurgeInStepIff` | LL-DLEP/DestAdvert.cpp:491-506 | a tick keeps table and local set in step if and only if nothing the hold interval erases has destinations |
| `DestAdvert.DownNeverMissesADestination` | LL-DLEP/DlepServiceImpl.cpp:211-225 | in every run, taking down a MAC that has an entry never reports a missing destination |
| `DestAdvert.HoldIntervalStrandsDestination` | LL-DLEP/DestAdvert.cpp:491-506 | for every hold interval, client up, advert, purge leaves a destination that no entry accounts for |
| `IndexTable.RegisterGrants` | SNMP-gen/net-snmp-5.7.3/agent/agent_index.c:157-452 | on 32-bit values, a request is granted as promised (a value in use is refused; ANY reuses the lowest released value; NEW, and ANY without one, get the least value above all registered; nothing else changes; section 7.1.2 of RFC 2741) if and only if it is not for a value in use whose differences do not fit an int; such a value is granted again |
| `IndexTable.UnregisterReleases` | SNMP-gen/net-snmp-5.7.3/agent/agent_index.c:494-599 | on 32-bit values, each status is returned when it should be and a success changes exactly the one entry, if and only if the value is not in use with differences that do not fit an int; its own session cannot release such a value |
| `IndexTable.InUseComparableIff` | SNMP-gen/net-snmp-5.7.3/agent/agent_index.c:221-249 | for a value in use the differences fit exactly when its distance from the lowest registered value does |
| `IndexTable.GrantsWhenComparable` | SNMP-gen/net-snmp-5.7.3/agent/agent_index.c:157-452 | on integers of any size, a request whose differences fit is granted as promised |
| `IndexTable.GrantedTwice` | SNMP-gen/net-snmp-5.7.3/agent/agent_index.c:221-266 | three requests, all in range, after which a value in use is granted to another session and its own session cannot release it |
| `IndexTable.ReleaseFreesExactly` | SNMP-gen/net-snmp-5.7.3/agent/agent_index.c:479-491 | session cleanup frees exactly that session's entries |
| `IndexTable.CountSlotsIs` | SNMP-gen/net-snmp-5.7.3/agent/agent_index.c:710-728 | the count of a row is its length, or the number of its allocated entries |
| `IndexTable.OnlyOwnerReleases` | SNMP-gen/net-snmp-5.7.3/agent/agent_index.c:157-599 | on 32-bit values, any one operation leaves what is registered for a value in use alone, unless its own session gives it up or it is granted a second time for differences that do not fit |
| `IndexTable.AllocationPersists` | SNMP-gen/net-snmp-5.7.3/agent/agent_index.c:157-599 | in every run whatsoever, in range or not, an allocated entry stays as it is until its own session releases something under that OID or is cleaned up |
| `IndexTable.RunKeepsSorted` | SNMP-gen/net-snmp-5.7.3/agent/agent_index.c:157-599 | every run in which each requested value is in range keeps OIDs strictly increasing and values strictly increasing within each OID |
| `IndexTable.SortedThroughoutIff` | SNMP-gen/net-snmp-5.7.3/agent/agent_index.c:157-599 | a run on 32-bit values is sorted in every state if and only if each requested value is in range |
| `IndexTable.RegistryStaysSortedIff` | SNMP-gen/net-snmp-5.7.3/agent/agent_index.c:221-249 | on 32-bit values a requested value keeps the registry sorted if and only if the differences that the scan takes fit an int |
| `IndexTable.TruncationUnsortsTable` | SNMP-gen/net-snmp-5.7.3/agent/agent_index.c:225-228 | two 32-bit values that end up in the wrong order |
| `IndexTable.OidBefore` | SNMP-gen/net-snmp-5.7.3/agent/agent_index.c:183-189 | an OID is before another exactly when it is a proper prefix of it or smaller where they part |
| `IndexRegistry.Registry.FindOid` | SNMP-gen/net-snmp-5.7.3/agent/agent_index.c:183-189 | the walk along `next_oid` finds the first chain not before the OID, and the chain in front of it |
| `IndexRegistry.Relink` | SNMP-gen/net-snmp-5.7.3/agent/agent_index.c:443-447 | every node of a chain gets the new `next_oid`, and nothing else in the chain changes |
| `IndexRegistry.NoRepeat` | SNMP-gen/net-snmp-5.7.3/agent/agent_index.c:428-451 | no index occurs twice in a chain, whatever the order of its values |
| `IndexRegistry.Registry.RegisterIndex` | SNMP-gen/net-snmp-5.7.3/agent/agent_index.c:157-452 | for every request the linked structure stays well formed, every node of a chain sharing its `next_oid`, and refines registering in the table; it stays sorted if the request is in range |
| `IndexRegistry.Registry.UnregisterIndex` | SNMP-gen/net-snmp-5.7.3/agent/agent_index.c:494-599 | stays well formed and sorted, and refines unregistering in the table with the same status |
| `IndexRegistry.Registry.UnregisterSession` | SNMP-gen/net-snmp-5.7.3/agent/agent_index.c:479-491 | stays well formed and sorted, and refines session cleanup in the table |
| `IndexRegistry.Registry.CountIndexes` | SNMP-gen/net-snmp-5.7.3/agent/agent_index.c:710-728 | the number of entries of the OID, or of allocated ones |
| `ObjectMonitor.FindWatcherPlace` | SNMP-gen/net-snmp-5.7.3/agent/object_monitor.c:441-508 | refuses exactly the duplicates anywhere in the list, and otherwise inserts behind everything of at least the priority |
| `ObjectMonitor.InsertWatcherKeeps` | SNMP-gen/net-snmp-5.7.3/agent/object_monitor.c:441-508 | the list stays in order of priority and free of duplicates, and gains exactly the new watcher |
| `ObjectMonitor.RegisteredIff` | SNMP-gen/net-snmp-5.7.3/agent/object_monitor.c:441-508 | a registration is added unless one with the same priority and watcher data is there |
| `ObjectMonitor.PutReady` | SNMP-gen/net-snmp-5.7.3/agent/object_monitor.c:565-590 | the walk inserts behind everything of at least the priority |
| `ObjectMonitor.InsertReadyKeeps` | SNMP-gen/net-snmp-5.7.3/agent/object_monitor.c:565-590 | the ready list stays in order of priority, gains exactly the placeholder, and one in its notification's count |
| `ObjectMonitor.CheckRegistered` | SNMP-gen/net-snmp-5.7.3/agent/object_monitor.c:528-560 | finds the first watcher of the event, passing over none, and fails exactly if there is none |
| `ObjectMonitor.FileWatchers` | SNMP-gen/net-snmp-5.7.3/agent/object_monitor.c:632-664 | files one placeholder for each watcher of the event, and counts them |
| `ObjectMonitor.Monitor.RegisterWatcher` | SNMP-gen/net-snmp-5.7.3/agent/object_monitor.c:168-192 | refused exactly for a duplicate; the new state |
| `ObjectMonitor.Monitor.UnregisterWatcher` | SNMP-gen/net-snmp-5.7.3/agent/object_monitor.c:204-241 | succeeds exactly if there is such a registration; the new state |
| `ObjectMonitor.UnregisteredIff` | SNMP-gen/net-snmp-5.7.3/agent/object_monitor.c:204-241 | takes away exactly one watcher with this priority, data and callback, and changes nothing if there is none |
| `ObjectMonitor.UnregisterUndoesRegister` | SNMP-gen/net-snmp-5.7.3/agent/object_monitor.c:168-241 | unregistering what was just registered gives every object its former watchers in the same order |
| `ObjectMonitor.Monitor.MovePendingToReady` | SNMP-gen/net-snmp-5.7.3/agent/object_monitor.c:598-668 | the new state after all pending notifications were moved or freed |
| `ObjectMonitor.Monitor.ProcessOne` | SNMP-gen/net-snmp-5.7.3/agent/object_monitor.c:324-354 | one pass of the loop: the first placeholder is called and released, and what its callback notified of is moved |
| `ObjectMonitor.CallbackConservation` | SNMP-gen/net-snmp-5.7.3/agent/object_monitor.c:302-360 | in every run: what was notified is what callers and callbacks notified of, in order; each notification is pending or moved, once; a watcher gets it at most once and only if due; `refs` counts placeholders; it is freed once, exactly when none is left; every placeholder is for a registered watcher |
| `ObjectMonitor.EverythingDelivered` | SNMP-gen/net-snmp-5.7.3/agent/object_monitor.c:302-360 | once nothing is pending or ready, every notification made has reached each watcher it was due to exactly once, and has been freed once |
| `ObjectMonitor.NotificationReachesItsWatchers` | SNMP-gen/net-snmp-5.7.3/agent/object_monitor.c:302-360 | whatever is pending when notifications are processed has, when nothing is ready any more, reached each watcher then registered for its object that has an event in common with it exactly once, and no other |
| `ObjectMonitor.UnregisterKeepsIff` | SNMP-gen/net-snmp-5.7.3/agent/object_monitor.c:204-241 | unregistering keeps every placeholder with a registered watcher if and only if no callback is still to be made for the watcher that goes |
| `ObjectMonitor.HighestPriorityFirst` | SNMP-gen/net-snmp-5.7.3/agent/object_monitor.c:324-338 | in every run each callback is for a placeholder of maximal priority |
| `ObjectMonitor.MovedToAllWatchers` | SNMP-gen/net-snmp-5.7.3/agent/object_monitor.c:598-668 | moving a notification makes it due to exactly the registered watchers that have an event in common with it |
| `MessageRules.CountOccurrences` | LL-DLEP/ProtocolMessage.cpp:651-665 | the map has exactly the ids that occur, with their counts |
| `MessageRules.CheckRules` | LL-DLEP/ProtocolMessage.cpp:671-725 | accepts exactly when every rule is met by what the earlier rules left, and leaves exactly the ids without a rule |
| `MessageRules.Validate` | LL-DLEP/ProtocolMessage.cpp:614-769 | accepts exactly when the sender is allowed, every rule is met, and every item has a rule and is valid |
| `MessageRules.SenderMustBeAllowed` | LL-DLEP/ProtocolMessage.cpp:626-644 | a modem needs the modem's permission and a router the router's; what the other may send makes no difference |
| `MessageRules.AddressValidIff` | LL-DLEP/DataItem.cpp:1340-1474 | an address item is valid exactly when it adds or drops and its prefix is no longer than its address |
| `MessageRules.StatusValidIff` | LL-DLEP/DataItem.cpp:1370-1418 | a status is valid exactly when its code is configured, with and without a text |
| `MessageRules.TypedIsValid` | LL-DLEP/DataItem.cpp:1481-1507 | a valid item has the configured type, and one that is no address, status or percentage needs no more |
| `MessageRules.DistinctRules` | LL-DLEP/ProtocolMessage.cpp:614-769 | with distinct rule ids, accepted means that each rule is met by the number of its items in the message |
| `MessageRules.RepeatedMandatoryRuleRejects` | LL-DLEP/ProtocolMessage.cpp:676-689 | a repeated mandatory rule rejects every message |
| `MessageRules.RulesCheckedIffHarmless` | LL-DLEP/ProtocolMessage.cpp:671-725 | checking each rule against what earlier rules left agrees with checking it against the message, for every message, if and only if every repeated rule is "0+", or "0-1" behind a first rule "1" or "0-1" |
| `MessageRules.MandatoryRepeatDisagrees` | LL-DLEP/ProtocolMessage.cpp:676-709 | one item for each id: meets every rule, and is rejected by a repeated mandatory one |
| `MessageRules.OptionalRepeatDisagrees` | LL-DLEP/ProtocolMessage.cpp:710-718 | two items of one id: break a repeated "0-1", and are accepted |
| `MessageRules.FindStatus` | LL-DLEP/ProtocolMessage.cpp:264-319 | the loop ends with the first configured status on the fallback chain, which is written out for every status asked for |
| `MessageRules.FallbackEndsIffComplete` | LL-DLEP/ProtocolMessage.cpp:272-319 | it ends for every status if and only if Unknown_Message and one of Invalid_Message and Invalid_Data are configured |

## Left out

- Sockets, timers, threads, mutexes, logging and discovery: the operations take what these would deliver as arguments.
- Loading the protocol configuration from XML: `Config` is an immutable record whose well-formedness is a precondition.
- Field sizes for which the mask in LL-DLEP/Serialize.h:30 shifts an int out of range: length fields have one to three octets, ids one to four.
- Octets.Overwrite: the position is inside the buffer, as `update_message_length` asserts; at the end of the buffer the original appends, which is `Append`.
- The exact texts of error messages; errors are told apart by kind where the code tells them apart.
- The encoding of adverts and the merging of their data items; an advert is its RF ID, report interval and destinations.
- String forms of data items, the command-line client and the example main program.
- Destination Update, link characteristics and metric agreement between nodes: updates bypass the queues, so agreement on them is not promised.
- An ack-probability below 100, and messages that arrive before the peer has its data in the information base.
- A second router or modem, and destinations announced by the router, in the two-node system.
- PeerTransactions.Peer.HandleIncomingResponse: responses are matched by name where the original compares ids; the configuration maps one to the other. `ResponsePending` pointers are serial numbers.
- TwoNode.RunKeepsConsistent: the Session Termination exchange is cut short to entering the terminating state on receipt, because no consistent run reaches it.
- PeerRetry.DeadlineAfterFirstSend: heartbeat supervision, which can only terminate the session earlier, is left out.
- Index values of type OCTET_STR and OBJECT_ID, a type mismatch within an OID, and failed allocation of memory.
- IndexTable.RegisterGrants: the exact condition is for 32-bit values, the range of the SNMP type; for wider ones there is `GrantsWhenComparable`. Values have no upper bound, so the step beyond the largest long is not modelled.
- IndexTable.RunKeepsSorted: supposes that each requested value is in range, which on 32-bit values is exactly what keeps every state sorted (`SortedThroughoutIff`).
- IndexRegistry.Registry.RegisterIndex: freed nodes are not modelled, unlinked ones merely leave the structure.
- ObjectMonitor.Monitor.ProcessOne: the lists are sequences rather than linked nodes; a callback registers and unregisters before or after its notifications are moved, not in between; the outer loop is the run of `CallEvent` steps, since it need not end when callbacks keep notifying.
- PeerTransactions.Peer.TerminateSession: the removal of the peer's data from the information base is left out; a later initialization would put it back.
- agent_sysORTable.c, the deployment and path-loss scripts, and the rest of net-snmp.
