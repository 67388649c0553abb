# NDN function chaining: a verified model

This project models the parts of NDN-FC+ where most of the logic is, and proves what they
promise. NDN-FC+ is a Named Data Networking forwarder (NFD), its client library (ndn-cxx)
and three small programs, all extended so that an Interest carries a list of functions to be
applied to the Data on its way back.

| files | what they model |
|---|---|
| `SendWindow`, `Reliability*`, `ReceiveRecords`, `AckPiggyback`, `LpReliability` | link-layer reliability: TxSequence window, loss detection, retransmission, Acks, duplicate suppression |
| `LpPacket`, `LpEncoding`, `LpFragmenter`, `LpReassembler`, `ReassemblyTheorems`, `LinkSender`, `LinkTheorems`, `CongestionMarking` | the link service: MTU arithmetic, fragmentation, sequencing, reassembly, congestion marks |
| `Tlv`, `NameComponents`, `Names`, `UriText`, `NameUri`, `UriGrammar` | names: canonical order and the comparison of encodings, successors, URIs, removal of the first function |
| `Segmentation`, `FunctionChain` | producer, functions and consumer: segmenting, fetching in any order, transforming, publishing again |
| `Blocks`, `DelegationLists`, `InterestCodec`, `InterestGrammar`, `InterestPackets`, `Cidr` | the Interest with its digest and cached encoding, forwarding hints, CIDR ranges |

How the main results are built:

- **Reliability.** The class `LpReliability` works on a map keyed by 64-bit TxSequences that
  wrap, with an iterator for the window start. It is proved to refine a state machine
  (`ReliabilityModel`) over unbounded transmission numbers with a full log. Invariants of that
  machine are proved step by step and then hold for every run of handed-over packets, Acks
  and timer expiries (`ReliabilityTheorems.RunTheorem`). What the class puts on the link is at
  every step exactly what the log gains (`ReliabilityHistory`).
- **Fragmentation.** `FragmentPacket` is proved against a predicate on its result, the
  reassembler against a step function, and `LinkTheorems.EndToEnd` joins the two over any
  pattern of loss, repetition, reordering, interleaving and timeouts.
- **Names.** `Wire` encodings are compared octet by octet; this is proved to be canonical order
  exactly for shortest encodings. The names between a name and its successor are exactly the
  names under it.
- **Chains.** `FunctionChain.Consumer.Run` is proved by recursion over the chain, with the segments of
  every hop arriving in any order: what the consumer writes is the composition of the functions, and
  it writes something exactly when no hop gets stuck.

Clocks, timers, random nonces, the send queue length, the transport MTU, the RTO, the contents of
files, SHA-256 and the program a function node runs are parameters. Exceptions are
`None`, `false` or a `thrown` result.

## Where the code and its descriptions differ

The model follows the code.

- The repository's README (README.md:50-51) says that the first function listed is applied first.
  The first function listed is the last one applied (`FunctionChain.Consumer.Run`); the described order
  fails for two nodes (`FunctionChain.ListedOrderFails`) and holds in general for lists of at most
  one function (`FunctionChain.ListedOrderHoldsExactly`).
- name.hpp:520-522 defines a successor as the very next name. That holds for the empty name only
  (`Names.SuccessorIsImmediateExactly`); for other names the successor is the end of the names
  under it. For the empty name it is not (`Names.EmptyNameSuccessor`).
- The comment at name-component.cpp:484-487 says that comparing encodings is the same as canonical
  order. The decoder accepts numbers in more octets than needed, and for those it is not
  (`NameComponents.WireCompareExactly`). Without encodings, differences are narrowed to `int`
  (`NameComponents.PartsOrderExactly`).
- sfc_function.hpp:117 and sfc_producer.hpp:101 speak of an empty packet for an empty file. No packet
  is made, and segment 0 of the empty store is then put (`Segmentation.PopulateStore`).
- lp-reliability.cpp:198 reserves up to two octets for growth of the TLV-LENGTH. For packets
  of 253 and 254 octets nothing is reserved (`AckPiggyback.OverMtuExactly`).
- generic-link-service.cpp:192-205 tests for an unlimited MTU after subtracting. MTUs of 11 and 23
  come out as unlimited (`LinkSender.ReducedMtuExactly`).

## Model

| member | source | states |
|---|---|---|
| SendWindow.CyclicOrder | NFD-FC/daemon/face/lp-reliability.cpp:251-275 | stepping through the map with wrap-around at its end visits the live fragments in the order of transmission, although their keys wrap at 2^64 |
| SendWindow.FollowerUnique | NFD-FC/daemon/face/lp-reliability.cpp:255-258 | only one key follows another in the order of transmission |
| SendWindow.FreshUnlessFull | NFD-FC/daemon/face/lp-reliability.cpp:225-233 | the next TxSequence is in use exactly when it equals the window start, exactly when the window spans all 2^64 numbers |
| SendWindow.Insert | NFD-FC/daemon/face/lp-reliability.cpp:80-99 | adding the next transmission under a TxSequence that is not the window start keeps the window |
| SendWindow.Delete | NFD-FC/daemon/face/lp-reliability.cpp:390-408 | erasing a key, with the start moved to the cyclic successor if it was the start, keeps the window |
| ReliabilityProofs.PushKeepsInv | NFD-FC/daemon/face/lp-reliability.cpp:75-103 | storing one fragment keeps the invariant: index agreement between fragments and packets, counts against the log, coverage of every live packet |
| ReliabilityProofs.OpenKeepsInv | NFD-FC/daemon/face/lp-reliability.cpp:72-73 | a new network packet keeps the invariant |
| ReliabilityProofs.AcknowledgeKeepsInv | NFD-FC/daemon/face/lp-reliability.cpp:366-387 | an accepted Ack keeps the invariant, moves the packet to the right counter when it was the last one, and takes an RTT sample exactly for fragments never repeated |
| ReliabilityProofs.RetransmitKeepsInv | NFD-FC/daemon/face/lp-reliability.cpp:323-347 | a retransmission keeps the invariant |
| ReliabilityProofs.DropKeepsInv | NFD-FC/daemon/face/lp-reliability.cpp:298-322 | giving up on a packet removes all its fragments and keeps the invariant |
| ReliabilityRuns.LoseEffect | NFD-FC/daemon/face/lp-reliability.cpp:278-363 | a loss removes the lost transmission, changes no other live one, and a retransmission starts with no counted Acks |
| ReliabilityRuns.LoseAllBelow | NFD-FC/daemon/face/lp-reliability.cpp:154-162 | once the reported losses are handled, skipping those an earlier one removed, no live fragment is at the threshold |
| ReliabilityRuns.AckKeepsInv | NFD-FC/daemon/face/lp-reliability.cpp:115-163 | an Ack with all the losses it reveals keeps the invariant and leaves every live fragment below the threshold |
| ReliabilityRuns.LoseKeepsInv | NFD-FC/daemon/face/lp-reliability.cpp:278-363 | so does a timer expiry |
| ReliabilityRuns.Run | NFD-FC/daemon/face/lp-reliability.cpp:65-190 | every run that does not throw ends in a state with the invariant |
| ReliabilityTheorems.Conservation | NFD-FC/daemon/face/lp-reliability.cpp:298-322 | packets handed over are the acknowledged, the retransmitted, the given up and the live ones, each counted once |
| ReliabilityTheorems.RunTheorem | NFD-FC/daemon/face/lp-reliability.cpp:65-408 | over every run: conservation, what each counter counts, at most maxRetx + 1 transmissions of each fragment and in all, loss counters equal to the number of Acks of later transmissions, RTT samples exactly for fragments acknowledged without repetition, and no fragment at the threshold |
| ReliabilityTheorems.LossSpendsBudget | NFD-FC/daemon/face/lp-reliability.cpp:278-363 | every loss strictly lowers a measure of retransmissions still allowed, so losses cannot go on for ever |
| ReliabilityTheorems.AckSpendsBudget | NFD-FC/daemon/face/lp-reliability.cpp:115-163 | so does every Ack of a live transmission, with the losses it reveals |
| ReliabilityTheorems.RunWithinBudget | NFD-FC/daemon/face/lp-reliability.cpp:65-363 | transmissions made and still allowed never exceed maxRetx + 1 for each fragment handed over |
| ReliabilityTheorems.HandOverLeaves | NFD-FC/daemon/face/lp-reliability.cpp:75-103 | the fragments handed over leave in order, each once, under consecutive TxSequences |
| ReliabilityTheorems.LossLeaves | NFD-FC/daemon/face/lp-reliability.cpp:323-347 | a loss sends the lost fragment as it was handed over, under the next TxSequence, or at the limit nothing |
| ReliabilityTheorems.AckLosesOnly | NFD-FC/daemon/face/lp-reliability.cpp:136-162 | no false alarm: an Ack repeats or gives up on nothing but earlier transmissions passed by the threshold number of Acks, and the packets of those that are exhausted |
| ReliabilityHistory.LossRecords | NFD-FC/daemon/face/lp-reliability.cpp:298-347 | what a loss sends, and that it finishes the network packet exactly at the retransmission limit |
| ReliabilityHistory.RecordedGiveUp | NFD-FC/daemon/face/lp-reliability.cpp:298-322 | exactly the Interests given up on have been reported, each once, and this one more |
| ReliabilityHistory.RecordedResend | NFD-FC/daemon/face/lp-reliability.cpp:328-339 | the send time of every stored fragment is that of its latest transmission |
| ReliabilityHistory.LeavesAdd | NFD-FC/daemon/face/lp-reliability.cpp:154-162 | what leaves in two steps is what leaves in the first and then in the second |
| ReliabilityRefinement.PushRefines | NFD-FC/daemon/face/lp-reliability.cpp:75-103 | the class state after storing a fragment stands for the state machine after the step |
| ReliabilityRefinement.SettleRefines | NFD-FC/daemon/face/lp-reliability.cpp:366-408 | the same after an Ack: the freed place in the packet's list is filled by its last element |
| ReliabilityRefinement.RetransmitRefines | NFD-FC/daemon/face/lp-reliability.cpp:323-347 | the same after a retransmission |
| ReliabilityRefinement.DropRefines | NFD-FC/daemon/face/lp-reliability.cpp:298-322 | the same after giving up |
| LpReliabilityService.LpReliability.constructor | NFD-FC/daemon/face/lp-reliability.cpp:36-44 | the first state stands for the initial state of the machine |
| LpReliabilityService.LpReliability.AssignTxSequence | NFD-FC/daemon/face/lp-reliability.cpp:224-233 | the next TxSequence; throws exactly when the window is full, and is otherwise not in use |
| LpReliabilityService.LpReliability.HandleOutgoing | NFD-FC/daemon/face/lp-reliability.cpp:64-104 | does the hand-over step, throws exactly when the machine has no step, and puts out exactly the transmissions it adds to the log, under consecutive TxSequences |
| LpReliabilityService.LpReliability.DeleteUnackedFrag | NFD-FC/daemon/face/lp-reliability.cpp:389-408 | erases the fragment and keeps the window start on the earliest live transmission |
| LpReliabilityService.LpReliability.FindLostLpPackets | NFD-FC/daemon/face/lp-reliability.cpp:250-275 | counts the Ack for exactly the earlier live transmissions and reports, in order, exactly those at the threshold |
| LpReliabilityService.LpReliability.OnLpPacketAcknowledged | NFD-FC/daemon/face/lp-reliability.cpp:365-387 | removes the fragment from map and list and counts the finished packet |
| LpReliabilityService.LpReliability.OnLpPacketLost | NFD-FC/daemon/face/lp-reliability.cpp:277-363 | does the loss step, reports exactly the TxSequences it removed, and sends exactly the transmissions it adds to the log, each the fragment handed over with its new TxSequence |
| LpReliabilityService.LpReliability.GiveUp | NFD-FC/daemon/face/lp-reliability.cpp:298-322 | removes all fragments of the packet and reports it if and only if it is an Interest |
| LpReliabilityService.LpReliability.Resend | NFD-FC/daemon/face/lp-reliability.cpp:323-361 | sends the stored fragment once more under the next TxSequence and keeps its other records |
| LpReliabilityService.LpReliability.HandleLosses | NFD-FC/daemon/face/lp-reliability.cpp:148-162 | handles the reported losses, never calls onLpPacketLost on a removed TxSequence, and sends exactly the transmissions added to the log, in order |
| LpReliabilityService.LpReliability.ProcessAck | NFD-FC/daemon/face/lp-reliability.cpp:115-163 | does the Ack step and sends exactly the transmissions it adds to the log; the RTT measured is the time since the only transmission of the fragment; an unknown TxSequence changes nothing |
| LpReliabilityService.LpReliability.MeasureRtt | NFD-FC/daemon/face/lp-reliability.cpp:127-134 | measures the time since the transmission, only on a fragment never repeated |
| LpReliabilityService.LpReliability.OnRtoExpired | NFD-FC/daemon/face/lp-reliability.cpp:92-94 | a timer expiry does the loss step and sends exactly the transmission it adds to the log, if any |
| LpReliabilityService.LpReliability.CheckDuplicate | NFD-FC/daemon/face/lp-reliability.cpp:170-184 | looks the Sequence up before expiring old records and recording it |
| LpReliabilityService.LpReliability.ProcessIncomingPacket | NFD-FC/daemon/face/lp-reliability.cpp:106-190 | processes the Acks in order, queues exactly one Ack for a fragment with a TxSequence, and tells whether the Sequence is new; what it sends again is exactly what the run adds to the log |
| LpReliabilityService.LpReliability.Piggyback | NFD-FC/daemon/face/lp-reliability.cpp:192-222 | moves the longest prefix of the queue that fits to the packet; every TxSequence ever queued has left on exactly one packet, in order, or is still queued |
| LpReliabilityService.LpReliability.SendIdlePackets | NFD-FC/daemon/face/lp-reliability.cpp:235-248 | the idle loop ends and sends every queued Ack exactly once in order, within every MTU below 65548 and beyond by two or six octets more at most |
| AckPiggyback.NumAcks | NFD-FC/daemon/face/lp-reliability.cpp:205-221 | the greatest number of queued Acks that fits in the space |
| AckPiggyback.SizeWithAcks | NFD-FC/daemon/face/lp-reliability.cpp:206-220 | Acks add twelve octets each and the growth of the TLV-LENGTH |
| AckPiggyback.OverMtuExactly | NFD-FC/daemon/face/lp-reliability.cpp:198-203 | the size with Acks from the size without, for every MTU; up to 65535 Acks push a packet over the MTU exactly when its size is 253 or 254 and fewer than two octets stay free, and then by at most two; beyond, by at most ten |
| AckPiggyback.OverMtuExample | NFD-FC/daemon/face/lp-reliability.cpp:198-203 | a packet of 253 octets that one Ack takes to 267 octets with an MTU of 265 |
| AckPiggyback.IdleProgress | NFD-FC/daemon/face/lp-reliability.cpp:243-247 | an IDLE packet takes an Ack exactly from an MTU of 16 on |
| AckPiggyback.UnlimitedAcks | NFD-FC/daemon/face/lp-reliability.cpp:195-221 | without a limit an IDLE packet takes up to 733 Acks |
| ReceiveRecords.FlaggedWasReceived | NFD-FC/daemon/face/lp-reliability.cpp:171-184 | a Sequence is flagged only if it was received before |
| ReceiveRecords.RecordSurvives | NFD-FC/daemon/face/lp-reliability.cpp:177-183 | a record outlives every packet processed within the RTO |
| ReceiveRecords.RepeatFlagged | NFD-FC/daemon/face/lp-reliability.cpp:171-184 | every repeat within the RTO of the first reception is flagged |
| ReceiveRecords.RecordCovers | NFD-FC/daemon/face/lp-reliability.cpp:177-183 | every record stays in the queue that expires it |
| ReceiveRecords.FrontIsFresh | NFD-FC/daemon/face/lp-reliability.cpp:177-181 | after expiry the front of the queue has a record within its time |
| LpFragmenters.FragmentPacket | NFD-FC/daemon/face/lp-fragmenter.cpp:78-143 | the packet itself, or at least two fragments with its payload octet for octet, its headers on the first, all within the MTU and all but the last full; no split within the MTU has fewer fragments, and it fails exactly when none has few enough |
| LpFragmenters.FewestFragments | NFD-FC/daemon/face/lp-fragmenter.cpp:112-121 | however a packet is split within the MTU, it takes at least the computed number of fragments |
| LpFragmenters.Split | NFD-FC/daemon/face/lp-fragmenter.cpp:123-142 | the loop makes exactly the computed number of fragments |
| LpFragmenters.FragmentFits | NFD-FC/daemon/face/lp-fragmenter.cpp:45-58 | a fragment with Sequence fits the MTU, and with TxSequence and mark exceeds it by no more than was reserved |
| LpFragmenters.UnfragmentedFits | NFD-FC/daemon/face/lp-fragmenter.cpp:85-90 | the same for the fast path |
| LpFragmenters.SlowPathSplits | NFD-FC/daemon/face/lp-fragmenter.cpp:85-115 | the slow path never makes a single fragment |
| LpEncoding.SizeOnWire | ndn-cxx-FC/ndn-cxx/lp/packet.cpp:118-130 | the size of a packet in the arithmetic of the link service is the number of octets of its encoding, in whatever order the fields stand |
| LpReassemblers.LpReassembler.ReceiveFragment | NFD-FC/daemon/face/lp-reassembler.cpp:43-120 | does the receive step on the partial packets and returns what it completes |
| LpReassemblers.ReceiveRefuses | NFD-FC/daemon/face/lp-reassembler.cpp:51-82 | a fragment out of range, above the limit or without a Sequence changes nothing; a packet in one piece is given out at once |
| LpReassemblers.ReceiveTouchesOne | NFD-FC/daemon/face/lp-reassembler.cpp:83-114 | a fragment touches its own message only, and not that if the FragCount differs or the slot is filled |
| LpReassemblers.LpReassembler.TimeoutPartialPacket | NFD-FC/daemon/face/lp-reassembler.cpp:146-156 | forgets the partial packet and nothing else |
| LpReassemblers.DoReassembly | NFD-FC/daemon/face/lp-reassembler.cpp:122-144 | fills a buffer of the total size with the payloads in order |
| ReassemblyTheorems.GenuineFragment | NFD-FC/daemon/face/lp-reassembler.cpp:43-120 | a fragment of a message is ignored if its slot is filled, completes the message if it is the last one missing, and is kept otherwise; no other message is touched |
| ReassemblyTheorems.HoldsCollected | NFD-FC/daemon/face/lp-reassembler.cpp:43-156 | in every run of arrivals and timeouts the receiver holds exactly the fragments since the last completion or timeout |
| ReassemblyTheorems.CompletesOriginals | NFD-FC/daemon/face/lp-reassembler.cpp:43-144 | a run completes a message exactly at the arrivals that fill its last gap, with the original payload and the headers of its first fragment |
| ReassemblyTheorems.ExactlyOnce | NFD-FC/daemon/face/lp-reassembler.cpp:43-144 | without a timeout, under any order, repetition and interleaving: the receiver gives a message out exactly if all its fragments arrive, and exactly once if moreover the arrivals after the shortest stretch that holds them all do not hold them all again |
| ReassemblyTheorems.CompletedExactly | NFD-FC/daemon/face/lp-reassembler.cpp:43-156 | over every run, timeouts included, a message is given out exactly as often as the arrivals can be cut into stretches that hold all its fragments, each time as the original |
| ReassemblyTheorems.OnceWithoutRepeats | NFD-FC/daemon/face/lp-reassembler.cpp:43-144 | exactly once when every fragment arrives once |
| ReassemblyTheorems.RepeatedMessageCompletesTwice | NFD-FC/daemon/face/lp-reassembler.cpp:86-117 | two fragments that both arrive twice give the message out twice, because a repeat after completion begins a new partial packet |
| LinkSender.ReducedMtuExactly | NFD-FC/daemon/face/generic-link-service.cpp:191-205 | the reduced MTU is usable exactly from the reserved space on; one octet less is taken for unlimited |
| LinkSender.SequencesConsecutive | NFD-FC/daemon/face/generic-link-service.cpp:146-152 | each Sequence is one more than the last, modulo 2^64; the first is 2^64 - 1 and the second 0 |
| LinkSender.DistinctSequences | NFD-FC/daemon/face/generic-link-service.cpp:146-152 | Sequences repeat only after 2^64 of them |
| LinkSender.GenericLinkSender.AssignSequences | NFD-FC/daemon/face/generic-link-service.cpp:146-152 | consecutive Sequences, wrapping after the first |
| LinkSender.GenericLinkSender.PrepareNetPacket | NFD-FC/daemon/face/generic-link-service.cpp:187-233 | fragments and sequences a packet; a single fragment has no FragIndex or FragCount |
| LinkSender.PreparedFits | NFD-FC/daemon/face/generic-link-service.cpp:193-215 | every prepared packet fits the MTU once TxSequence and mark are set |
| LinkTheorems.OneMessagePerKey | NFD-FC/daemon/face/lp-reassembler.cpp:82-84 | message identifiers do not repeat within any 2^64 consecutive Sequences, also where these wrap |
| LinkSender.EffectiveMtuIsLeast | NFD-FC/daemon/face/generic-link-service.cpp:66-71 | the smaller of both MTUs, and an unlimited transport stays unlimited |
| LinkTheorems.EndToEnd | NFD-FC/daemon/face/lp-reassembler.cpp:43-156 | whatever a receiver completes is a packet its endpoint handed to the fragmenter, octet for octet with its own headers, for any packets, MTUs, endpoints, losses, repetitions, orders and timeouts |
| LinkTheorems.EndToEndCount | NFD-FC/daemon/face/lp-reassembler.cpp:43-156 | and every fragmented packet is completed exactly as often as the arrivals hold all its fragments anew |
| CongestionMarking.Interval | NFD-FC/daemon/face/generic-link-service.cpp:276-278 | the base interval over the square root, truncated, without rounding before that |
| CongestionMarking.ElapsedWithoutRounding | NFD-FC/daemon/face/generic-link-service.cpp:276-279 | where the division rounds nothing off, the bound on marks is the sum of the exact quotients, truncated |
| CongestionMarking.CongestionMarker.constructor | NFD-FC/daemon/face/generic-link-service.cpp:42-51 | begins outside an incident |
| CongestionMarking.CongestionMarker.CheckCongestionLevel | NFD-FC/daemon/face/generic-link-service.cpp:245-288 | there is no next mark time exactly outside an incident, the counter counts the marks of the incident, and the k-th mark never comes before the sum of the first k intervals from its beginning, whatever the division comes to in floating point; a packet is marked exactly when the queue is above the threshold and a mark is due |
| CongestionMarking.SendLpPacket | NFD-FC/daemon/face/generic-link-service.cpp:93-113 | attaches Acks, then marks, then drops the packet with its Acks exactly when its size before, the number of Acks and the mark make it too large |
| CongestionMarking.MarkLosesAcks | NFD-FC/daemon/face/generic-link-service.cpp:98-109 | five Acks that fit the minimum MTU and are lost to a mark |
| CongestionMarking.SentSize | NFD-FC/daemon/face/generic-link-service.cpp:93-113 | the size that leaves, from the size before, the number of Acks and the mark, for every packet, bare or not, marked before or not |
| CongestionMarking.DroppedExactly | NFD-FC/daemon/face/generic-link-service.cpp:93-113 | for MTUs up to 65535, exactly when a packet without a mark is dropped once it has Acks and perhaps a mark |
| CongestionMarking.UnreliableNeverOverMtu | NFD-FC/daemon/face/generic-link-service.cpp:93-113 | without reliability no packet the fragmenter let through is dropped for its size, marked or not |
| Tlv.MemCompare | ndn-cxx-FC/ndn-cxx/name-component.cpp:488 | the sign of the first difference |
| Tlv.LexIsNumeric | ndn-cxx-FC/ndn-cxx/name-component.cpp:500-502 | octet strings of one length sort as the numbers they stand for |
| Tlv.VarNumberRead | ndn-cxx-FC/ndn-cxx/encoding/tlv.hpp:392-409 | every size in which a number can be written reads back as the number |
| Tlv.VarNumberReadOnly | ndn-cxx-FC/ndn-cxx/encoding/tlv.hpp:392-409 | nothing else reads as a number |
| Tlv.VarNumberOrder | ndn-cxx-FC/ndn-cxx/encoding/tlv.hpp:462-487 | numbers in their shortest form sort as numbers whatever follows them |
| Tlv.NonNegativeIntegerRoundTrip | ndn-cxx-FC/ndn-cxx/encoding/tlv.hpp:490-535 | a number in 1, 2, 4 or 8 octets reads back |
| Tlv.NonNegativeIntegerOrder | ndn-cxx-FC/ndn-cxx/encoding/tlv.hpp:514-535 | shorter first, then octet by octet, is the order of the numbers |
| NameComponents.CanonicalIsTotalOrder | ndn-cxx-FC/ndn-cxx/name-component.cpp:473-503 | canonical order is a total order, with zero exactly for equal components |
| NameComponents.WireOrder | ndn-cxx-FC/ndn-cxx/name-component.cpp:483-489 | comparing the shorter length of two shortest encodings is canonical order |
| NameComponents.WireCompareExactly | ndn-cxx-FC/ndn-cxx/name-component.cpp:483-489 | an encoding compares as canonical order demands, against all components, exactly when type and length are in their shortest form |
| NameComponents.LongTypeSortsWrong | ndn-cxx-FC/ndn-cxx/name-component.cpp:483-489 | a generic component with a long type sorts after a component of type 9 |
| NameComponents.Compare | ndn-cxx-FC/ndn-cxx/name-component.cpp:480-503 | both branches: the encodings octet by octet, or type, length and octets with differences narrowed to 32 bits; canonical order for components without an encoding or with the shortest |
| NameComponents.PartsOrderExactly | ndn-cxx-FC/ndn-cxx/name-component.cpp:491-502 | comparing the parts is canonical order exactly when the difference of types or lengths keeps its sign in 32 bits |
| NameComponents.LongValueSortsWrong | ndn-cxx-FC/ndn-cxx/name-component.cpp:495-497 | 2^31 octets more compare as fewer |
| NameComponents.GetSuccessorValue | ndn-cxx-FC/ndn-cxx/impl/name-component-types.hpp:115-138 | adds one with carry to the octets as a number, or extends them when all are 255 |
| NameComponents.GetSuccessor | ndn-cxx-FC/ndn-cxx/name-component.cpp:505-519 | the successor, in the next type after the greatest digest |
| NameComponents.SuccessorIsNext | ndn-cxx-FC/ndn-cxx/impl/name-component-types.hpp:58-138 | no valid component lies between a component and its successor, for every type |
| NameComponents.NumberRoundTrip | ndn-cxx-FC/ndn-cxx/name-component.cpp:273-424 | segment, version, offset, timestamp and sequence numbers read back under a convention exactly when the decoder accepts it |
| NameComponents.KindsDiffer | ndn-cxx-FC/ndn-cxx/name-component.cpp:273-424 | a number of one kind is never taken for one of another |
| NameComponents.NumbersSort | ndn-cxx-FC/ndn-cxx/name-component.cpp:360-424 | they sort by number under both conventions |
| Names.NameOrderIsTotal | ndn-cxx-FC/ndn-cxx/name.cpp:329-343 | the order of names is total, with zero exactly for equal names |
| Names.CompareParts | ndn-cxx-FC/ndn-cxx/name.cpp:328-343 | the order of two parts of names, whatever encodings their components hold; canonical order for components without an encoding or with the shortest |
| Names.HeldNameOrderIsCanonical | ndn-cxx-FC/ndn-cxx/name.cpp:328-343 | component after component, for such components, is canonical order of names |
| Names.IsPrefixOf | ndn-cxx-FC/ndn-cxx/name.cpp:298-311 | true exactly for a prefix |
| Names.GetSuccessorName | ndn-cxx-FC/ndn-cxx/name.cpp:287-295 | the last component advanced, or the least digest for the empty name |
| Names.SuccessorBoundsPrefix | ndn-cxx-FC/ndn-cxx/name.cpp:287-295 | the names from a non-empty name up to its successor are exactly those it is a prefix of |
| Names.EmptyNameSuccessor | ndn-cxx-FC/ndn-cxx/name.cpp:290-293 | only the empty name comes before its successor |
| Names.SuccessorIsImmediateExactly | ndn-cxx-FC/ndn-cxx/name.hpp:516-524 | nothing lies between a name and its successor exactly for the empty name |
| UriText.EscapeLoop | ndn-cxx-FC/ndn-cxx/util/string-helper.cpp:84-103 | percent-encodes octet by octet |
| UriText.UnescapeLoop | ndn-cxx-FC/ndn-cxx/util/string-helper.cpp:113-136 | decodes, keeping malformed escapes |
| UriGrammar.UnreservedOctets | ndn-cxx-FC/ndn-cxx/util/string-helper.cpp:84-103 | exactly letters, digits and four marks stand for themselves, other octets are written with upper-case digits |
| UriGrammar.MalformedEscape | ndn-cxx-FC/ndn-cxx/util/string-helper.cpp:113-136 | a percent sign without two hexadecimal digits stands for itself |
| UriGrammar.UnescapesPlainText | ndn-cxx-FC/ndn-cxx/util/string-helper.cpp:113-136 | text without percent signs stands for its own octets |
| UriText.EscapeRoundTrip | ndn-cxx-FC/ndn-cxx/util/string-helper.cpp:84-136 | decoding an encoding gives the octets back |
| UriText.HexRoundTrip | ndn-cxx-FC/ndn-cxx/util/string-helper.cpp:44-74 | digests in hexadecimal read back |
| UriText.DecimalRoundTrip | ndn-cxx-FC/ndn-cxx/impl/name-component-types.hpp:300-317 | a number printed in decimal is read as that number |
| NameUri.FindByUriPrefix | ndn-cxx-FC/ndn-cxx/impl/name-component-types.hpp:356-364 | finds the type of a prefix exactly if there is one |
| NameUri.ComponentRoundTrip | ndn-cxx-FC/ndn-cxx/name-component.cpp:163-210 | a component read from its URI is the component, with a number in its shortest form |
| NameUri.ReadName | ndn-cxx-FC/ndn-cxx/name.cpp:70-113 | the loop over the components of a URI reads the name that `UriGrammar` describes; malformed ones are refused |
| UriGrammar.SchemeIgnored | ndn-cxx-FC/ndn-cxx/name.cpp:75-83 | a scheme before the first slash changes nothing |
| UriGrammar.AuthorityIgnored | ndn-cxx-FC/ndn-cxx/name.cpp:86-96 | nor does an authority after two slashes; alone it is the empty name |
| UriGrammar.ReadsEachComponent | ndn-cxx-FC/ndn-cxx/name.cpp:103-112 | each text between slashes is one component, all are read or none; a slash at the end changes nothing |
| UriGrammar.ReadsPeriods | ndn-cxx-FC/ndn-cxx/name-component.cpp:162-175 | periods alone stand for three fewer, and up to two are refused |
| UriGrammar.PeriodsRefused | ndn-cxx-FC/ndn-cxx/name.cpp:103-112 | a name with such a component, or with two slashes in the middle, is refused |
| UriGrammar.ReadsType | ndn-cxx-FC/ndn-cxx/name-component.cpp:177-199 | before an equals sign stands a type from 1 to 65535 without leading zeros or the name of a type; digests have 32 octets, numbers no leading zeros |
| NameUri.ReadWritten | ndn-cxx-FC/ndn-cxx/name.cpp:347-367 | a name read from its URI has every component in normal form |
| NameUri.NameUriRoundTrip | ndn-cxx-FC/ndn-cxx/name.cpp:347-367 | the URI of a name reads back as the name exactly when its numbers are in their shortest form; in the canonical format always |
| NameUri.LongSegmentDoesNotRoundTrip | ndn-cxx-FC/ndn-cxx/impl/name-component-types.hpp:319-329 | segment 0 in eight octets comes back in one |
| NameUri.HasFunctionExactly | ndn-cxx-FC/ndn-cxx/interest.hpp:210-213 | there is a function exactly when the list is not empty |
| NameUri.RemoveHeadFunction | ndn-cxx-FC/ndn-cxx/interest.cpp:376-391 | removes the first function, the others in normal form: exactly the first goes exactly when the numbers among the others are in their shortest form |
| Segmentation.PopulateStore | NDN-FC-skeleton/sfc_function.cpp:236-298 | the segments join to the file, are numbered from 0 under the name, all carry the function list and the number of the last; none is empty or above the free space, all but the last fill it; no result exactly without free space |
| Segmentation.ReadSegments | NDN-FC-skeleton/sfc_function.cpp:272-288 | the loop over the file: consecutive pieces as Data, all but the last full |
| Segmentation.SetFinalBlock | NDN-FC-skeleton/sfc_function.cpp:294-298 | sets the final block of all Data and nothing else |
| Segmentation.FreeSpaceOnWire | NDN-FC-skeleton/sfc_function.cpp:256-260 | the free space is the largest segment less the octets of the encoded names and 298 for the signature |
| Segmentation.NameSizeOnWire | NDN-FC-skeleton/sfc_producer.cpp:85-88 | the size of a name is that of its encoding |
| Segmentation.SegmentExactly | ndn-cxx-FC/ndn-cxx/name-component.cpp:305-315 | which components are segment numbers |
| Segmentation.NeverConfused | ndn-cxx-FC/ndn-cxx/interest.cpp:340-351 | no Interest is satisfied by Data of two names, segments or function lists |
| Segmentation.InOrderOfStore | NDN-FC-skeleton/sfc_function.cpp:195-202 | received segments in key order are the content |
| Segmentation.Receiver.OnData | NDN-FC-skeleton/sfc_function.cpp:90-158 | keeps the segment, on segment 0 asks for all others under the name read back from URIs, and gives the content out exactly when the count is reached |
| Segmentation.Receiver.AskForOthers | NDN-FC-skeleton/sfc_function.cpp:118-140 | the Interests for all segments after the first |
| Segmentation.Receiver.ReassembleSegments | NDN-FC-skeleton/sfc_consumer.cpp:122-139 | joins the buffer in key order and empties it |
| FunctionChain.AnswerIsSegment | NDN-FC-skeleton/sfc_producer.cpp:55-73 | producer and function answer an Interest for a segment with that segment |
| FunctionChain.AnswerExactly | NDN-FC-skeleton/sfc_producer.cpp:55-73 | what is answered is the segment asked for, at the producer only under a name of the right length |
| FunctionChain.FetchFirst | NDN-FC-skeleton/sfc_function.cpp:109-143 | segment 0 starts a transfer |
| FunctionChain.FetchNext | NDN-FC-skeleton/sfc_function.cpp:90-150 | any pending segment brings it on, the last one completes it |
| FunctionChain.Fetch | NDN-FC-skeleton/sfc_function.cpp:90-202 | whatever the order of arrival after segment 0, the content comes out as published and the receiver is ready again |
| FunctionChain.Producer.constructor | NDN-FC-skeleton/sfc_producer.cpp:32-42 | publishes the file, without functions, under the prefix followed by the file name read as a URI, whatever number of components it has; content, encoded names and 298 octets fit the largest segment, and fill it in all but the last |
| FunctionChain.Func.Forward | NDN-FC-skeleton/sfc_function.cpp:77-82 | the Interest passed on lacks the first function |
| FunctionChain.Func.Finish | NDN-FC-skeleton/sfc_function.cpp:146-186 | publishes the output under its own name before those already executed; fails exactly without room or output; content, encoded names and 298 octets fit the largest segment, and fill it in all but the last |
| FunctionChain.Hop | NDN-FC-skeleton/sfc_function.cpp:56-188 | one function turns what its upstream publishes into what it publishes, under the list it was asked with |
| FunctionChain.Ask | NDN-FC-skeleton/sfc_function.cpp:56-188 | by recursion over the chain: something is published exactly when no hop is stuck, every hop under exactly the list it was asked with, and it is the composition of the functions |
| FunctionChain.Consumer.Run | NDN-FC-skeleton/sfc_consumer.cpp:39-129 | the file written is f1(f2(...fk(content))), written exactly when every hop has room, output and fresh Data |
| FunctionChain.ListedOrderIsReversed | NDN-FC-skeleton/sfc_function.cpp:248-249 | what the chain computes from a list is what the listed order would compute from the reversed list |
| FunctionChain.ListedOrderFails | NDN-FC-skeleton/sfc_function.cpp:248-249 | two nodes for which the listed order would give another file than the chain does |
| FunctionChain.ListedOrderHoldsExactly | NDN-FC-skeleton/sfc_function.cpp:248-249 | the listed order is the order of application, for all programs and contents, exactly for lists of at most one function |
| FunctionChain.PublishesAsAskedExactly | NDN-FC-skeleton/sfc_function.cpp:248-249 | a function publishes under the list it was asked with exactly when its name is one component, the first of the list, and the others survive their URI |
| DelegationLists.DelegationOrderIsTotal | ndn-cxx-FC/ndn-cxx/delegation.hpp:51-56 | preference and then name is a total order |
| DelegationLists.SortedIsUnique | ndn-cxx-FC/ndn-cxx/delegation-list.cpp:153-166 | a list has one sorted arrangement |
| DelegationLists.UpperBound | ndn-cxx-FC/ndn-cxx/delegation-list.cpp:201-203 | the place after all that are not greater |
| DelegationLists.InsertedIsSorted | ndn-cxx-FC/ndn-cxx/delegation-list.cpp:201-203 | insertion keeps a list sorted |
| DelegationLists.SortedListSorts | ndn-cxx-FC/ndn-cxx/delegation-list.cpp:153-166 | the result of sorting is sorted, a permutation, and the list itself if that was sorted |
| DelegationLists.KeptCounts | ndn-cxx-FC/ndn-cxx/delegation-list.cpp:206-221 | how often each delegation is left by an erase |
| DelegationLists.DelegationList.InsertImpl | ndn-cxx-FC/ndn-cxx/delegation-list.cpp:193-204 | inserts in order, or at the end of an unsorted list |
| DelegationLists.DelegationList.EraseImpl | ndn-cxx-FC/ndn-cxx/delegation-list.cpp:206-221 | removes exactly the delegations with the name, and the preference if given, keeps every other as often as it was there, and counts |
| DelegationLists.DelegationList.Insert | ndn-cxx-FC/ndn-cxx/delegation-list.cpp:169-191 | the three ways to treat a repeated name, with how often each delegation is there afterwards; without appending, names stay distinct |
| DelegationLists.DelegationList.Sort | ndn-cxx-FC/ndn-cxx/delegation-list.cpp:153-166 | the sorted arrangement |
| DelegationLists.DelegationList.Decode | ndn-cxx-FC/ndn-cxx/delegation-list.cpp:111-150 | the delegations of a block, sorted on demand; refuses an empty list |
| DelegationLists.DecodeThenSort | ndn-cxx-FC/ndn-cxx/delegation-list.cpp:104-166 | decoding unsorted and sorting later equals decoding sorted |
| Blocks.ParseJoin | ndn-cxx-FC/ndn-cxx/interest.cpp:164-165 | blocks written one after another read back as those blocks |
| Blocks.ParsedAreWellFormed | ndn-cxx-FC/ndn-cxx/interest.cpp:164-165 | blocks that were read write back as the same octets |
| Blocks.ParsesExactly | ndn-cxx-FC/ndn-cxx/encoding/tlv.hpp:391-422 | a block is read exactly where its octets stand, only with a type from 1 to 2^32 - 1 |
| InterestCodec.NameRoundTrip | ndn-cxx-FC/ndn-cxx/name.cpp:115-128 | a name reads back from its encoding |
| InterestCodec.HintRoundTrip | ndn-cxx-FC/ndn-cxx/delegation-list.cpp:62-96 | a forwarding hint reads back from its encoding |
| InterestGrammar.HintReadsExactly | ndn-cxx-FC/ndn-cxx/delegation-list.cpp:104-150 | a hint is read exactly if it is one or more delegations, each a preference and a name |
| InterestCodec.CodecRoundTrip | ndn-cxx-FC/ndn-cxx/interest.cpp:65-134 | decoding an encoded Interest restores every field, the function list among them, with the hint sorted; without a name or with two digests it is refused |
| InterestCodec.CodecExactly | ndn-cxx-FC/ndn-cxx/interest.cpp:65-296 | the Interest itself comes back exactly when its hint is sorted |
| InterestGrammar.DecodesExactly | ndn-cxx-FC/ndn-cxx/interest.cpp:176-290 | a list of elements decodes exactly when two names come first and every further element is well formed and in its place, stated with the type numbers; each element then gives its field, others keep their default |
| InterestGrammar.CriticalRefused | ndn-cxx-FC/ndn-cxx/interest.cpp:278-282 | an element not recognised, of odd type or of type up to 31, refuses the Interest |
| InterestGrammar.InOrderOnce | ndn-cxx-FC/ndn-cxx/interest.cpp:206-256 | the five field elements come at most once each and in order |
| InterestGrammar.UnrecognisedSkipped | ndn-cxx-FC/ndn-cxx/interest.cpp:283-288 | any other element changes nothing but the parameters, and nothing at all before them |
| InterestPackets.FindParametersDigestComponent | ndn-cxx-FC/ndn-cxx/interest.cpp:772-784 | the only digest, none, or more than one |
| InterestPackets.DigestPlaced | ndn-cxx-FC/ndn-cxx/interest.cpp:752-770 | replacing or appending leaves exactly the new digest, erasing leaves none |
| InterestPackets.WithDigestAt | ndn-cxx-FC/ndn-cxx/interest.cpp:752-770 | the digest replaces the one there, or comes last |
| InterestPackets.WithoutDigestAt | ndn-cxx-FC/ndn-cxx/interest.cpp:564-574 | only the digest goes |
| InterestPackets.FindFirstParameter | ndn-cxx-FC/ndn-cxx/interest.cpp:786-792 | the first parameter of a type |
| InterestPackets.InfoPlaced | ndn-cxx-FC/ndn-cxx/interest.cpp:596-628 | a signature info is then the first of its type, in the place of another or before the signature value; all other parameters stay in order |
| InterestPackets.ValuePlaced | ndn-cxx-FC/ndn-cxx/interest.cpp:640-678 | the same for a signature value, after the info |
| InterestPackets.Interest.constructor | ndn-cxx-FC/ndn-cxx/interest.cpp:46-55 | begins with default fields and no encoding |
| InterestPackets.Interest.AddOrReplaceParametersDigestComponent | ndn-cxx-FC/ndn-cxx/interest.cpp:752-770 | afterwards the name holds exactly one digest, the hash of the parameters |
| InterestPackets.Interest.SetName | ndn-cxx-FC/ndn-cxx/interest.cpp:415-431 | refuses two digests; keeps digest and cached encoding right |
| InterestPackets.Interest.SetFunction | ndn-cxx-FC/ndn-cxx/interest.hpp:201-207 | sets the list and drops the cached encoding |
| InterestPackets.Interest.RemoveHeadFunction | ndn-cxx-FC/ndn-cxx/interest.cpp:376-391 | removes the first function and drops the cached encoding |
| InterestPackets.Interest.GetNonce | ndn-cxx-FC/ndn-cxx/interest.cpp:450-458 | a nonce is made once, and only then the encoding dropped |
| InterestPackets.Interest.SetForwardingHint | ndn-cxx-FC/ndn-cxx/interest.cpp:433-439 | sets the hint and drops the cached encoding |
| InterestPackets.Interest.SetApplicationParameters | ndn-cxx-FC/ndn-cxx/interest.cpp:507-536 | puts the block, wrapped if need be, first and renews the digest |
| InterestPackets.Interest.UnsetApplicationParameters | ndn-cxx-FC/ndn-cxx/interest.cpp:564-574 | removes parameters and digest |
| InterestPackets.Interest.SetSignatureInfo | ndn-cxx-FC/ndn-cxx/interest.cpp:596-628 | replaces the info or puts it before the signature value, and renews the digest if anything changed |
| InterestPackets.Interest.SetSignatureValue | ndn-cxx-FC/ndn-cxx/interest.cpp:640-678 | replaces the value or puts it after the info; refused without an info |
| InterestPackets.Interest.IsParametersDigestValid | ndn-cxx-FC/ndn-cxx/interest.cpp:714-733 | true exactly for no digest without parameters and for their hash with them |
| InterestPackets.Interest.DecodeElement | ndn-cxx-FC/ndn-cxx/interest.cpp:206-290 | one element, as `InterestGrammar.DecodesExactly` describes it for whole lists, and the fields left behind where it throws |
| InterestPackets.Interest.WireDecode | ndn-cxx-FC/ndn-cxx/interest.cpp:157-296 | accepts exactly what decodes and, when checked, has the right digest; the cached encoding then stands for the fields; the fields left behind by a throw, beside the refused encoding, are exactly those read so far |
| InterestCodec.DecodingLeavesAll | ndn-cxx-FC/ndn-cxx/interest.cpp:197-203 | nothing of an earlier Interest is left behind when decoding succeeds |
| InterestPackets.Interest.WireEncode | ndn-cxx-FC/ndn-cxx/interest.cpp:141-155 | returns a cached encoding as it is; else succeeds exactly with a name and a digest matched by parameters, keeps every field but sorts the hint; without a name the encoding that was refused stays cached |
| Cidr.BuildMask | NFD-FC/core/network.cpp:132-137 | sets exactly the first bits |
| Cidr.ReadNetwork | NFD-FC/core/network.cpp:126-175 | refuses prefix lengths above the address length; else the least and greatest address |
| Cidr.OctetOrderIsBitOrder | NFD-FC/core/network.hpp:41-45 | comparing octets as numbers is comparing bits |
| Cidr.ContainsExactly | NFD-FC/core/network.hpp:41-45 | an address is contained exactly when it is of the same family and agrees on the first bits, for every address and prefix length |

## Left out

- The receive path above the reassembler (`doReceivePacket`, `decodeInterest` and its like) and the send path above `sendNetPacket`: they copy header fields between packets.
- RTT estimation, the scheduler and logging: timers may expire at any time, the RTO is a parameter, and the log statement that reads an erased element (lp-reliability.cpp:352-353) is not modelled.
- Decoding of `lp::Packet`: the link service works on fields and sizes (`LpEncoding.SizeOnWire` gives the octets), and headers that it does not touch are uninterpreted elements.
- CongestionMarking.Interval: the square root is exact before truncation. The marker itself takes the intervals as they are computed, so its bound does not depend on rounding.
- LinkTheorems.EndToEnd: covers any 2^64 consecutive Sequences of every endpoint, wherever they begin; over longer stretches message identifiers repeat, and a fragment delayed for so long would be taken for one of a later packet.
- LpReliabilityService.LpReliability.SendIdlePackets: for an MTU below 16 the source loops for ever (`AckPiggyback.IdleProgress`), so such MTUs are excluded.
- AckPiggyback.OverMtuExactly: the sizes of 253 and 254 are singled out for MTUs up to 65535; a network packet has at most 8800 octets.
- NameComponents.Compare: lengths that differ by a positive multiple of 2^32 are excluded, because the source then reads past the end of the shorter value.
- Matching of Interests by prefix or implicit digest: the Interests of a chain ask for exact names.
- Segmentation.PopulateStore: a file that cannot be opened reads as an empty one; signing and freshness handling by caches are not modelled, and the size of the signed packet is not computed.
- FunctionChain.Consumer.Run: one request at a time, one node per function, and function names as `FunctionChain.PublishesAsAskedExactly` demands of every hop; the content name survives the URIs it passes through (`NameUri.NameUriRoundTrip`). Nacks, timeouts and Data before segment 0 are not modelled.
- The program a function node runs is a total function from files to files; the shell commands around it are not modelled.
- Setters of lifetime, hop limit, CanBePrefix, MustBeFresh and Nonce, and refreshNonce: each assigns one field and drops the cached encoding.
- The Data, MetaInfo and SignatureInfo codecs: they repeat the argument for the Interest with easier members.
- Cidr.ReadNetwork: starts from a parsed address and prefix length; IPv6 scope identifiers are not modelled.
- Signature checking, forwarding tables, strategies, face management and transports.
