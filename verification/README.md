# Verified model of the OpenNIC packet filter

A UDP packet filter runs on an FPGA card: a kernel consumes one 512-bit phit per cycle, hashes the
packet's destination address and port with a Toeplitz hash into a small table without tags, and
forwards the phit if the table cell holds 1. A DPDK program writes one rule at a time into three
registers. There is no handshake: every cycle without input inserts whatever the registers hold,
finished or half-written, and the verdict is looked up again for every phit.

The project models the kernel, the hash and its table, the header codec, the register protocol, the
filter-list parser, the statistics and the DPDK receive side, and proves what holds in **every
interleaving** of hardware cycles with register accesses.

## How it is built

| file | content |
|---|---|
| `BitVectors.dfy` | `ap_uint` values as bit sequences, least significant bit first; bytes on the bus |
| `HashIndex.dfy`, `Toeplitz.dfy`, `HashTable.dfy`, `Balance.dfy`, `KnownHashes.dfy` | from the hash to the table cell; how endpoints share cells; what the built-in key makes of single bits and of the documented filters |
| `Network.dfy` | Ethernet, IPv4 and UDP headers in the first phit |
| `Kernel.dfy`, `Card.dfy` | the kernel object, one call per cycle, and the kernel with its rule registers |
| `Runs.dfy`, `PacketLevel.dfy`, `RuleInstall.dfy`, `Counters.dfy` | runs of the concurrent system: per-phit verdict, packet-level refinement, rule installation, statistics |
| `FilterText.dfy`, `Frames.dfy`, `Mmio.dfy`, `Configuration.dfy` | command line, frames as bytes, register accesses through PCIe, end-to-end results |
| `HalfRules.dfy`, `OutputFrames.dfy` | which filters open a third bucket; where the frames begin that leave the kernel |
| `Dpdk.dfy`, `Handshake.dfy` | thread and queue numbering, the burst loop, callback registration |

Objects that the program updates in place are classes whose methods are proved against functions on
values (`Kernel.PhitCycle`, `HashTable.Insert`, `Network.Encode`, `Runs.Run`); the results are about those
functions. `Runs.Event` lists the atomic steps: an idle cycle, the consumption of a phit, and the three
register writes. A run is any sequence of them from reset. `Mmio.Device` performs an arbitrary schedule
of hardware cycles before every 32-bit access; its schedules produce all interleavings
(`Mmio.EveryHistoryIsScheduled`).
All results about the table hold for every `HASH_TABLE_SIZE` from 1 to 2^31 - 1; only `Balance`,
`KnownHashes` and the examples of `HalfRules` fix the default of 32.

## Where the code differs from what its text suggests

- README.md:128 says that the design accepts up to 32 filters. Two filters already collide if their
  buckets agree, and every endpoint has a partner in the same bucket (`Balance.EveryEndpointIsShadowed`).
  The table is a map from endpoints to actions exactly for sets of endpoints with distinct buckets
  (`HashTable.MapIffBucketsDistinct`).
- The comment at hardware/src/hls/packet_filter.cc:76-77 speaks of one decision on the first phit. The code
  decides again for each phit. A packet can therefore lose its head or its tail
  (`RuleInstall.PacketCanLoseItsHead`, `RuleInstall.PacketCanLoseItsTail`); it passes whole or not at all
  exactly when its cell is stable in flight (`Runs.WholeOrNothingIffCellStable`).
- The filter is meant to forward IPv4/UDP frames only. When a packet has lost its head, the frame that
  leaves the kernel begins with a later phit, whose bytes can be anything, and the packet handler may skip
  it (`OutputFrames.SkippedFrameCanLeave`). While the constructor runs, the frames begin with the headers of
  their packets exactly if every forwarded packet found its bucket open
  (`OutputFrames.FramesBeginWithHeadersIffLit`); from a packet boundary on and with a settled rule they
  always do (`OutputFrames.SettledFramesPass`).
- The statistic named `phit_in` grows by one per packet, because `phit_idx` is reset before it is added. It
  equals the number of phits exactly if all packets have one phit (`Counters.PhitCounterIffSinglePhitPackets`).
  Adding the index before its reset would count all phits (`Counters.SumBeforeResetCountsPhits`).
- A half-written rule is a real rule: an idle cycle between an address write and the port write inserts
  the new address with the old port. `RuleInstall.OnlyRequestedIffHalvesRequested` says when that is harmless,
  and `HalfRules.PairIsHarmfulIff` reduces it for two filters to the buckets of two differences. The example
  at README.md:133 is not harmless (`HalfRules.DocumentedExampleOpensThirdBucket`): its rules go into slots 6
  and 28, and slot 20 can open. Nor is any pair of filters that differs in one port bit and one address bit
  other than bit 5 (`HalfRules.PartnerIsHarmfulIff`).
- A 64-bit counter is read in two halves. At every carry into the high half there is a run in which the
  display shows 2^32 - 1 packets too many (`Configuration.SplitReadCanTear`). The display covers the packets
  in, whenever the later reads happen, exactly if the low half of the packet counter grew between its two
  reads (`Configuration.DisplayCoversIffLowHalfGrew`).
- A port above 65535 in a filter is not refused but cut to 16 bits (`FilterText.LargePortIsCut`).
- The log of a received packet shows its addresses with the bytes in reverse order
  (`Frames.LoggedAddressIsReversed`).
- software/src/main.cc:55-57 registers callbacks for the requested number of threads, but
  software/src/dpdk.cc:139-146 may have rounded that number up. All threads get a callback exactly if the
  number of ports divides the request (`Dpdk.DPDK.RegisterAll`); a thread without one never receives and
  sleeps on, even at shutdown (`Handshake.UnregisteredNeverReceives`, `Handshake.UnregisteredSleepsOn`).

## Model

| member | source | states |
|---|---|---|
| HashIndex.ClzFindsTopBit | hardware/src/hls/hash.h:11-12 | the count of leading zeros locates the highest set bit of every nonzero 32-bit size |
| HashIndex.MaskIsLargestPower | hardware/src/hls/hash.h:6-13 | for every table size, HASH_MASK + 1 is the largest power of two not above it |
| HashIndex.IndexIsLowBits | hardware/src/hls/hash.cc:36-44 | masking keeps the low HASH_BITS bits; every lookup and insert index is inside the table |
| HashIndex.AddressableSlots | hardware/src/hls/hash.h:8-13 | exactly the slots up to HASH_MASK can be selected by some hash |
| HashIndex.EverySlotUsedIffPowerOfTwo | hardware/src/hls/hash.h:6-13 | all slots are usable if and only if the size is a power of two |
| Toeplitz.PartialHashStep | hardware/src/hls/hash.cc:24-31 | adding one window extends the per-bit parities by one input bit |
| Toeplitz.ShiftRegisterForm | hardware/src/hls/hash.cc:21-33 | the per-bit parity form equals the shift-register form of the hash for every key and input |
| Toeplitz.HashLinear | hardware/src/hls/hash.cc:21-33 | the hash is linear over GF(2) in the 48 input bits |
| Toeplitz.HashOfZero | hardware/src/hls/hash.cc:21-33 | the zero input hashes to zero |
| Toeplitz.HashDependsOnLow79Bits | hardware/src/hls/hash.cc:5-33 | two 320-bit keys give the same hash function if and only if their low 79 bits agree |
| HashTable.ToeplitzHash.constructor | hardware/src/hls/hash.cc:5-19 | the ten range assignments produce the key and the table starts with zeros |
| HashTable.ToeplitzHash.SetWord | hardware/src/hls/hash.cc:9-18 | one range assignment fills the next 32 key bits and keeps the earlier ones |
| HashTable.ToeplitzHash.GetWindow | hardware/src/hls/hash.h:18-20 | the window of 32 key bits at an offset, or zero for a clear bit |
| HashTable.ToeplitzHash.ComputeHash | hardware/src/hls/hash.cc:21-33 | the two xor loops compute the matrix product over GF(2) |
| HashTable.ToeplitzHash.LookupAddr | hardware/src/hls/hash.cc:35-39 | returns the cell of the key's bucket |
| HashTable.ToeplitzHash.InsertAddr | hardware/src/hls/hash.cc:41-45 | changes the cell of the key's bucket and no other |
| HashTable.InsertionsCommuteIff | hardware/src/hls/hash.cc:41-45 | two insertions commute exactly if their buckets or their values say so |
| HashTable.TableIsHistory | hardware/src/hls/hash.cc:35-45 | after any insertions a cell holds the value of the latest one into its bucket, 0 if none |
| HashTable.MapIffBucketsDistinct | hardware/src/hls/hash.cc:35-45 | the table answers like an ideal map on a set of endpoints, for all insertions, if and only if their buckets are distinct |
| Balance.BlockReachesEveryBucketOnce | hardware/src/hls/hash.cc:9-33 | with all other bits fixed, the 32 settings of address bits 6 to 10 reach each bucket once |
| Balance.FlippingBit5KeepsBucket | hardware/src/hls/hash.cc:9-33 | address bit 5 never influences the bucket |
| Balance.EveryEndpointIsShadowed | hardware/src/hls/hash.cc:35-45 | every endpoint shares its bucket with a different one |
| Balance.EveryBucketHoldsItsShare | hardware/src/hls/hash.cc:9-33 | each of the 32 buckets holds exactly 2^43 of the 2^48 endpoints |
| Balance.MoreAddressesThanSlotsCollide | hardware/src/hls/hash.h:6-16 | more endpoints than HASH_MASK + 1 always contain a colliding pair |
| Balance.DefaultTableIsFull | hardware/src/hls/hash.h:6-16 | the default table has 32 slots, and exactly these are selected by some hash |
| KnownHashes.BuiltInKeyWords | hardware/src/hls/hash.cc:9-18 | the ten 32-bit ranges of the key as numbers |
| KnownHashes.KnownSingleBitHashes | hardware/src/hls/hash.cc:21-33 | the hashes of the first address bit and of the first and last port bit as numbers, which show all 79 key bits in use |
| KnownHashes.OnlyBit5IsDead | hardware/src/hls/hash.cc:21-39 | flipping any of the 48 address and port bits keeps the slot if and only if it is address bit 5 |
| KnownHashes.DocumentedSlots | hardware/src/hls/hash.cc:21-39 | 192.168.2.1:8500 is in slot 6, 192.168.2.95:8501 in slot 28 and 192.168.2.95:8500 in slot 20 |
| Network.DecodeAfterEncode | hardware/src/hls/network.cc:97-107 | deserializing a serialized header returns all 19 fields, whatever the word held |
| Network.FieldsTileHeader | hardware/src/hls/network.cc:5-95 | the 19 fields tile the first 8 * size() = 336 bits without gap or overlap |
| Network.EncodeAfterDecode | hardware/src/hls/network.cc:97-107 | serializing deserialized headers restores the low 336 bits and leaves bits 336 to 511 alone |
| Network.ZeroHeadersAreZeros | hardware/src/hls/packet_filter.cc:68 | the headers held before the first packet are those of a word of zeros |
| Network.EthernetHeader.Serialize | hardware/src/hls/network.cc:5-15 | overwrites bits 0 to 111 on phit 0, nothing on other phits |
| Network.EthernetHeader.Deserialize | hardware/src/hls/network.cc:17-27 | reads the three fields on phit 0, keeps them on other phits |
| Network.IPv4Header.Serialize | hardware/src/hls/network.cc:29-48 | overwrites bits 112 to 271 on phit 0, nothing on other phits |
| Network.IPv4Header.Deserialize | hardware/src/hls/network.cc:50-69 | reads the twelve fields on phit 0, keeps them on other phits |
| Network.UDPHeader.Serialize | hardware/src/hls/network.cc:71-82 | overwrites bits 272 to 335 on phit 0, nothing on other phits |
| Network.UDPHeader.Deserialize | hardware/src/hls/network.cc:84-95 | reads the four fields on phit 0, keeps them on other phits |
| Network.NetworkPacket.Serialize | hardware/src/hls/network.cc:97-101 | puts the 336 header bits in front of the rest of the word on phit 0 only |
| Network.NetworkPacket.Deserialize | hardware/src/hls/network.cc:103-107 | phit 0 replaces all fields, every other phit leaves them latched |
| Kernel.PacketFilterKernel.constructor | hardware/src/hls/packet_filter.cc:57-68 | zero table, headers, phit index and statistics |
| Kernel.PacketFilterKernel.ProcessPacket | hardware/src/hls/packet_filter.cc:49-105 | one cycle: without input insert the registers and publish; with input consume one phit and perhaps emit it; all other state unchanged |
| Kernel.PacketFilterKernel.FilterPhit | hardware/src/hls/packet_filter.cc:73-104 | a phit updates headers, index and counters and is copied exactly if its verdict is 1 |
| Kernel.PacketFilterKernel.Decide | hardware/src/hls/packet_filter.cc:75-82 | the verdict is the cell of the latched target for IPv4/UDP headers and 0 otherwise |
| Kernel.PacketFilterKernel.CountPacket | hardware/src/hls/packet_filter.cc:97-103 | counts a finished packet as in and as forwarded or dropped, modulo 2^64 |
| Card.FilterCard.Perform | hardware/src/hls/packet_filter.cc:24-47 | the kernel object with its registers performs one event of a run |
| Card.FilterCard.PerformAll | hardware/src/hls/packet_filter.cc:24-47 | calling the kernel cycle by cycle yields the run of the system |
| Runs.TableIsIdleHistory | hardware/src/hls/packet_filter.cc:60-64 | in every run the table is the insertion history of the idle cycles; traffic never changes it |
| Runs.HeadersStayLatched | hardware/src/hls/packet_filter.cc:67-73 | at every point of a run the kernel knows whether it is between packets, and inside one holds the headers of its first phit |
| Runs.VerdictPerPhit | hardware/src/hls/packet_filter.cc:73-93 | a phit is emitted if and only if its packet's first phit is IPv4/UDP and the target's cell is 1 when that phit arrives |
| Runs.OutputIsForwardedPhits | hardware/src/hls/packet_filter.cc:84-93 | the output of every run is exactly those phits, unchanged and in order |
| Runs.WholeOrNothingIffCellStable | hardware/src/hls/packet_filter.cc:73-93 | a packet passes whole or not at all if and only if it is not IPv4/UDP or its cell is stable in flight |
| PacketLevel.SettledRunFilters | hardware/src/hls/packet_filter.cc:60-95 | with a settled rule, any stream with any idle cycles, even from mid-packet, gives the output of the packet-level filter |
| PacketLevel.ProbeIsAddressed | hardware/src/hls/network.h:12-17 | for every endpoint there is an IPv4/UDP phit that the kernel looks up under it |
| PacketLevel.PacketFilterIffSettled | hardware/src/hls/packet_filter.cc:60-95 | without register writes the kernel is a filter on whole packets if and only if the rule in the registers agrees with the table |
| RuleInstall.RegistersAfter | software/src/packet_filter.cc:44-47 | the registers after any number of the constructor's writes, in every interleaving |
| RuleInstall.CellsAfter | hardware/src/hls/packet_filter.cc:60-63 | in every reachable state a cell holds 1 exactly if an idle cycle found its bucket in the registers with the action set, else 0 |
| RuleInstall.CellsOnlySwitchOn | software/src/packet_filter.cc:19-21 | while forwarding rules are installed, cells only go from 0 to 1 |
| RuleInstall.IdleWindowInstallsRule | software/src/packet_filter.cc:44-47 | a rule with an idle cycle in its window is looked up as "forward" in all later states |
| RuleInstall.ReachableCells | software/src/packet_filter.cc:44-47 | the cells some interleaving opens are exactly the buckets of rules and of half-written rules |
| RuleInstall.OnlyRequestedIffHalvesRequested | software/src/packet_filter.cc:44-47 | no interleaving opens an unrequested bucket if and only if every address with the previous rule's port falls into a requested one |
| RuleInstall.SharedPortOpensOnlyRequested | software/src/packet_filter.cc:44-47 | rules that share one port open only requested buckets |
| RuleInstall.ConfiguredCells | software/src/packet_filter.cc:16-22 | after a complete configuration the open cells are exactly the requested ones |
| RuleInstall.ConfiguredCardFiltersPackets | hardware/src/hls/packet_filter.cc:60-95 | a completely configured card forwards exactly the packets sent to requested buckets: whole, unchanged, in order, for every later stream; the rest of a packet in flight passes or vanishes by the same rule |
| RuleInstall.EmittedPhitsFormSuffix | hardware/src/hls/packet_filter.cc:73-93 | in every interleaving of the constructor, once a phit of a packet is emitted, so are all later ones |
| RuleInstall.PacketCanLoseItsHead | hardware/src/hls/packet_filter.cc:73-93 | a rule installed in flight lets through only the tail of a packet |
| RuleInstall.PacketCanLoseItsTail | software/src/packet_filter.cc:24-48 | from reset, in a run with the writes of two `update_rule` calls, a rule withdrawn in flight cuts off the tail of a packet |
| HalfRules.SameBucketIffDifferenceIsZero | hardware/src/hls/hash.cc:21-44 | for every table size, two endpoints share a bucket if and only if their difference falls into bucket 0 |
| HalfRules.PairIsHarmfulIff | software/src/packet_filter.cc:44-47 | for every table size, two filters open a third bucket in some interleaving if and only if neither their address difference nor their port difference falls into bucket 0 |
| HalfRules.PartnerIsHarmfulIff | software/src/packet_filter.cc:44-47 | two filters that differ in one address bit and one port bit can open a third bucket if and only if the address bit is not bit 5 |
| HalfRules.DocumentedExampleOpensThirdBucket | README.md:133 | for the documented filter list some interleaving opens a bucket of neither filter |
| OutputFrames.SkippedFrameCanLeave | hardware/src/hls/packet_filter.cc:73-93 | any frame that the handler skips can be the whole output of a constructor run |
| OutputFrames.FilteredFramesAreAccepted | hardware/src/hls/packet_filter.cc:73-93 | every frame that the packet-level filter lets out begins with the headers of an accepted packet |
| OutputFrames.SettledFramesPass | software/src/main.cc:114-136 | from a packet boundary on and with a settled rule, the handler skips no frame of the output |
| OutputFrames.OutputBetweenFrames | hardware/src/hls/packet_filter.cc:84-95 | in every state of a constructor run the output stands between two frames exactly if there is no packet in flight whose latest phit was emitted |
| OutputFrames.FrameBeginsWithHeadersIffLit | hardware/src/hls/packet_filter.cc:73-93 | in every interleaving of the constructor, a frame of the output begins with its packet's header phit if and only if the bucket was open before that phit arrived |
| OutputFrames.FramesBeginWithHeadersIffLit | hardware/src/hls/packet_filter.cc:73-93 | in a constructor run all frames begin with the headers of their packet if and only if every packet of which something was forwarded found its bucket open |
| OutputFrames.FramesInTimePass | software/src/main.cc:114-136 | in such a run the handler skips no frame of the output |
| Counters.CountersCountPackets | hardware/src/hls/packet_filter.cc:95-104 | in every run the counters count completed, forwarded and dropped packets modulo 2^64, and the phit counter counts packets |
| Counters.EveryPacketHasOneFate | hardware/src/hls/packet_filter.cc:96-103 | completed packets are the sum of forwarded and dropped ones |
| Counters.OutputEndsForwardedPackets | hardware/src/hls/packet_filter.cc:84-103 | packets counted as forwarded are the packet ends at the output |
| Counters.CountersAreConserved | hardware/src/hls/packet_filter.cc:96-103 | in every reachable state packets in = forwarded + dropped modulo 2^64, and forwarded matches the output |
| Counters.PublishedIsEarlierLocal | hardware/src/hls/packet_filter.cc:60-63 | the visible statistics are the live ones of the latest idle cycle |
| Counters.PhitCounterCompared | hardware/src/hls/packet_filter.cc:95-98 | in every run the phit counter matches the phits of completed packets modulo 2^64 if and only if the phits behind the first ones are a multiple of 2^64 |
| Counters.PhitCounterIffSinglePhitPackets | hardware/src/hls/packet_filter.cc:95-98 | without a wrap, the phit counter counts the phits of completed packets if and only if each of them has one phit |
| Counters.IndexCountsPendingPhits | hardware/src/hls/packet_filter.cc:95 | in every run the index is the number of phits since the last packet end |
| Counters.SumBeforeResetCountsPhits | hardware/src/hls/packet_filter.cc:95-98 | adding the index plus one before its reset would count all phits of completed packets, in every run |
| Counters.TwoPhitsCountedOnce | hardware/src/hls/packet_filter.cc:95-98 | a packet of two phits raises the phit counter by one |
| FilterText.ParseFilterArgument | software/src/main.cc:87-95 | the getline loop yields the tokens between commas |
| FilterText.TokensOfTerminated | software/src/main.cc:91-93 | with a trailing comma every token list is recovered, empty tokens included |
| FilterText.TokensOfJoined | software/src/main.cc:91-93 | without one, everything but an empty last token is recovered |
| FilterText.StoIOfDecimal | software/src/packet_filter.cc:41 | the decimal notation of a number is read back as that number |
| FilterText.StoIReads | software/src/packet_filter.cc:41 | a text is read as a number if and only if it is white space, an optional sign, at least one digit and anything behind the digits, with a value of 32 bits |
| FilterText.InetAddrOfIp | software/src/packet_filter.cc:37-38 | a dotted quad yields its bytes in memory order, and INADDR_NONE exactly for 255.255.255.255 |
| FilterText.AcceptedIffSpellsConfigurable | software/src/packet_filter.cc:29-42 | a filter is accepted if and only if it is an address, a colon and a number whose low 16 bits form a configurable endpoint, and yields that endpoint's values |
| FilterText.RuleRoundTrip | software/src/packet_filter.cc:29-42 | a printed endpoint is accepted if and only if it is configurable, and yields its values in network byte order |
| FilterText.RuleRoundTripNumbers | software/src/packet_filter.cc:29-42 | a printed endpoint is accepted unless its port is 0 or its address 255.255.255.255, and yields the numbers of its bytes in network byte order |
| FilterText.LargePortIsCut | software/src/packet_filter.cc:41-42 | a printed port of any size below 2^31 stands for its remainder modulo 2^16 |
| FilterText.FilterListRoundTrip | software/src/main.cc:87-95 | a printed list of endpoints is split back into its filters, with or without a trailing comma |
| Frames.HeaderBytes | hardware/src/hls/network.cc:17-95 | which bytes of a frame the fifteen byte-aligned fields hold |
| Frames.NetworkPacketHandler | software/src/main.cc:109-161 | skips a packet unless bytes 12, 13 and 23 are 0x08, 0x00 and 17; rejects it if the UDP length exceeds the packet; otherwise receives the datagram's payload behind byte 42, whose length is the UDP length less 8, modulo 2^64, and lies inside the packet if and only if the UDP length is at least 8 |
| Frames.LoggedAddressIsReversed | software/src/main.cc:170-194 | the logged text of an address is that of the reversed address, and right if and only if the address is a palindrome |
| Frames.HardwareGatesAreHandlerGates | hardware/src/hls/network.h:17-42 | the kernel considers a packet exactly if the handler does not skip a frame that begins with the packet's first 64 bytes |
| Frames.KernelGatesOfBytes | hardware/src/hls/network.h:17-42 | the kernel considers exactly the packets with bytes 0x08, 0x00 and 17 at 12, 13 and 23 |
| Frames.GatesOfBytes | software/src/main.cc:120-136 | the handler goes on with exactly the same bytes |
| Frames.RegistersHoldWireBytes | software/src/packet_filter.cc:36-46 | on a little-endian host the register values are the endpoint's bytes on the wire |
| Frames.TargetIsDestination | hardware/src/hls/packet_filter.cc:79-81 | the kernel looks a frame up under an endpoint if and only if the frame is sent to it |
| Mmio.PacketFilter.UpdateRule | software/src/packet_filter.cc:24-48 | an unusable filter causes no access; a usable one exactly the address, port and action writes in order, each behind the next batch of hardware cycles |
| Mmio.PacketFilter.InstallAll | software/src/packet_filter.cc:19-21 | the rules before the first unusable filter are written, in order, each write behind the next batch of hardware cycles, and no other register |
| Mmio.AllRulesLead | software/src/packet_filter.cc:24-42 | the rules are those in front of the first filter that is not usable, in order |
| Mmio.RegisterWrites | software/src/packet_filter.h:52-62 | the three addresses whose writes reach the rule registers, and how many bits arrive |
| Mmio.EveryHistoryIsScheduled | software/src/packet_filter.cc:113-116 | every interleaving of register writes with hardware cycles arises from some schedule of the device |
| Mmio.PacketFilter.WithFilters | software/src/packet_filter.cc:16-22 | the constructor's register writes for a filter list |
| Mmio.PacketFilter.MmioRegWrite | software/src/packet_filter.cc:113-116 | one write at base plus offset after any number of hardware cycles |
| Mmio.PacketFilter.MmioRegRead | software/src/packet_filter.cc:118-121 | one read at base plus offset after any number of hardware cycles |
| Mmio.PacketFilter.Read64 | software/src/packet_filter.h:34-46 | the low half of the counter at one moment joined with the high half at a later one |
| Mmio.PacketFilter.ShowStats | software/src/packet_filter.cc:50-64 | the four counters are read in order at eight moments of the run, and the lines for them are printed unless the packet counters are all zero, a line for each value other than zero and all ones |
| Mmio.LinesShown | software/src/packet_filter.cc:12-14 | a line is shown if and only if some packet counter is not zero and the line carries its own counter, which is neither zero nor all ones |
| Mmio.LinesInOrder | software/src/packet_filter.cc:56-63 | the order of the lines |
| Configuration.DriverFollowsProtocol | software/src/packet_filter.cc:19-47 | every history the driver can produce for some rules is a protocol run for those rules |
| Configuration.Configure | software/src/main.cc:47-58 | start-up on any hardware schedule leaves exactly the writes for the filter argument, each behind the next batch of the schedule |
| Configuration.PrintedListConfigures | software/src/main.cc:87-95 | a printed list of configurable endpoints, with or without a trailing comma, results in the complete protocol run for their wire addresses |
| Configuration.DocumentedListConfigures | software/src/main.cc:87-95 | the documented filter argument, as text, puts the two wire addresses into the registers, whose slots are 6 and 28 |
| Configuration.FrameToConfiguredEndpointPasses | hardware/src/hls/packet_filter.cc:73-93 | in every interleaving, a frame to an endpoint whose rule had its idle cycle is forwarded |
| Configuration.CutPacketCountsAsForwarded | hardware/src/hls/packet_filter.cc:96-103 | a packet of which only a suffix passed counts as forwarded |
| Configuration.WithdrawalIsTwoUpdates | software/src/packet_filter.cc:44-47 | the run in which a packet loses its tail has exactly the writes of two `update_rule` calls |
| Configuration.SplitReadBounds | software/src/packet_filter.h:41-45 | a split read of a growing counter is at least the first value, less than the second + 2^32, and exact if and only if the high half was stable |
| Configuration.ReadAtLeast | software/src/packet_filter.h:41-45 | in every run before a wrap, a displayed counter is at least its value at the first access, and exactly that if and only if the high half was the same at both accesses |
| Configuration.SplitReadCanTear | software/src/packet_filter.h:41-45 | for every carry into the high half there is a run from reset whose display shows 2^32 - 1 packets more than have arrived |
| Configuration.PublishedCounts | hardware/src/hls/packet_filter.cc:60-63 | before any wrap the visible statistics are true counts of an earlier moment |
| Configuration.RegistersShowCounts | software/src/packet_filter.h:64-67 | before a wrap, offsets 0x28, 0x40, 0x58 and 0x70 show the packets in (twice), forwarded and dropped of the latest publication |
| Configuration.ReadShowsCountIff | software/src/packet_filter.h:41-45 | a 64-bit read of these offsets shows the true count of its first access if and only if the high half was the same at both accesses |
| Configuration.CounterHalves | software/src/packet_filter.h:41-44 | at which addresses the low and the high half of each counter are read |
| Configuration.DisplayCoversPacketsIn | software/src/packet_filter.cc:50-63 | the display shows forwarded + dropped >= in, in every interleaving, if the low half of the packet counter grew between its two reads |
| Configuration.DisplayCoversIffLowHalfGrew | software/src/packet_filter.cc:50-63 | given the two reads of the packet counter, forwarded + dropped >= in at all times of the later reads if and only if its low half grew between them |
| Configuration.DisplayAppears | software/src/packet_filter.cc:56-63 | the display appears if a packet was published before its first read, and is silent if none was until its last |
| Dpdk.AdjustedIsLeastMultiple | software/src/dpdk.cc:139-146 | the adjusted thread count is the least multiple of the port count not below the request |
| Dpdk.AdjustedExceeds | software/src/dpdk.cc:139-146 | rounding adds fewer threads than there are ports, and some exactly if the request is not a multiple |
| Dpdk.DPDK.InitDpdk | software/src/dpdk.cc:133-173 | makes the device calls for all pools and then for all ports in order, up to the first that fails, and succeeds exactly if there is a port and none fails; then every slot has been filled once, in ascending order, with port id / n, queue id % n and its own number, and every queue has its own pool under the same number; otherwise the slots of the ports before the first failing one have been filled |
| Dpdk.DPDK.InitPorts | software/src/dpdk.cc:163-173 | ports are initialized in order up to the first one that fails, and its threads are not assigned |
| Dpdk.DPDK.AssignThreads | software/src/dpdk.cc:168-172 | the inner loop fills the slots of one port |
| Dpdk.DPDK.PortInit | software/src/dpdk.cc:190-256 | makes the device calls for one port in order, up to the first that fails; the queues get the pools with their thread numbers |
| Dpdk.PortProgramIs | software/src/dpdk.cc:190-256 | the order of these calls: check, information, configuration, descriptors, the queues in turn, start, statistics |
| Dpdk.PortNeedsEveryCall | software/src/dpdk.cc:190-256 | a port can be initialized if and only if every one of its calls and every one of its queues succeeds |
| Dpdk.DPDK.LaunchLoops | software/src/dpdk.cc:178-187 | every slot's receive loop is started once, slot 0 last, up to the first core that fails |
| Dpdk.DPDK.RegisterCallback | software/src/dpdk.cc:33-39 | an id without a slot ends the process, any other id sets the callback of its slot only |
| Dpdk.DPDK.RegisterAll | software/src/main.cc:54-57 | exactly the threads below the requested number get a callback, and all threads do if and only if the number of ports divides that number |
| Dpdk.DPDK.SlotsAreDistinct | software/src/dpdk.cc:163-173 | no two threads share a port and a queue, or a memory pool |
| Dpdk.DPDK.SlotOfQueue | software/src/dpdk.cc:163-173 | slot and queue number p * n + q belong to queue q of port p and to pool p * n + q |
| Dpdk.ProcessBurst | software/src/dpdk.cc:90-113 | every buffer of a burst is prefetched, handed over and freed exactly once, in arrival order, each before the next |
| Dpdk.EachBufferInTurn | software/src/dpdk.cc:90-113 | at the callback of each buffer exactly the earlier ones have been handed over and freed and the prefetching is four ahead; its free follows at once |
| Dpdk.NoUseAfterFree | software/src/dpdk.cc:95-113 | a buffer is not used after it was freed |
| Handshake.InvariantHolds | software/src/dpdk.cc:33-81 | mutual exclusion and the state of the registration hold after every number of atomic steps of every run |
| Handshake.CallbackIsSetWhenInvoked | software/src/dpdk.cc:65-100 | in every interleaving, an invoked callback is set |
| Handshake.SleepsOnlyBeforeNotification | software/src/dpdk.cc:33-75 | the receive thread can sleep un-notified exactly while the registration has not notified yet, with or without a shutdown request |
| Handshake.RegisteredReceiverGoesOn | software/src/dpdk.cc:39-75 | after a finished registration, in every interleaving with shutdown requests, spurious wake-ups and empty bursts, the receive thread can always step and is past its wait after three steps of its own, for good |
| Handshake.RegistrationTakesFourSteps | software/src/dpdk.cc:33-44 | in every run the registration has returned exactly after four steps of its own |
| Handshake.RegistrationWaitsForMutexOnly | software/src/dpdk.cc:41-75 | the registration waits only for the mutex, which the receive thread releases after at most three steps that it can always take |
| Handshake.RegisteredReceiverServes | software/src/dpdk.cc:64-86 | without a shutdown request a registered receive thread never finishes, and its first five steps bring it to a burst in every interleaving |
| Handshake.ShutdownFinishesReceiver | software/src/dpdk.cc:29-116 | after registration and a shutdown request the receive thread is finished after at most four steps of its own in every interleaving |
| Handshake.AwakeReceiverFinishes | software/src/dpdk.cc:29-116 | after a shutdown request a receive thread that is awake finishes after at most four steps of its own, with or without a callback |
| Handshake.NoBurstAfterShutdown | software/src/dpdk.cc:80 | after a shutdown request a receive thread at its loop test starts no other burst |
| Handshake.FinishedOnlyByShutdown | software/src/dpdk.cc:80 | the receive loop ends only after a shutdown request |
| Handshake.UnregisteredNeverReceives | software/src/dpdk.cc:64-100 | in every run without a registration no callback is invoked and only a shutdown request gets the thread past its wait |
| Handshake.UnregisteredFallsAsleep | software/src/dpdk.cc:64-75 | without registration, shutdown and spurious wake-up the receive thread sleeps after four steps |
| Handshake.UnregisteredSleepsOn | software/src/dpdk.cc:29-75 | an unregistered thread that sleeps stays asleep until a spurious wake-up, even at shutdown |

## Left out

- FilterText.InetAddr: accepts canonical dotted quads only; the octal, hexadecimal and shorter forms of `inet_addr` count as unusable.
- FilterText.StoI: models the C locale; locale-specific white space is not modelled.
- Frames.NetworkPacketHandler: stops at the place and the length of the payload; the tests for null pointers and the rest of the log are not modelled, and the packet buffer is assumed to have room for the 42 header bytes that the handler reads.
- Dpdk.DPDK.InitDpdk: assumes that the adjusted thread count fits 16 bits; which device calls succeed is a parameter, and the EAL set-up before the port count is left out.
- Mmio.PacketFilter.UpdateRule: the end of the process on an unusable filter is a result value, since nothing follows it.
- Handshake.RegisteredReceiverGoesOn: counts the steps of the receive thread and does not claim that they are scheduled.
- Handshake: the assignment of the callback object and each read of a flag are atomic steps.
- The 64-bit register write of `MMIO::write`, `PacketAdapter` and its statistics: unused or the same code with other offsets.
- PCIe access to the card, BAR discovery and EAL set-up: each 32-bit register access is atomic.
- The side channels `strb`, `id` and `dest` of a phit, which the kernel does not set, and backpressure on its output.
- Pipelining, clock domains and other HLS pragmas: one call of the kernel is one atomic cycle.
- Overflow of the C `int` phit index: packets are shorter than 2^31 phits.
- IPv4 options, fragments and checksums: the kernel reads fixed offsets, so that endpoint results are about headers without options.
- The bit order of the sub-byte header fields and of the hash claims no conformance: the fields only tile the header, and the hash is not claimed to be that of receive-side scaling.
- The wait for initialization, signals, time-outs, other logging, build scripts and vendor patches.
