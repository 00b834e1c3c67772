# Verified model of the PyTCP network core

A Dafny model of six parts of PyTCP, with proofs that hold for all inputs and all runs.

* **CIDR algebra** (`Bits`, `Dyadic`, `Spans`, `IpMask`, `IpNetwork`, `Aggregate`). Networks are an address and a mask in a family of any width; 32 and 128 bits are the two instances. Python's integer operators `&`, `~`, `<<` and `bit_length` are functions on unbounded integers. The main result is that greedy summarisation is not only correct but the one smallest set of networks with the given union, for addresses, networks and mixes of them; the same holds for `address_exclude`. The argument is that every greedy block is maximal, that maximal blocks are disjoint, and that every cover has a block inside each of them.
* **Internet checksum** (`InetCksum`). The 64-bit accumulation with four folds is compared with the 16-bit one's-complement sum of RFC 1071, written with end-around carry.
* **Neighbour cache** (`Neighbor`, `NeighborInvariant`, `NeighborGc`, `NeighborRun`, `NeighborEffects`, `NeighborCache`). `NeighborCache` is the class; each of its methods is proved to be one step of the state machine in `NeighborRun`, over which the properties of all runs are proved; `NeighborEffects` says field by field what each call changes and what it leaves alone. The history of an address records what the callbacks saw: packets accepted, their fates, packets flushed, solicits sent.
* **Forwarding table** (`Fib`), **IPC framing** (`IpcFrame`, `DgramFrame`), **multicast filter merge** (`MulticastFilter`) and **DAD slots** (`DadRegistry`).

`Sorting` is Python's `sorted`, `Options` holds optional values and results with an error, `Octets` is bytes. `dafny verify dfyconfig.toml` checks the whole project.

## Where the code and its documentation differ

The model follows the code; the lemmas say exactly what it does.

* `inet_cksum` folds four times. When the third fold is 0x1FFFF a carry remains and the result is 0xFFFF instead of 0xFFFE (`InetCksum.ChecksumIsRfc1071`, witness `InetCksum.FoldException`). The receiving side is not affected (`InetCksum.VerifiesIff`).
* `inet_cksum` tests the carried odd byte for truth, so a zero byte left over at an odd position is forgotten and the next buffer is read as if aligned; after an odd number of forgotten bytes the two bytes of every word change places. A list of buffers has the checksum of its concatenation if and only if the words read out of step add up to a multiple of 257, up to the fold exception (`InetCksum.SplitChecksum`, `InetCksum.SplitOrWhole`; witness `InetCksum.CarryException`, a harmless case `InetCksum.CarryHarmless`).
* `_gc_pass` announces the order FAILED, STALE, REACHABLE for the hard cap; the code evicts any unprotected entry there, least recently used first, whatever its state (witness `NeighborGc.AnnouncedOrderFails`). A pass keeps the announced order if and only if the number of evictions at the cap does not fall between a REACHABLE candidate and a STALE one used no earlier (`NeighborGc.AnnouncedOrderIff`); it does so at every cap if and only if every STALE candidate was used before every REACHABLE one (`NeighborGc.AnnouncedAtEveryCap`).
* `_enqueue_pending` is described for INCOMPLETE addresses; it queues for any existing entry (witness `NeighborRun.QueuedWhileReachable`). Packets wait only in INCOMPLETE entries throughout a run if and only if every enqueue of the run finds no entry or an INCOMPLETE one (`NeighborRun.QueuedIncompleteIff`, for one step `NeighborRun.EnqueueIff`); callers that enqueue only after a missed lookup meet this (`NeighborRun.QueuedMeansIncomplete`).
* An entry fails at the first maintenance pass after its last solicit, however soon that comes, where section 7.3.3 of RFC 4861 waits one more retransmit interval (`NeighborRun.GivesUpIff`, `NeighborRun.FollowsDiagram`, witness `NeighborRun.FailsAtOnce`).
* The transition diagram at the head of `neighbor.py` is not complete. The docstrings of the operations add FAILED to INCOMPLETE on a lookup (`neighbor.py:205-216`), a reply that is believed in every state but PERMANENT (`neighbor.py:268-274`) and an operator's entry in place of any other (`neighbor.py:316-320`). `NeighborRun.Diagram` holds the first, `NeighborRun.BeyondDiagram` the second kind.

## Model

| member | source | states |
|---|---|---|
| `Spans.GreedyOrderIsLargest` | packages/pmd_net_addr/pmd_net_addr/ip_network.py:113-115 | the block size computed from `lo & -lo` and the bit length is the largest aligned block that starts at `lo` and ends by `hi`: no aligned block that fits is larger |
| `Spans.GreedyStep` | packages/pmd_net_addr/pmd_net_addr/ip_network.py:112-117 | a greedy block is maximal in the whole range, and no aligned block inside the range reaches across its end |
| `Spans.SummarizeInts` | packages/pmd_net_addr/pmd_net_addr/ip_network.py:104-117 | for every range the loop ends with ascending, aligned, pairwise disjoint blocks whose union is exactly the range, each maximal in it |
| `Spans.MergeSpans` | packages/pmd_net_addr/pmd_net_addr/ip_network.py:119-133 | the merged spans are in order, at least one address apart, and have the same union as the input spans |
| `Spans.SummarizeSpans` | packages/pmd_net_addr/pmd_net_addr/ip_network.py:178-184 | merging and then tiling gives the ascending maximal tiling of the union of all spans, gaps preserved |
| `Dyadic.LaminarEither` | packages/pmd_net_addr/pmd_net_addr/ip_network.py:506-518 | two aligned blocks share an address exactly when one contains the other |
| `Dyadic.TilingIsMinimum` | packages/pmd_net_addr/pmd_net_addr/ip_network.py:106-110 | no set of aligned blocks with the same union has fewer members than a tiling by maximal blocks |
| `Dyadic.TilingIsUnique` | packages/pmd_net_addr/pmd_net_addr/ip_network.py:106-110 | a cover of the same union with no more members is that tiling |
| `Aggregate.Summarize` | packages/pmd_net_addr/pmd_net_addr/ip_network.py:143-184 | a foreign item and a mix of families raise, in that precedence and in no other case; otherwise the networks are the ascending maximal tiling of the union of the items |
| `Aggregate.SummaryIsMinimum` | packages/pmd_net_addr/pmd_net_addr/ip_network.py:148-155 | the summary is the minimal set of networks covering the items exactly, and the only one of its size |
| `Aggregate.SummaryContains` | packages/pmd_net_addr/pmd_net_addr/ip_network.py:143-184 | an address is in some network of the summary exactly when it was given or a given network contains it |
| `Aggregate.ExcludeContains` | packages/pmd_net_addr/pmd_net_addr/ip_network.py:461-504 | an address is in what `address_exclude` yields exactly when the network contains it and the other does not |
| `Aggregate.Halve` | packages/pmd_net_addr/pmd_net_addr/ip_network.py:476-487 | a network splits into its two halves, and the error exit is taken exactly for a single-address network |
| `Aggregate.AddressExclude` | packages/pmd_net_addr/pmd_net_addr/ip_network.py:461-504 | raises exactly when `other` is not contained; otherwise yields one network for each prefix length between the two, which together form the maximal tiling of the network without `other`; the inner error exits are unreachable and the loop ends |
| `Aggregate.ExcludeIsMinimum` | packages/pmd_net_addr/pmd_net_addr/ip_network.py:461-468 | no set of networks covers the remainder with fewer members, and no other set with as few |
| `IpNetwork.ContainsIffMasked` | packages/pmd_net_addr/pmd_net_addr/ip_network.py:260-274 | the range test for membership agrees with `address & mask == network` for every address |
| `IpNetwork.OverlapsIffNested` | packages/pmd_net_addr/pmd_net_addr/ip_network.py:506-518 | networks overlap exactly when one is a subnet of the other, and exactly when they share an address |
| `IpNetwork.SubnetOfIffIncluded` | packages/pmd_net_addr/pmd_net_addr/ip_network.py:520-532 | `subnet_of` is inclusion of the sets of addresses |
| `IpNetwork.SamePrefixSameNetwork` | packages/pmd_net_addr/pmd_net_addr/ip_network.py:506-532 | overlapping networks of one prefix length are equal |
| `IpNetwork.Subnets` | packages/pmd_net_addr/pmd_net_addr/ip_network.py:397-429 | the error cases, and otherwise exactly 2^(q-p) networks of the longer prefix, the i-th starting i steps after the first |
| `IpNetwork.EnumerateSubnets` | packages/pmd_net_addr/pmd_net_addr/ip_network.py:424-429 | the range loop enumerates exactly 2^(q-p) aligned networks in order |
| `IpNetwork.SubnetsTile` | packages/pmd_net_addr/pmd_net_addr/ip_network.py:397-459 | the subnets are disjoint, lie in the network, cover every address of it, and the supernet of each at the old prefix is the network |
| `IpNetwork.SupernetSpec` | packages/pmd_net_addr/pmd_net_addr/ip_network.py:431-459 | the error cases, and otherwise the only network of the requested prefix length that contains the given one |
| `IpNetwork.FromTupleSpec` | packages/pmd_net_addr/pmd_net_addr/ip4_network.py:94-104 | the constructor accepts exactly the masks of a prefix length, rejects host bits exactly in strict mode, and yields the network around the address |
| `IpNetwork.BlockFacts` | packages/pmd_net_addr/pmd_net_addr/ip4_network.py:139-146 | `last` is the last address of the aligned block that the network denotes, inside the address space |
| `IpNetwork.NetworkOfBlock` | packages/pmd_net_addr/pmd_net_addr/ip6_network.py:104-108 | masking an address gives the valid network at the address rounded down to its block |
| `IpNetwork.FamilyMasks` | packages/pmd_net_addr/pmd_net_addr/ip4_address.py:47 | the all-ones constants of the two families are 2^32-1 and 2^128-1 |
| `IpMask.ContiguousIffMask` | packages/pmd_net_addr/pmd_net_addr/ip_mask.py:133-142 | a value passes the contiguity test exactly when it is the mask of some prefix length |
| `IpMask.MaskPrefixLength` | packages/pmd_net_addr/pmd_net_addr/ip_mask.py:53-58 | the population count of the mask of a prefix length is that length |
| `IpMask.AndMask` | packages/pmd_net_addr/pmd_net_addr/ip_mask.py:91-103 | `address & mask` clears exactly the host bits: it is the address rounded down to its block |
| `IpMask.MaskIntValue` | packages/pmd_net_addr/pmd_net_addr/ip_network.py:543-550 | `_mask_int(p)` is 2^bits - 2^(bits-p) |
| `IpMask.HostMaskValue` | packages/pmd_net_addr/pmd_net_addr/ip4_network.py:156-163 | the inverted mask is 2^(bits-p) - 1 |
| `InetCksum.ResidueIsOnesSum` | packages/pmd_net_proto/pmd_net_proto/lib/inet_cksum.py:29-33 | the residue of the plain word sum is the 16-bit one's-complement sum with end-around carry |
| `InetCksum.ReadAligned` | packages/pmd_net_proto/pmd_net_proto/lib/inet_cksum.py:70-78 | whole 64-bit words and then whole 16-bit words are summed from the offset to the end, or to one byte before it |
| `InetCksum.ReadBuffer` | packages/pmd_net_proto/pmd_net_proto/lib/inet_cksum.py:58-81 | one loop iteration, `continue` included |
| `InetCksum.InetCksum` | packages/pmd_net_proto/pmd_net_proto/lib/inet_cksum.py:48-89 | the loop over buffers, the carried odd byte, four folds and the complement compute `Checksum` |
| `InetCksum.FoldAndComplement` | packages/pmd_net_proto/pmd_net_proto/lib/inet_cksum.py:84-89 | the masks and shifts are the folds of the specification |
| `InetCksum.TotalRepresents` | packages/pmd_net_proto/pmd_net_proto/lib/inet_cksum.py:55-83 | for every list of buffers the accumulated total has the residue of the word sum of the bytes as the code aligns them, and is zero exactly when that sum is |
| `InetCksum.FoldedFacts` | packages/pmd_net_proto/pmd_net_proto/lib/inet_cksum.py:84-87 | below 2^96 four folds give at most 0x10000 with the residue of the sum, and 0x10000 exactly when the third fold was 0x1FFFF |
| `InetCksum.ChecksumIsRfc1071` | packages/pmd_net_proto/pmd_net_proto/lib/inet_cksum.py:48-89 | the result is the RFC 1071 checksum if and only if the third fold is not 0x1FFFF; a fifth fold makes it exact always |
| `InetCksum.OrdinaryTotal` | packages/pmd_net_proto/pmd_net_proto/lib/inet_cksum.py:72-83 | buffers below 2^32-1 bytes in all with an initial value below 2^64 keep the total below 2^96 |
| `InetCksum.VerifiesIff` | packages/pmd_net_proto/pmd_net_proto/lib/inet_cksum.py:48-89 | the receiver's result is 0 if and only if the plain sum is a positive multiple of 65535, without exception |
| `InetCksum.FilledVerifiesIff` | packages/pmd_net_proto/pmd_net_proto/lib/inet_cksum.py:48-89 | a message carrying its own checksum in a zeroed even-offset field verifies to 0 if and only if the sender's third fold was not 0x1FFFF |
| `InetCksum.ReadsRightIff` | packages/pmd_net_proto/pmd_net_proto/lib/inet_cksum.py:58-81 | for every list of buffers, what the code reads has the residue of the concatenation if and only if the words it reads out of step, after an odd number of forgotten zero bytes, add up to a multiple of 257 |
| `InetCksum.SplitChecksum` | packages/pmd_net_proto/pmd_net_proto/lib/inet_cksum.py:58-89 | the code gives a list of buffers the RFC 1071 checksum of its concatenation if and only if those words add up to a multiple of 257 and the third fold is not 0x1FFFF |
| `InetCksum.SplitOrWhole` | packages/pmd_net_proto/pmd_net_proto/lib/inet_cksum.py:58-89 | the code gives a list of buffers the result it gives their concatenation if and only if those words add up to a multiple of 257 and the fold exception hits both or neither |
| `InetCksum.NothingForgotten` | packages/pmd_net_proto/pmd_net_proto/lib/inet_cksum.py:62-68 | when no zero byte is left over at an odd boundary with bytes after it, nothing is read out of step |
| `InetCksum.ReadsOnIff` | packages/pmd_net_proto/pmd_net_proto/lib/inet_cksum.py:62-68 | whatever buffer comes next, the checksum stays that of the concatenation, if and only if it is so far and the next byte is read in step |
| `InetCksum.FoldException` | packages/pmd_net_proto/pmd_net_proto/lib/inet_cksum.py:84-89 | eight bytes for which the code returns 0xFFFF where the checksum is 0xFFFE |
| `InetCksum.CarryException` | packages/pmd_net_proto/pmd_net_proto/lib/inet_cksum.py:62-68 | the message 00 01 has the result 0xFFFE whole and 0xFEFF split after its first byte |
| `InetCksum.CarryHarmless` | packages/pmd_net_proto/pmd_net_proto/lib/inet_cksum.py:62-68 | the message 00 01 01 split after its first byte has the result of the whole although a zero byte is forgotten |
| `NeighborCache.NeighborCache.FindEntry` | packages/pmd_pytcp/pmd_pytcp/lib/neighbor.py:204-265 | one lookup step of the state machine, with its result |
| `NeighborCache.NeighborCache.AddEntry` | packages/pmd_pytcp/pmd_pytcp/lib/neighbor.py:267-313 | one reply step, queued packets flushed in order |
| `NeighborCache.NeighborCache.FlushQueue` | packages/pmd_pytcp/pmd_pytcp/lib/neighbor.py:312-313 | every queued packet goes to the flush callback once, in order |
| `NeighborCache.NeighborCache.AddPermanentEntry` | packages/pmd_pytcp/pmd_pytcp/lib/neighbor.py:315-333 | one step that configures a static neighbour, dropping what the old entry had queued |
| `NeighborCache.NeighborCache.RemoveEntry` | packages/pmd_pytcp/pmd_pytcp/lib/neighbor.py:335-343 | one removal step and whether there was an entry |
| `NeighborCache.NeighborCache.FlushAll` | packages/pmd_pytcp/pmd_pytcp/lib/neighbor.py:345-354 | every entry goes, and how many there were |
| `NeighborCache.NeighborCache.ConfirmReachability` | packages/pmd_pytcp/pmd_pytcp/lib/neighbor.py:366-381 | one upper-layer confirmation step |
| `NeighborCache.NeighborCache.EnqueuePending` | packages/pmd_pytcp/pmd_pytcp/lib/neighbor.py:383-410 | one enqueue step, oldest packets dropped to stay within the bound |
| `NeighborCache.NeighborCache.TickEntry` | packages/pmd_pytcp/pmd_pytcp/lib/neighbor.py:461-511 | the timer transition of one entry with its solicit |
| `NeighborCache.NeighborCache.RunMaintenanceOnce` | packages/pmd_pytcp/pmd_pytcp/lib/neighbor.py:432-517 | every entry takes its timer transition, whatever the order, and then the collector runs |
| `NeighborCache.NeighborCache.FailEntry` | packages/pmd_pytcp/pmd_pytcp/lib/neighbor.py:624-641 | the entry becomes FAILED and its queue is dropped |
| `NeighborCache.NeighborCache.SetReachableTimeOverrideMs` | packages/pmd_pytcp/pmd_pytcp/lib/neighbor.py:188-198 | no entry changes now; at the next pass, whenever it comes, a surviving REACHABLE entry is STALE exactly if it is at least that many milliseconds old, or as old as the configured lifetime when the override was cleared |
| `NeighborInvariant.FindKeeps` | packages/pmd_pytcp/pmd_pytcp/lib/neighbor.py:204-265 | a lookup keeps the slot invariant |
| `NeighborInvariant.ReplyKeeps` | packages/pmd_pytcp/pmd_pytcp/lib/neighbor.py:276-313 | a reply keeps the slot invariant and conserves packets |
| `NeighborInvariant.EnqueueKeeps` | packages/pmd_pytcp/pmd_pytcp/lib/neighbor.py:395-410 | an enqueue appends, drops exactly the oldest packet and only when the queue is full, and conserves packets |
| `NeighborInvariant.TickKeeps` | packages/pmd_pytcp/pmd_pytcp/lib/neighbor.py:461-511 | a timer transition keeps the probe count, the budget and the distance between solicits |
| `NeighborInvariant.FlushedInOrder` | packages/pmd_pytcp/pmd_pytcp/lib/neighbor.py:301-313 | per address the flushed packets are an in-order subsequence of the accepted ones, each flushed once and none missing |
| `NeighborRun.RunInvariant` | packages/pmd_pytcp/pmd_pytcp/lib/neighbor.py:204-517 | in every run and for every address: the probe count is the number of solicits of the episode, within budget and at least the retransmit timer apart; FAILED means the whole budget was used; INCOMPLETE has no MAC and the other live states have one; each accepted packet is queued or has exactly one fate, and the flush calls were the flushed fates; queues are bounded |
| `NeighborRun.RunFlushesInOrder` | packages/pmd_pytcp/pmd_pytcp/lib/neighbor.py:301-313 | in every run and for every address, the flushed packets are accepted ones in the order of acceptance, each flushed once and none missing |
| `NeighborRun.FollowsDiagram` | packages/pmd_pytcp/pmd_pytcp/lib/neighbor.py:204-511 | an entry that stays in the cache changes state exactly along the diagram of lines 35-49 and the three further kinds of transition that the operations describe, each when its trigger holds, and is stamped with the time |
| `NeighborRun.ReachableAges` | packages/pmd_pytcp/pmd_pytcp/lib/neighbor.py:466-479 | a pass turns a REACHABLE entry STALE exactly when it is as old as the lifetime in force, and otherwise leaves it as it is |
| `NeighborRun.GivesUpIff` | packages/pmd_pytcp/pmd_pytcp/lib/neighbor.py:485-504 | a pass fails an entry being resolved or probed exactly when its budget of solicits is used, whatever the age of the last one |
| `NeighborRun.FailsAtOnce` | packages/pmd_pytcp/pmd_pytcp/lib/neighbor.py:485-488 | a run in which an address is FAILED at the instant of its only solicit |
| `NeighborEffects.LookupFindsIff` | packages/pmd_pytcp/pmd_pytcp/lib/neighbor.py:204-265 | in every run a lookup returns a MAC exactly when the address has an entry in REACHABLE, STALE, DELAY, PROBE or PERMANENT, and then it is the entry's |
| `NeighborEffects.LookupEffect` | packages/pmd_pytcp/pmd_pytcp/lib/neighbor.py:204-265 | one solicit without MAC exactly for a missing or FAILED entry, which is INCOMPLETE from now on; STALE becomes DELAY; nothing else changes but the time of use, and no packet is touched |
| `NeighborEffects.ReplyEffect` | packages/pmd_pytcp/pmd_pytcp/lib/neighbor.py:267-313 | a new REACHABLE entry stamped with the time and the MAC of the reply; a configured neighbour untouched; otherwise REACHABLE with that MAC, the count reset, the queue sent or dropped, and nobody asked |
| `NeighborEffects.ConfirmEffect` | packages/pmd_pytcp/pmd_pytcp/lib/neighbor.py:366-381 | STALE, DELAY and PROBE become REACHABLE with the count reset; MAC, queue, time of use and history stay, and every other state is left alone |
| `NeighborEffects.ConfigureEffect` | packages/pmd_pytcp/pmd_pytcp/lib/neighbor.py:315-333 | the configured entry replaces any other and the packets waiting there are dropped |
| `NeighborEffects.RemoveEffect` | packages/pmd_pytcp/pmd_pytcp/lib/neighbor.py:335-343 | the entry is gone, with the packets waiting there; the result says whether there was one |
| `NeighborEffects.FlushEffect` | packages/pmd_pytcp/pmd_pytcp/lib/neighbor.py:345-354 | no entry is left, and the result is how many there were |
| `NeighborEffects.EnqueueEffect` | packages/pmd_pytcp/pmd_pytcp/lib/neighbor.py:383-410 | the queue is the newest packets within the bound, everything else in the entry stays, and without an entry nothing happens |
| `NeighborEffects.OthersUntouched` | packages/pmd_pytcp/pmd_pytcp/lib/neighbor.py:204-410 | a call about one address changes neither entry nor history of another |
| `NeighborEffects.PassLeavesAlone` | packages/pmd_pytcp/pmd_pytcp/lib/neighbor.py:461-511 | a pass that comes before any timer of an entry is due leaves it and its history exactly as they are, and STALE, FAILED and PERMANENT always |
| `NeighborEffects.PassEffect` | packages/pmd_pytcp/pmd_pytcp/lib/neighbor.py:461-511 | what a pass changes in a surviving entry, field by field, and that it asks exactly when probing starts or a further solicit is due: everybody while INCOMPLETE, the neighbour itself after that |
| `NeighborEffects.PassSendsNothing` | packages/pmd_pytcp/pmd_pytcp/lib/neighbor.py:432-517 | a pass accepts and sends no packet and creates no entry |
| `NeighborEffects.DelayIsProbed` | packages/pmd_pytcp/pmd_pytcp/lib/neighbor.py:481-511 | in every run a DELAY entry that nobody answers, confirms, configures or removes stays in DELAY until the first pass at least the delay after its lookup, and that pass makes it PROBE and asks its MAC, unless it was evicted |
| `NeighborRun.UseIsLookup` | packages/pmd_pytcp/pmd_pytcp/lib/neighbor.py:221-235 | an entry's time of use is that of its latest lookup or of its creation, so least recently used means least recently looked up |
| `NeighborRun.ReplyDeliversQueue` | packages/pmd_pytcp/pmd_pytcp/lib/neighbor.py:301-313 | a reply flushes the whole queue of the entry, in order, to the MAC of the reply |
| `NeighborRun.LookupReturnsTold` | packages/pmd_pytcp/pmd_pytcp/lib/neighbor.py:204-333 | in every run a MAC returned by a lookup is the one most recently learned or configured for that address |
| `NeighborRun.PermanentStays` | packages/pmd_pytcp/pmd_pytcp/lib/neighbor.py:204-517 | a PERMANENT entry is changed by no lookup, reply, confirmation, timer or collection, except its time of use and its queue |
| `NeighborRun.EnqueueIff` | packages/pmd_pytcp/pmd_pytcp/lib/neighbor.py:395-410 | after an enqueue the queue is that of an INCOMPLETE entry if and only if the entry was INCOMPLETE before or there is none |
| `NeighborRun.QueuedIncompleteIff` | packages/pmd_pytcp/pmd_pytcp/lib/neighbor.py:383-410 | throughout a run packets wait only in INCOMPLETE entries, if and only if every enqueue of the run finds no entry or an INCOMPLETE one |
| `NeighborRun.QueuedWhileReachable` | packages/pmd_pytcp/pmd_pytcp/lib/neighbor.py:395-410 | a run of a reply and an enqueue that leaves the packet in a REACHABLE entry |
| `NeighborRun.QueuedMeansIncomplete` | packages/pmd_pytcp/pmd_pytcp/lib/neighbor.py:383-410 | in every run whose callers enqueue only right after a missed lookup, a non-empty queue means INCOMPLETE |
| `NeighborRun.UnansweredFails` | packages/pmd_pytcp/pmd_pytcp/lib/neighbor.py:485-504 | an episode nobody answers is FAILED or evicted after as many passes spaced by the retransmit timer as solicits remain, and one more |
| `NeighborRun.MaintainBounds` | packages/pmd_pytcp/pmd_pytcp/lib/neighbor.py:513-517 | after every maintenance pass the table is within the hard cap or holds only protected entries, and only FAILED entries take queued packets with them |
| `NeighborGc.GcPass` | packages/pmd_pytcp/pmd_pytcp/lib/neighbor.py:519-618 | all FAILED entries, then exactly as many aged STALE entries as needed to reach thresh2, then exactly as many evictable ones as needed to reach thresh3, oldest first |
| `NeighborGc.OrderByTime` | packages/pmd_pytcp/pmd_pytcp/lib/neighbor.py:566-569 | the candidates, each once, oldest first |
| `NeighborGc.EvictUntil` | packages/pmd_pytcp/pmd_pytcp/lib/neighbor.py:591-595 | deletion in order stops as soon as the threshold is met |
| `NeighborGc.ProtectedSurvive` | packages/pmd_pytcp/pmd_pytcp/lib/neighbor.py:532-541 | survivors are unchanged, and PERMANENT entries and live entries with queued packets always survive |
| `NeighborGc.WithinCapOrProtected` | packages/pmd_pytcp/pmd_pytcp/lib/neighbor.py:601-618 | after a pass the size is at most thresh3 or every survivor is protected |
| `NeighborGc.FailedAreEvicted` | packages/pmd_pytcp/pmd_pytcp/lib/neighbor.py:556-572 | nothing happens at or below thresh1, and above it no FAILED entry survives |
| `NeighborGc.StopsAtThreshold` | packages/pmd_pytcp/pmd_pytcp/lib/neighbor.py:591-614 | an eviction of a working entry never takes the size below thresh2, nor below thresh3 unless it was STALE past its time |
| `NeighborGc.CapEvictsLeastRecentlyUsed` | packages/pmd_pytcp/pmd_pytcp/lib/neighbor.py:605-614 | hard-cap evictions are least recently used among the evictable |
| `NeighborGc.AgedEvictsOldest` | packages/pmd_pytcp/pmd_pytcp/lib/neighbor.py:580-595 | evictions of STALE entries past their time go from the oldest |
| `NeighborGc.AgedAreEvicted` | packages/pmd_pytcp/pmd_pytcp/lib/neighbor.py:574-599 | above thresh1 a pass gets down to thresh2, or leaves no STALE entry without queued packets that is past its time |
| `NeighborGc.AnnouncedOrderIff` | packages/pmd_pytcp/pmd_pytcp/lib/neighbor.py:519-618 | every outcome of a pass is in the order FAILED, STALE, REACHABLE if and only if there is no REACHABLE candidate of the hard cap used no later than a STALE one such that the number of evictions is large enough to reach the first and small enough to spare the second |
| `NeighborGc.AnnouncedAtEveryCap` | packages/pmd_pytcp/pmd_pytcp/lib/neighbor.py:519-618 | the order holds under all thresholds if and only if every STALE candidate was used before every REACHABLE one |
| `NeighborGc.AnnouncedOrderFails` | packages/pmd_pytcp/pmd_pytcp/lib/neighbor.py:601-618 | two entries and a cap of one: in every outcome the REACHABLE entry goes and the STALE one stays |
| `Fib.RouteTable.Add` | packages/pmd_pytcp/pmd_pytcp/runtime/fib.py:143-150 | appends without de-duplication |
| `Fib.RouteTable.Remove` | packages/pmd_pytcp/pmd_pytcp/runtime/fib.py:152-167 | keeps, in order, exactly the routes to other destinations and, if a gateway is given, those through another one or none; counts the rest |
| `Fib.RouteTable.RemoveByOif` | packages/pmd_pytcp/pmd_pytcp/runtime/fib.py:169-183 | keeps exactly the routes with another or no output interface |
| `Fib.RouteTable.Lookup` | packages/pmd_pytcp/pmd_pytcp/runtime/fib.py:185-227 | the earliest covering candidate, stored routes before connected ones, with the largest key; None exactly when no stored route and no connected network covers the address; otherwise a stored route or the on-link route to a connected network |
| `Fib.AnswerIsStoredOrOnLink` | packages/pmd_pytcp/pmd_pytcp/runtime/fib.py:199-214 | an answer that is not stored is the route to a connected network through its interface: no gateway, no preferred source, metric 0, scope LINK, protocol KERNEL |
| `Fib.NoRouteIff` | packages/pmd_pytcp/pmd_pytcp/runtime/fib.py:216-218 | no route exactly when no stored route and no connected network covers the address |
| `Fib.ConnectedPreferred` | packages/pmd_pytcp/pmd_pytcp/runtime/fib.py:185-227 | a covering connected network never loses to a shorter prefix, and against one of its length the answer is a direct route of metric 0 to that network |
| `Fib.StoredIff` | packages/pmd_pytcp/pmd_pytcp/runtime/fib.py:199-227 | a direct answer of metric 0 is a stored route exactly when a direct route of metric 0 to its network is stored |
| `Fib.FirstLargest` | packages/pmd_pytcp/pmd_pytcp/runtime/fib.py:216-227 | the first maximal element of the covering candidates |
| `Fib.AnswerUnique` | packages/pmd_pytcp/pmd_pytcp/runtime/fib.py:220-227 | a lookup has exactly one possible answer |
| `Fib.SameLengthSameNetwork` | packages/pmd_pytcp/pmd_pytcp/runtime/fib.py:216-227 | covering candidates of the winning prefix length are all routes to one network |
| `Fib.WinnerIsMostSpecific` | packages/pmd_pytcp/pmd_pytcp/runtime/fib.py:185-197 | the winner's network lies inside the network of every covering candidate |
| `Fib.WinnerBreaksTies` | packages/pmd_pytcp/pmd_pytcp/runtime/fib.py:194-197 | among covering routes of one prefix length the winner has the lowest metric, is direct if any of that metric is, and otherwise is the earliest |
| `Fib.RemovalKeepsAnswer` | packages/pmd_pytcp/pmd_pytcp/runtime/fib.py:152-183 | a removal that does not remove the winner leaves the lookup result unchanged, and a lookup that found nothing finds nothing after any removal |
| `IpcFrame.RecvExactly` | packages/pmd_pytcp/pmd_pytcp/ipc/ipc__frame.py:181-203 | for every chunking, exactly the next `count` bytes, or all that are left |
| `IpcFrame.RecvFrame` | packages/pmd_pytcp/pmd_pytcp/ipc/ipc__frame.py:148-178 | for every chunking, the outcome and the bytes left are those of `ReadFrame` |
| `IpcFrame.RecvAll` | packages/pmd_pytcp/pmd_pytcp/ipc/ipc__frame.py:148-203 | repeated reads under every chunking return what `ReadAll` says |
| `IpcFrame.FrameLayout` | packages/pmd_pytcp/pmd_pytcp/ipc/ipc__frame.py:66-78 | refused exactly above 16 MiB; otherwise four bytes with the length, most significant first, and the payload |
| `IpcFrame.ReadLayout` | packages/pmd_pytcp/pmd_pytcp/ipc/ipc__frame.py:81-178 | the outcome of one read and what it leaves, in terms of the bytes: end of stream, short prefix, length above 16 MiB, short payload, payload |
| `IpcFrame.ReadWhole` | packages/pmd_pytcp/pmd_pytcp/ipc/ipc__frame.py:66-94 | reading a stream of packed payloads returns them all, empty ones included, and then end of stream |
| `IpcFrame.ReadTruncated` | packages/pmd_pytcp/pmd_pytcp/ipc/ipc__frame.py:148-178 | on every truncation exactly the complete frames are returned, then end of stream at a boundary and an error elsewhere |
| `IpcFrame.CleanEndIsStream` | packages/pmd_pytcp/pmd_pytcp/ipc/ipc__frame.py:148-178 | a byte stream that reads to a clean end is the stream of the payloads read |
| `DgramFrame.EncodeDgram` | packages/pmd_pytcp/pmd_pytcp/ipc/ipc__dgram_frame.py:76-109 | the encoded blob, or an error exactly when a field does not fit |
| `DgramFrame.DecodeDgram` | packages/pmd_pytcp/pmd_pytcp/ipc/ipc__dgram_frame.py:112-170 | the decoder with every error case; no read leaves the blob |
| `DgramFrame.DecodeBlob` | packages/pmd_pytcp/pmd_pytcp/ipc/ipc__dgram_frame.py:76-170 | decoding an encoded datagram returns it |
| `DgramFrame.BlobOfDecoded` | packages/pmd_pytcp/pmd_pytcp/ipc/ipc__dgram_frame.py:76-170 | re-encoding any accepted blob reproduces it byte for byte |
| `DgramFrame.LaysOutIff` | packages/pmd_pytcp/pmd_pytcp/ipc/ipc__dgram_frame.py:76-109 | the encoding is the layout written out byte by byte: tag 0, 4 or 6, port in two bytes and address, one byte with the number of messages, each with level, type and length in two bytes and its data, and the payload; and only the encoding has that layout |
| `DgramFrame.DecodesIff` | packages/pmd_pytcp/pmd_pytcp/ipc/ipc__dgram_frame.py:112-170 | a blob decodes to a datagram exactly when it is laid out in that way |
| `DgramFrame.RefusedIff` | packages/pmd_pytcp/pmd_pytcp/ipc/ipc__dgram_frame.py:112-146 | exactly which blobs are refused as empty, for their tag, inside the address and before the count |
| `DgramFrame.CutInMessagesIff` | packages/pmd_pytcp/pmd_pytcp/ipc/ipc__dgram_frame.py:148-170 | a blob is refused inside a header or inside data exactly when, after complete messages fewer than announced, what is left is too short for a header or for the data it announces |
| `DgramFrame.DecodeTruncated` | packages/pmd_pytcp/pmd_pytcp/ipc/ipc__dgram_frame.py:76-170 | a truncated blob is accepted exactly when only payload is missing, and then with what is left of it |
| `MulticastFilter.Merge` | packages/pmd_pytcp/pmd_pytcp/lib/ip4_multicast_filter.py:92-117 | the merged filter is EXCLUDE exactly when some filter is, and delivers a source exactly when some filter does |
| `MulticastFilter.MergeUnique` | packages/pmd_pytcp/pmd_pytcp/lib/ip4_multicast_filter.py:92-101 | that determines the merged filter |
| `MulticastFilter.MergeIsHierarchical` | packages/pmd_pytcp/pmd_pytcp/lib/ip4_multicast_filter.py:92-117 | merging the merges of two groups is merging all their members |
| `MulticastFilter.MergeIgnoresOrder` | packages/pmd_pytcp/pmd_pytcp/lib/ip4_multicast_filter.py:92-117 | the merge depends only on which filters there are |
| `MulticastFilter.MergeIdentity` | packages/pmd_pytcp/pmd_pytcp/lib/ip4_multicast_filter.py:99-117 | merging nothing gives INCLUDE{}, which is the identity |
| `MulticastFilter.MergeReception` | packages/pmd_pytcp/pmd_pytcp/lib/ip4_multicast_filter.py:68-77 | the merged filter has reception exactly when some filter has |
| `MulticastFilter.ReceptionIff` | packages/pmd_pytcp/pmd_pytcp/lib/ip4_multicast_filter.py:68-77 | among all the sources there are, a filter delivers some source exactly when it has reception and does not exclude every one |
| `DadRegistry.DadSlotRegistry.Install` | packages/pmd_pytcp/pmd_pytcp/lib/dad_slot_registry.py:105-119 | a fresh unset event and an empty slot without peer, whatever was there before; the log invariant is kept |
| `DadRegistry.DadSlotRegistry.Teardown` | packages/pmd_pytcp/pmd_pytcp/lib/dad_slot_registry.py:121-131 | the slot goes; the log invariant is kept |
| `DadRegistry.DadSlotRegistry.RegisterNonce` | packages/pmd_pytcp/pmd_pytcp/lib/dad_slot_registry.py:133-142 | the nonce joins an existing slot; the log invariant is kept |
| `DadRegistry.DadSlotRegistry.HasSignal` | packages/pmd_pytcp/pmd_pytcp/lib/dad_slot_registry.py:144-152 | true exactly when, in the open claim, some conflict arrived with no nonce or with one not then registered |
| `DadRegistry.DadSlotRegistry.TrySignalConflict` | packages/pmd_pytcp/pmd_pytcp/lib/dad_slot_registry.py:162-196 | the three outcomes in terms of the calls so far, and the captured peer |
| `DadRegistry.SignalUndisturbed` | packages/pmd_pytcp/pmd_pytcp/lib/dad_slot_registry.py:162-196 | echoes of own nonces, registrations and calls for other candidates never change a candidate's signal |

## Left out

* The asyncio tasks, servers, bridges, descriptor passing and signal handling around these cores: foreign calls.
* Text forms of addresses, masks and networks, formatting, ordering operators, `hosts`, iteration and indexing of networks: they add only easy members. Rejection of a scoped IPv6 address by the network constructor belongs to the text forms.
* `summarize`, `subnets` and `address_exclude` are generators; the model returns the whole list, or the error that stops them, and not the moments in between.
* Sysctl lookup: the neighbour knobs are constants of a run that meet their validators. The REACHABLE lifetime may change between passes.
* The clock is a parameter of each operation, a real number; rounding of floating-point differences is not modelled. No result needs the clock to be monotone.
* Callbacks of the neighbour cache are recorded and do not call back into the cache.
* `NeighborEntry` objects are values in the cache's map; that `_snapshot` hands out references to entries which change later is not captured.
* The order in which a maintenance pass visits entries is arbitrary in the model, where Python uses insertion order; per-address results do not depend on it. Ties in the collector's sort are resolved arbitrarily.
* The stream socket is the bytes still to come, with the peer closing after them; `recv_frame` on an asyncio reader has the same contract and is not repeated.
* `inet_pton` and `inet_ntop`: an address in the datagram codec is its 4 or 16 packed bytes.
* The family check of a route's gateway and preferred source when it is built: it adds only an easy member.
* Interface-identifier generation, JSON value tagging, the IPC request numbers, packet parsers and assemblers, TCP: other components.
- NeighborRun.UnansweredFails: says nothing of a further wait after the last solicit, because the code does not wait.
