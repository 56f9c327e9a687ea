# nomad-p2p-cni: a verified model of its stateful cores

The agent of nomad-p2p-cni joins hosts into an overlay network. Five of its parts keep
state across calls and make promises about whole runs. This project models them in Dafny and
proves those promises, or, where the code does not keep one, exactly when it does.

* **Datagrams** (`Bytes`, `Frame`, `Replay`, `Inertness`, `Protocol`, `Network`). A frame is an
  8-byte timestamp, an 8-byte nonce, the payload and a 32-byte HMAC. The receiver keeps a
  pruned list of accepted nonces. HMAC is any function from byte strings to 32 bytes; the
  clock reading, the nonce and the socket's events are inputs.
* **Route misses** (`Route`, `RouteRuns`, `RouteRate`). Packets to unknown destinations pass a
  ring buffer, a bounded queue and a per-address cooldown before they are queried. The queue
  check and the push take the lock separately, so they are separate steps.
* **STUN** (`Stun`, `StunCodec`, `StunSafety`, `StunRfc`). The attribute walk over a binding
  response, the encoder it inverts, and the address layout of RFC 5389 beside the byte
  positions the program reads.
* **Virtual IPs** (`DivMod`, `Vip`, `VipBalance`, `VipRaces`,
  `VipShare`). Round robin over a 16-slot record,
  sequentially and with racing reads, write-backs and publications.
* **Container addresses** (`Options`, `Alloc`). A hash-seeded probe over host numbers with 8-bit
  wrap-around, as in the release builds.

Code that updates state in place is a class (`UdpProtocol`, `RouteManager`, `VipMap`,
`VipMonitor`, `ContainerRoutes`) or a method with a loop, each proved against a function on
values. The theorems are about those functions, over runs. A run is any sequence of steps; a
step that cannot happen changes nothing, so the theorems need no notion of a valid run.

What the code does not promise as one would expect, with the exact condition:

* The README of the repository calls the nonce table anti-replay protection. A header
  delivered at clock `a` can be delivered once more if and only if its timestamp is not before
  `a` (`Replay.RepeatableIff`); three deliveries are possible and never four. This is for
  clocks that do not step back; `Replay.ForgottenIff` gives the condition for any clock.
* At clock 0 the saturated cutoff forgets an entry of the same second. The table agrees with
  the unbounded history for all runs if and only if the clock starts at 1 or later
  (`Replay.ClockBoundIsExact`).
* The STUN walk is bounded by the declared length. `StunSafety.NeverPanicsIff` gives the buffer
  sizes that exclude an index panic for all contents.
* Port and address are read two bytes before the place section 15.1 of RFC 5389 puts them. A
  conforming value is read correctly for exactly one address of each attribute type
  (`StunRfc.RfcReadIff`), and the NAT verdict does not depend on the mapped ports
  (`StunRfc.VerdictIgnoresPorts`).
* A write-back can restore a replaced backend list: the stored one is safe if and only if no
  processor holds another (`VipRaces.LastsIff`), and a list can come back at all if and only if
  it has two backends or more (`VipRaces.CanReturnIff`).
* The loader leaves the handle on the virtual-IP map empty, and then a publication stores
  nothing (`Vip.UpdateBpfVip`). The results on publications are about a build with the handle.
* An address handed out is new as long as fewer than 249 hosts are marked; from 249 on the
  unmarked fallback can repeat (`Alloc.HandedOutOnceIff`).
* With the shipped stub of `is_ip_allocated`, ids collide exactly as `Alloc.StubCollidesIff` says.

## Model

| member | source | states |
|---|---|---|
| `Frame.MarshalLayout` | agent/src/protocol.rs:43-53 | The frame by position: 48 bytes more than the payload, the timestamp in bytes 0-7 with the most significant first, the nonce in 8-15, the payload from 16 on, and in the last 32 bytes the MAC of all bytes before them. |
| `Frame.AuthenticMeans` | agent/src/protocol.rs:102-111 | Any byte string passes the receiver's tests if and only if it has at least 48 bytes and its last 32 are the MAC of the others. |
| `Frame.UnmarshalMarshal` | agent/src/protocol.rs:43-53 | Slicing a marshalled frame returns its timestamp, nonce and payload, and the frame authenticates, for all three values and every MAC. |
| `Frame.AuthenticIffMarshalled` | agent/src/protocol.rs:106-111 | A byte string passes the length and MAC tests if and only if it is the marshalled form of some message. |
| `Frame.NonceStringsDecideBytes` | agent/src/protocol.rs:70-72 | Two nonces print as the same hexadecimal string if and only if their bytes are equal, so deduplication on strings is deduplication on bytes. |
| `Replay.AcceptIff` | agent/src/protocol.rs:68-90 | For every run and any clock, also one that steps back: an arrival is delivered exactly when it is authentic, in the window, and no delivered arrival of its nonce survived every later pruning up to and including its own. |
| `Replay.ForgottenIff` | agent/src/protocol.rs:79-89 | For any clock: after a single delivery of a nonce, an authentic in-window arrival of it is delivered too if and only if some check since then, its own included, read a clock at least 300 s beyond that delivery. |
| `Replay.PrunedTableRefinesHistory` | agent/src/protocol.rs:79-89 | With a nondecreasing clock from 1 on, whole runs are decided exactly as by a second receiver that never prunes and instead compares the age of every acceptance it has made with 300 s, although out-of-window headers skip the pruning. |
| `Replay.ClockBoundIsExact` | agent/src/protocol.rs:83-84 | Agreement with the receiver that never prunes holds for all nondecreasing runs from a given clock value if and only if that value is at least 1. |
| `Replay.DeliveriesAreSpaced` | agent/src/protocol.rs:83-88 | In every run with a nondecreasing clock from 1 on, two deliveries of one nonce are at least 300 s apart. |
| `Replay.PastHeaderIsFinal` | agent/src/protocol.rs:79-89 | In every run with a nondecreasing clock from 1 on, a header whose timestamp is before the clock of one of its deliveries is not delivered later. |
| `Replay.AtMostThreeDeliveries` | agent/src/protocol.rs:79-89 | No run with a nondecreasing clock from 1 on delivers a header more than three times. |
| `Replay.ThreeDeliveriesIff` | agent/src/protocol.rs:79-89 | Some run with a nondecreasing clock from 1 on delivers the header of a message three times if and only if the message is stamped from second 301 on and at least 300 s before the end of 64-bit time. |
| `Replay.RepeatableIff` | agent/src/protocol.rs:79-89 | Right after a delivery, some continuation with a nondecreasing clock delivers the same header again if and only if its timestamp is not before the clock of the delivery (and the clock can still advance by a window). |
| `Inertness.RejectedAreInert` | agent/src/protocol.rs:92-123 | In every run with a nondecreasing clock, deleting any selection of rejected arrivals changes neither the delivered sequence nor the table after each delivery. |
| `Inertness.OnlyDeliveredThins` | agent/src/protocol.rs:92-123 | The run of the delivered arrivals alone is such a selection. |
| `Inertness.DeliveriesAreAcceptances` | agent/src/protocol.rs:92-123 | The delivered sequence of a run lists its accepted indices in order, with the tables they left. |
| `Protocol.UdpProtocol.Marshal` | agent/src/protocol.rs:35-54 | Filling the header array in place and appending payload and tag yields the frame of the message, 48 bytes more than the payload, ending in the 32-byte MAC of the rest. |
| `Protocol.UdpProtocol.CheckNonce` | agent/src/protocol.rs:68-90 | Decision and new table of the in-place update are those of the run-level function. |
| `Protocol.UdpProtocol.TakeDatagram` | agent/src/protocol.rs:101-119 | Reading a datagram into the reused buffer, of any size, decides by the bytes that land in it alone; stale bytes have no influence. |
| `Protocol.UdpProtocol.Recv` | agent/src/protocol.rs:92-123 | All events before the last one used are rejected datagrams. The result is a delivery, with length and sender of that datagram, if and only if the last one is delivered; a socket error if and only if it failed; and no result if and only if it timed out or the events ran out without a delivery. The table is that after all of them. |
| `Protocol.RecvReports` | agent/src/protocol.rs:92-123 | The same of the function that the loop computes. |
| `Protocol.RecvTakesFirstDelivery` | agent/src/protocol.rs:92-123 | One receive call takes exactly the first delivery of the remaining events; what is delivered later is unchanged. |
| `Protocol.UdpProtocol.RecvLoop` | agent/src/protocol.rs:137-158 | The payload slices handed on, over all events, are those of the event-level function, and so is the final table. |
| `Protocol.LoopDeliversTheRun` | agent/src/protocol.rs:143-185 | Socket errors and cancelled waits lose and change nothing: the payloads are those of the run of the datagrams alone. |
| `Network.DeliveredWasSent` | agent/src/protocol.rs:92-129 | In every run of a network that loses, delays, reorders and duplicates frames, each delivered payload is that of a message sent before the delivery, within the window. |
| `Network.FirstArrivalIsDelivered` | agent/src/protocol.rs:79-89 | An in-window arrival is delivered if no earlier in-window arrival had its nonce, whatever the clock did; arrivals outside the window leave no trace. |
| `Network.DeliveredExactlyOnce` | agent/src/protocol.rs:35-123 | With different nonces and a nondecreasing clock from 1 on, the first in-window arrival of a message is delivered, also after copies outside the window, and if the clock has passed its timestamp no other arrival of it, earlier or later, is. |
| `Route.RouteManager.SubmitMiss` | agent/src/route.rs:29-35 | Without interference the queue takes the miss if it holds fewer than 4096 and never grows beyond that. |
| `Route.RouteManager.DrainBatch` | agent/src/route.rs:37-50 | The loop empties the queue, returns the first occurrences not cooling down, passes over the rest so that both together are the queue, and leaves exactly the unexpired cooldowns plus new ones. |
| `Route.BatchAndSkipped` | agent/src/route.rs:44-48 | Batch and passed-over misses, each defined by its branch of the loop, add up to the pending misses. |
| `Route.BatchIsDeduplicated` | agent/src/route.rs:42-48 | The batch has no address twice, and its addresses are the pending ones without a live cooldown. |
| `Route.BatchKeepsOrder` | agent/src/route.rs:44-48 | The batch lists addresses in the order of their first misses. |
| `RouteRuns.QueueBound` | agent/src/route.rs:29-35 | With k submitters whose checks and pushes interleave with each other and with drains in any way, the queue never exceeds 4095 + k; a single consumer keeps it within 4096. |
| `RouteRuns.QueueBoundAttained` | agent/src/route.rs:29-35 | For every k > 0 some run reaches 4095 + k. |
| `RouteRuns.Conservation` | agent/src/route.rs:29-50 | In every reachable state each miss of an address was lost by the ring buffer, refused by a full queue, passed over by a drain because the address was cooling down or pending before, or queried, or it is in the ring buffer, with a submitter or pending: the counts add up exactly. |
| `RouteRuns.EmittedHasCause` | ebpf/src/main.rs:68-76 | For every query there is a packet to its address that found it absent from the node map, at a point of the run before the query. |
| `RouteRuns.KnownPeerIsQuiet` | ebpf/src/main.rs:68-76 | Once a peer is in the node map, no later packet to it changes the pipeline. |
| `RouteRuns.FirstInFirstOut` | agent/src/route.rs:93-138 | With the single ring-buffer consumer, drained, pending, carried and buffered misses, in this order, are the misses in the order of their packets with some left out. |
| `RouteRate.SpacingAndCoverage` | agent/src/route.rs:37-50 | In every interleaving, two queries of one address are at least 5 s apart, and every drained miss has a query of its address less than 5 s old. |
| `RouteRate.CooldownDomain` | agent/src/route.rs:38-47 | In every reachable state the cooldown map holds exactly the addresses queried less than 5 s before the last drain. |
| `RouteRate.QueryRateBound` | agent/src/route.rs:37-50 | In every run, a closed window of length T holds at most floor(T / 5 s) + 1 queries of one address. |
| `RouteRate.QueryRateAttained` | agent/src/route.rs:37-50 | For every m some run has m + 1 queries of one address in a window of m cooldowns. |
| `Stun.ParseStunResponse` | agent/src/stun.rs:65-104 | The loop computes the recursive walk for every buffer, index panics included, and visits the offsets of `Visits`; it terminates. Fewer than 20 bytes, or a type other than 0x0101, are refused, and nothing else is. |
| `Stun.ParseOnBytes` | agent/src/stun.rs:69-103 | For every binding response, on raw bytes: the walk looks at offsets from 20 on, each past the value before it rounded up to four, up to the first with type 0x0001 or 0x0020 and length 8 or more; that one is read at its byte positions, and the result is a panic or no address exactly when the chain ends otherwise. |
| `Stun.ParseRefusals` | agent/src/stun.rs:66-72 | What is refused before the walk, both ways. |
| `Stun.ReadAddress` | agent/src/stun.rs:80-96 | The plain and the exclusive-or branch read port and address at the program's byte positions. |
| `Stun.NextOffset` | agent/src/stun.rs:98-101 | The next offset is past the value and its padding to a multiple of four. |
| `Stun.VisitsAscendAligned` | agent/src/stun.rs:76-102 | Visited offsets are multiples of four, ascend, and leave room for a header before the declared end. |
| `Stun.XorInvolution` | agent/src/stun.rs:84-94 | Exclusive or with the same number undoes itself at every width. |
| `StunCodec.ParseInvertsResponse` | agent/src/stun.rs:65-104 | For every attribute list, any padding bytes and any trailing bytes, parsing the encoded response returns the decode of the first usable attribute, or fails if there is none, and visits exactly the attribute starts up to it. |
| `StunCodec.TilesIffEncoded` | agent/src/stun.rs:74-102 | Padded attributes tile a stretch of a buffer if and only if it is the encoding of an attribute list. |
| `StunCodec.TiledResponseIsRead` | agent/src/stun.rs:74-103 | A response whose declared body fits the buffer and is tiled is read without an index panic, as its attribute list. |
| `StunCodec.TiledWalkStopsAtEnd` | agent/src/stun.rs:76-102 | Over tiled attributes the walk finds nothing if and only if it stops exactly at the declared end. |
| `StunSafety.NeverPanicsIff` | agent/src/stun.rs:74-93 | For a given buffer size and declared length, no contents cause an index panic if and only if the declared body cannot hold a header or the buffer reaches ten bytes past the last possible header. |
| `StunRfc.DecodeInvertsProgramValue` | agent/src/stun.rs:80-96 | In the program's layout, decoding inverts encoding for every address, plain and exclusive-or. |
| `StunRfc.RfcReadIff` | agent/src/stun.rs:80-96 | A value laid out as sections 15.1 and 15.2 of RFC 5389 say is read correctly for exactly one address of each attribute type. |
| `StunRfc.DetectNat` | agent/src/stun.rs:119-136 | The verdict is unknown if and only if a query gave no address, and symmetric if and only if both gave one and the ports differ. |
| `StunRfc.VerdictIgnoresPorts` | agent/src/stun.rs:116-136 | For any two conforming responses that carry an address, the verdict is symmetric NAT if and only if their first usable attributes differ in type or family. |
| `Vip.VipMap.TryVip` | ebpf/src/main.rs:146-172 | There is no redirect, and no change, if and only if the address is absent or has no backends; otherwise the redirect is the backend at the next slot modulo the count, with its port byte-swapped. The map is that of the sequential connect, although an unchanged record is not written back. |
| `Vip.UpdateBpfVip` | agent/src/vip.rs:126-143 | With a handle on the kernel map, the record stored has the first min(len, 16) addresses in order, weight 1 and port 0, empty slots after them, that count, and next slot 0; without one nothing changes. |
| `Vip.RotationIsExact` | ebpf/src/main.rs:150-168 | After any connects to this and other addresses the record keeps its backends, and its slot is the starting value plus the number of its connects, modulo the count. |
| `Vip.RoundRobinFair` | ebpf/src/main.rs:150-168 | Of k connects each of n slots gets k / n, and one more exactly if it comes up in the remaining k mod n, from any stored next slot. |
| `Vip.AliveIpsCount` | agent/src/vip.rs:43-51 | The alive list has as many addresses as there are alive backends. |
| `Vip.AliveIpsInOrder` | agent/src/vip.rs:43-51 | The alive list has each alive backend at the position given by the number of alive ones before it, so configured order is kept. |
| `Vip.HealthyListedInOrder` | agent/src/vip.rs:33-51 | Right after configuration every backend is listed as alive, in order. |
| `Vip.VipMonitor.SetBackends` | agent/src/vip.rs:33-41 | The list of one address is replaced and no other: each backend with its address and port, alive, so that the alive list is the configured addresses in order. |
| `Vip.VipMonitor.GetAlive` | agent/src/vip.rs:43-51 | Returns the alive list of a known address, with one entry for each alive backend, and nothing for an unknown one. |
| `VipBalance.PublishAlive` | agent/src/vip.rs:111-121 | The kernel record becomes that of the alive backends if there are any, the address parses and there is a handle; otherwise it stays as it was. |
| `VipBalance.PublishThenBalance` | agent/src/vip.rs:126-143 | After a publication every connect is sent to the alive backend whose position is the number of earlier connects, modulo those in use, with port 0. |
| `VipBalance.FullCycleInOrder` | ebpf/src/main.rs:152-166 | Every full cycle of connects visits the first min(len, 16) alive backends once each, in configured order. |
| `VipRaces.UndisturbedIsConnect` | ebpf/src/main.rs:150-168 | Snapshot and write-back without interference are the sequential connect. |
| `VipRaces.SafeUnderRaces` | ebpf/src/main.rs:150-168 | In every interleaving each stored record and each held snapshot has the backends and count of a record published for its address, 1 to 16 in use and a next slot below the count; every chosen backend was in use in such a record. |
| `VipRaces.LastsIff` | ebpf/src/main.rs:158-167 | A stored configuration survives everything up to the next publication if and only if no processor holds a snapshot of another configuration for the address. |
| `VipRaces.CanReturnIff` | ebpf/src/main.rs:158-167 | A configuration replaced by a different one can be stored again without being published, in some run, if and only if it has two backends or more. |
| `VipShare.RaceShareBound` | ebpf/src/main.rs:158-167 | With k processors, in every interleaving without a publication for the address, a slot is used at most k times for each use of the slot before it, each write-back of it under way at the start, and its first turn if it is current then. |
| `VipShare.ShareAfterPublication` | ebpf/src/main.rs:150-168 | After a publication of two or more backends with no write-back under way, each slot gets at most k times the uses of the slot before it, and slot 0 at most k more. |
| `VipShare.RaceShareAttained` | ebpf/src/main.rs:158-161 | From rest, all k processors can get the current slot while the slot before it is not used. |
| `Alloc.HashIsBase31` | agent/src/api.rs:70 | The wrapping fold is the value of the id's bytes to base 31, modulo 2^32. |
| `Alloc.ContainerRoutes.AllocateFromBpf` | agent/src/api.rs:68-82 | The probe loop returns an address 10.244.0.host: a free reachable host if there is one, and then marks it with 1; otherwise 2 plus the hash modulo 253, and marks nothing. |
| `Alloc.AllocationMeans` | agent/src/api.rs:68-82 | The same of the function that the loop computes, and the probe succeeds if and only if a reachable host is free. |
| `Alloc.ReleaseUndoesAllocation` | agent/src/bpf.rs:69-77 | In every reachable state, releasing an address the probe has just allocated restores the marked routes and the live addresses. |
| `Alloc.ProbeOrder` | agent/src/api.rs:71-73 | The probe tries exactly the hosts 2 to 253 other than the seed and its two neighbours modulo 256, none twice. |
| `Alloc.ProbeIff` | agent/src/api.rs:71-79 | The probe succeeds if and only if one of those hosts is free, and takes the free one that comes up first. |
| `Alloc.ProbePigeonhole` | agent/src/api.rs:71-79 | With fewer than 249 hosts occupied the probe succeeds for every id. |
| `Alloc.PigeonholeIsSharp` | agent/src/api.rs:71-79 | For every seed from 3 to 252, marking its reachable hosts occupies 249 and defeats the probe. |
| `Alloc.HandedOutOnceIff` | agent/src/api.rs:68-82 | With the route map consulted, all unreleased addresses handed out, fallbacks included, are distinct and marked in every run whose allocations each happen with fewer than a given number of hosts marked, if and only if that number is at most 249. |
| `Alloc.ExhaustedRunRepeats` | agent/src/api.rs:80-81 | A run that marks 249 hosts and then gives the ids "1Q" and "22" the same fallback address. |
| `Alloc.LiveAddressesDistinct` | agent/src/api.rs:68-82 | With the route map consulted, in every run of allocations, inserts and removals the unreleased probe-allocated addresses are marked and pairwise distinct. |
| `Alloc.StubCollidesIff` | agent/src/bpf.rs:80 | With the stub, two ids get one address if and only if their hashes share the low byte or both low bytes are 0 or at least 252. |
| `Alloc.SameHash` | agent/src/api.rs:70 | Different ids with equal hashes, and hence equal stub addresses: any two that differ in two neighbouring bytes, one higher against 31 lower, whatever surrounds them. |

## Left out

- HMAC-SHA-256 itself, the random source of nonces, the system clock and JSON: a function value and inputs.
- Unforgeability: noise in `Network` fails the MAC by assumption.
- Protocol.UdpProtocol.Recv: does not record the yield to other tasks after 16 attempts, which has no effect on the result.
- Network: does not bound frames by the datagram size, which makes its statements cover more.
- Clocks that step back: `Replay.AcceptIff`, `Replay.ForgottenIff` and `Network.FirstArrivalIsDelivered` cover them; the other replay theorems ask for a nondecreasing clock.
- Drains by two discovery loops at once: one loop is started, so a drain is one step with a nondecreasing instant.
- The Kademlia query behind an emission and the route the discovery loop inserts for it; the latter is the step `Mark` of `Alloc`.
- Alloc.LiveAddressesDistinct: is about probe-allocated addresses; `Alloc.HandedOutOnceIff` takes in the fallbacks, and for the stub distinctness is false.
- Byte order of addresses in map keys, and the kernel's limits on map sizes.
- VipRaces: a snapshot is read in one step; a record recycled while it is being read is not modelled.
- Failing map updates.
- Health probing: its outcome is never stored, so the alive flags are inputs.
- Text forms of addresses, the HTTP server, configuration reload, metrics, relays, the seed client, IPsec, the firewall and the packet rewrite: input and output, or one-branch decisions.
- The Kademlia module, which is disabled, and the CNI plug-in, which runs external commands.
