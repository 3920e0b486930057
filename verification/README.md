# Operating Organism: verified model of its stateful core

The repository is an experimental "operating organism": a Rust colony server whose nodes gossip
over a mesh, and a set of bare-metal C modules named after organs. This project models the parts of
it that keep state over time and proves what holds over whole runs of them.

- **Colony gossip mesh** (`colony-server`). Nodes flood gossip envelopes with a hop budget, a dedup
  cache, a staleness cut, per-hop re-signing and a log that refills the cache after a restart.
  `Gossip`, `GossipAuth` and `ColonyNode` hold the values, `ColonyServer.AppState` the handlers that
  update them in place, `Mesh` the network as a state machine. `MeshReplay` (no gossip is stored
  twice), `MeshFlood` (everybody reachable is reached), `MeshLine` (the bound on hops is tight),
  `MeshTraffic` (traffic dies out), `PeerBreaker` (the circuit breaker) and `ThreatRegistry` (the vote
  on threat severity) hold the results.
- **United bus** (`united-baremetal`). One ring of messages with sixteen readers. `BloodRing` is the
  ring, `BusReader` its read loop by itself, `UnitedBus.Bus` the code that updates the ring, `BusRuns`
  what every run keeps, `BusLog` the refinement of an append-only log with one cursor per organ.
- **Cell allocator and hedged heap** (`memory-baremetal`). A bit-packed first-fit allocator below a
  table of replicated blocks. `CellMap` and `TissueHeap` are the values, `BioMemory.CellAllocator` and
  `HedgedMalloc.HedgedHeap` the code, `HeapRuns` the invariant of every interleaving.
- **Streaming SHA-256 and the DNA record** (`bot-baremetal`). `Sha256` follows FIPS 180-4 (sections
  4.1.2, 5.1.1, 5.3.3 and 6.2); `BlockStream` is the theory of the buffer; `Sha256Context` and
  `BotDna` are the code.
- **Synapse network and energy metabolism** (`vital-baremetal`). `SynapseNet`, `SynapseLearning`,
  `SynapseRuns` and the class `SynapseNetwork.Network`; `Metabolism` and the class
  `EnergyMetabolism.LiverOrgan`.
- **Consciousness state machine and control planes** (`vital-baremetal`, `control-planes`).
  `Consciousness` with `ConsciousnessFsm.Fsm`; `ControlPlanes` with `ControlLoop.ControlPlane`.

Each component has the same shape. Code that updates state is a class (or a method with a loop) whose
`ensures` equates the new state with a function of the old one. What the source promises is then
proved about that function, over all inputs or over all runs. The modules whose names end in Laws, Exact,
Outcome, Payload, Content, Delivery or Table pin each such function down in literal terms, without naming it
again: `PeerTable`, `MeshContent`, `GossipOutcome`, `GossipPayload`, `BusDelivery`, `HeapExact`, `BioLaws`,
`Sha256Words`, `Sha256Constants`, `Sha256Length`, `Sha256Example`, `DnaLaws`, `SynapseLaws`,
`MetabolismLaws`, `ConsciousnessLaws`, `ControlLaws` and `ThreatLaws`. Integer widths, wrap-around and rounding
are those of the source.

Clock readings, network answers, hash-map iteration order and the physical memory behind the arena are
parameters. One operation reads the clock once. HMAC-SHA256 is an uninterpreted function of key and
text with a non-empty result.

## Where the code falls short of a promise

These are results of the model, each with a lemma.

- The default dedup window of 300 s does not exclude a second storing of one gossip; 301 s is the least
  window that does (`MeshReplay.WindowExact`, `MeshReplay.DefaultWindowTooShort`). The
  cache rounds both instants down to seconds and the staleness check truncates their difference, so a
  copy passes that check until just before 301 s.
- Evicting for a yellow message keeps every organ's place exactly when no read head is at the write head or
  at the oldest slot (`BusLog.EvictionExact`), although the comment beside it says that it keeps readers from
  being overtaken. An organ at the oldest slot loses all it has not read, one that has caught up is handed the
  old messages again (`BusLog.EvictionLosesUnread`, `BusLog.EvictionReadsAgain`); a run from boot loses 1023
  messages for every organ (`BusLog.BacklogLost`).
- After a white message the ring dilates, and the write head can get out of a reader's reach. Its loop then ends
  only if the buffer fills (`BusReader.LoopEndsExact`): a run from boot leaves every organ that none of the
  messages concerns with a loop that never ends (`BusRuns.DilationStrandsReaders`) and hands the others the
  same messages again and again (`BusReader.HandedOutAgain`, `BusRuns.DilationRepeats`).
- The signed text of a gossip joins its fields with bars and commas and escapes neither, so that different
  envelopes can share it (`GossipPayload.AmbiguousPayloads`); without separators in the fields it binds them all
  (`GossipPayload.PayloadBindsAll`).
- The padding buffer of the hash holds 64 bytes, which suffices exactly when fewer than 56 bytes are
  buffered (`Sha256.PaddingFitsExact`).
- The DNA record's header file calls the prime directives sealed and immutable; the hash does not cover
  them (`BotDna.DirectivesNotSealed`).
- The total synaptic weight leaves links with an unknown end out of the count, so the limit of 1000
  holds for all weights exactly when no such link exists or there are at most seven links
  (`SynapseLearning.BudgetExact`).
- A single-cell request that meets a free cell at address 0 takes two cells
  (`BioMemory.OneCellExact`); a block's cells cover the request exactly when the cell count fits in 32
  bits (`CellMap.CoverExact`).
- Energy is conserved exactly while the total supply fits in 64 bits (`Metabolism.EnergyConserved`,
  `Metabolism.WrapLosesEnergy`).
- A second `consciousness_init` breaks the chain of recorded transitions unless the state is
  EMBRYONIC (`Consciousness.ReinitChainExact`).
- The comment on decision ranks says that survival dominates, but weaker organs can make the resolved decision
  milder. `ControlPlanes.MilderExact` says exactly when: the chain lives, the average still reaches 40, and either
  the worst organ falls from 40..74 to below 40, or SAFE was about to recover and no longer is while nothing falls
  below 75. `ControlPlanes.WeakerOrganMilderDecision` shows that both cases occur.
- While the server runs an open circuit breaker is never tried again (`PeerBreaker.OpenStaysOpen`); only a restart,
  which begins without failure counts, closes it. It is open exactly when five consecutive tries were silent
  (`PeerBreaker.OpenExact`).
- At a physical base of 0 a tissue request that is granted at address 0 returns NULL and loses its cells
  (`TissueHeap.NullExact`).

## Model

| member | source | states |
|---|---|---|
| GossipAuth.DigitsInjective | colony-server/src/main.rs:518-531 | Two numbers with the same decimal text are equal, so the numbers in the signed text can be told apart. |
| GossipAuth.PayloadBindsTtl | colony-server/src/main.rs:518-531 | Rewriting the hop count changes the signed text unless the count is the same: a relay that did not sign again would forward a tag for another text. |
| GossipPayload.PayloadBindsAll | colony-server/src/main.rs:518-531 | For envelopes without separators in their fields the signed text binds every field: two have one text if and only if they agree on all of them, the instant to the millisecond. |
| GossipPayload.AmbiguousPayloads | colony-server/src/main.rs:518-531 | A bar or comma inside a field, or an empty threat, makes different envelopes share one signed text. |
| GossipAuth.SignedVerifies | colony-server/src/main.rs:540-567 | An envelope signed with one key passes under another exactly when both give its text the same tag. |
| GossipAuth.ConstantTimeEq | colony-server/src/main.rs:544-553 | The or-of-xors fold returns true if and only if the two byte strings are equal, at all lengths. |
| GossipAuth.VerifySignature | colony-server/src/main.rs:555-567 | True exactly for a non-empty tag that equals the expected one; a missing or empty tag fails. |
| GossipAuth.VerifySignatureWithAnyKey | colony-server/src/main.rs:569-572 | True if and only if some listed key verifies the envelope. |
| GossipAuth.ParseHmacKeys | colony-server/src/main.rs:495-516 | The signing key leads the verify list; the list holds exactly the non-empty active and previous keys, each once. |
| ColonyNode.CacheBounded | colony-server/src/main.rs:574-595 | Whatever the cache held, a call that adds an id leaves at most 10,000 entries, all inside the window and the new id among them; any other call adds nothing. |
| ColonyNode.MarkKeepsLive | colony-server/src/main.rs:574-595 | Below the limit nothing inside the window is forgotten, and an id is new exactly when no live entry has it. |
| ColonyNode.LoadSeenAt | colony-server/src/storage.rs:195-224 | After a reload an id is cached exactly when the log has a record of it inside the window, with the time of such a record. |
| ColonyNode.StoredAt | colony-server/src/storage.rs:174-190 | Counting records of an id: zero means none, at most one means no two positions share it. |
| GossipOutcome.OutcomeExact | colony-server/src/main.rs:287-442 | Exactly when an arriving gossip is stale, unauthenticated, out of hops, a duplicate or accepted, and relayed; only an accepted one is stored, as it came, with the arrival time. |
| GossipOutcome.SurvivorsExact | colony-server/src/main.rs:574-595 | Exactly which ids the cache still holds after a new one is marked: those inside the window while fewer than 10,000, else those inside half of it while fewer than 10,000, else none. |
| PeerTable.PeerIsRemembered | colony-server/src/storage.rs:129-154 | Over every run of arrivals, joins, restarts and looks, a peer is live exactly while less than 3601 s have passed since its last contact (or the initial registry's last sight of it); address and role are those last announced, it was first seen when its present membership began, and its count is the number of contacts since. |
| ColonyServer.AppState.constructor | colony-server/src/storage.rs:195-224 | A server starts with the cache rebuilt from its log and no peer failures. |
| ColonyServer.AppState.LoadSeenGossip | colony-server/src/storage.rs:196-224 | The line-by-line reload gives the same cache as reading the log as a whole, later records overriding earlier ones. |
| ColonyServer.AppState.GetMeshRegistry | colony-server/src/storage.rs:226-247 | Returns and keeps exactly the peers heard from within the last hour. |
| ColonyServer.AppState.RegisterPeer | colony-server/src/storage.rs:129-154 | Evicts silent peers, then inserts the peer with count 1 or refreshes it, keeping when it was first seen. |
| ColonyServer.AppState.StoreGossip | colony-server/src/storage.rs:171-193 | Registers the sender and appends one record with the arrival time to the log. |
| ColonyServer.AppState.MarkGossipSeen | colony-server/src/main.rs:574-595 | Cache and answer after marking are those of MarkSeen: expired entries dropped, a known id refused, a full cache halved or cleared before the insertion. |
| ColonyServer.AppState.HandleMeshGossip | colony-server/src/main.rs:287-442 | The handler is the value-level Receive in every branch (stale, unauthenticated, no hops left, duplicate, accepted); the acknowledgement and the task given to the relay follow from its outcome. |
| ColonyServer.AppState.Reject | colony-server/src/main.rs:297-313 | A refused gossip is acknowledged with its own hop count and the number of live peers, and changes nothing but evicting silent peers. |
| ColonyServer.AppState.SendGossipToPeers | colony-server/src/main.rs:673-764 | One signed envelope goes to every live peer other than the node and the excluded one, at most three copies each, at least one to each peer that answers and whose breaker is closed, none where it is open; every peer's failure count follows the breaker. |
| ColonyServer.AppState.VisitPeer | colony-server/src/main.rs:705-762 | An open breaker sends nothing and changes nothing; otherwise an answer clears the failure count and three silent attempts raise it by one. |
| ColonyServer.AppState.SendWithRetries | colony-server/src/main.rs:716-748 | Success exactly when one of three attempts is acknowledged; at most three identical copies arrive, at least one on success. |
| ColonyServer.AppState.GossipRound | colony-server/src/main.rs:611-665 | A round without live peers does nothing else; any other marks its own id as seen and fans out a fresh signed envelope with the full hop budget. |
| PeerBreaker.AnsweredExact | colony-server/src/main.rs:716-748 | A peer answers a send exactly if one of the three attempts is acknowledged. |
| PeerBreaker.RoundAtPeer | colony-server/src/main.rs:690-763 | A round changes a peer's failure count as if that peer alone had been visited, whatever the order. |
| PeerBreaker.SilentPeerCount | colony-server/src/main.rs:705-762 | While a peer never answers, its count grows by one per round it takes part in and stops at five. |
| PeerBreaker.OpenStaysOpen | colony-server/src/main.rs:705-714 | Over all rounds until a restart an open breaker never closes, since an open one is not attempted and only an answer resets it. |
| PeerBreaker.OpenExact | colony-server/src/main.rs:705-762 | After a run of rounds a breaker is open if and only if some five consecutive tries of that peer were silent, the failures counted before the run standing for silent tries in front of it. |
| Mesh.StepKeepsTraveled | colony-server/src/main.rs:343-428 | Every step keeps: each copy in flight has hops left, hops left plus hops made is the originator's budget plus one, and it is not addressed to the originator or its last sender. |
| Mesh.HopBudget | colony-server/src/main.rs:343-428 | In every run, with loss, restarts and cleared caches, a delivery is never to the originator, never meets the drop for spent hops, comes after at most max_hops transmissions, and is relayed exactly when accepted with fewer. |
| Mesh.StepKeepsSigned | colony-server/src/main.rs:700-703 | Every step keeps: each copy in flight carries its last sender's tag for the text it has now. |
| Mesh.NeverAuthRejected | colony-server/src/main.rs:316-341 | If every node signs and every verifying node lists every signing key, no delivery in any run is rejected for authentication, although relays rewrite the signed hop count. |
| MeshContent.StoredAsSaid | colony-server/src/main.rs:410-428 | In every run each stored record carries the threats, organisms, sender and instant that the originator gave the gossip of that id, however often it was relayed, retried or replayed. |
| MeshReplay.StaleBeforeForgotten | colony-server/src/main.rs:293-296 | A copy that is not stale arrives while the cache entry of the stored original is still inside a sufficient window. |
| MeshReplay.ArriveKeeps | colony-server/src/main.rs:287-442 | An arrival keeps the invariant that every stored record is either guarded by a cache entry at least as young or older than the window. |
| MeshReplay.RebootKeeps | colony-server/src/storage.rs:195-224 | A restart that rebuilds the cache from the log keeps the same invariant. |
| MeshReplay.StoredAtMostOnce | colony-server/src/main.rs:368-408 | Over every run of arrivals, own gossips and restarts, under arbitrary replay, a gossip is stored at most once when the window is sufficient. |
| MeshReplay.WindowExact | colony-server/src/main.rs:487-493 | A window excludes double storing in all admissible runs if and only if it is at least the least sufficient one, for every bound on how far senders' clocks run ahead. |
| MeshReplay.ReplayedTwice | colony-server/src/main.rs:293-296 | For every shorter window a concrete admissible run of two arrivals stores one gossip twice. |
| MeshReplay.DefaultWindowTooShort | colony-server/src/main.rs:487-493 | With senders' clocks not ahead, 301 s suffice and the default 300 s do not. |
| MeshTraffic.FanoutSize | colony-server/src/main.rs:690-748 | A send to at most B peers puts at most 3B copies in flight. |
| MeshTraffic.DeliveryLowers | colony-server/src/main.rs:410-428 | Every delivery strictly lowers the sum of (3B+1)^ttl over the copies in flight, whatever the caches hold. |
| MeshTraffic.StepCost | colony-server/src/main.rs:607-666 | Every step raises the potential by at most a fixed allowance, which only an originated gossip uses. |
| MeshTraffic.DeliveriesBounded | colony-server/src/main.rs:343-428 | In every run, with caches cleared at will, the deliveries made plus the remaining potential never exceed the initial potential plus a fixed allowance per originated gossip: traffic dies out. |
| MeshFlood.LastHopMeansAll | colony-server/src/main.rs:410-428 | When max_hops is at least the number of nodes minus one, a gossip first accepted with its last hop has reached every node. |
| MeshFlood.StepKeepsFlood | colony-server/src/main.rs:343-428 | Every step of a calm run keeps the flooding invariant: copies travel simple paths of holders, and every edge out of the holders is settled or has a copy on its way. |
| MeshFlood.FloodReaches | colony-server/src/main.rs:343-428 | Once no copy of a gossip is left in flight, every node reachable from the originator has stored it exactly once and the originator never. |
| MeshLine.HopBoundIsTight | colony-server/src/main.rs:410-428 | For a line of any number N of nodes and any hop budget from 1 to N - 1: everything about a flooding run but, below N - 1, the bound on max_hops holds, and at quiescence exactly the nodes within the budget have stored the gossip, once, although all are reachable. So the bound cannot be lowered for any N, and flooding runs exist. |
| ThreatRegistry.MaxByVotes | colony-server/src/storage.rs:379-379 | For any iteration order the election returns a severity with the most votes, and nothing exactly for an empty table. |
| ThreatRegistry.Scan | colony-server/src/storage.rs:322-374 | The single pass leaves vote tables and summaries that agree with the whole log: counts of lines and incidents, first and last sighting. |
| ThreatRegistry.GetThreatRegistry | colony-server/src/storage.rs:307-386 | The registry lists exactly the threats with a valid line; each has the sum of counts, the number of lines, the first line's discoverer, and a severity that no other outvotes. |
| ThreatRegistry.First | colony-server/src/storage.rs:349-371 | The first sighting exists exactly when there is any, and is a line of that threat. |
| ThreatRegistry.VotesWithinObservers | colony-server/src/storage.rs:329-330 | A severity never has more votes than the threat has valid lines. |
| ThreatLaws.ObserversAreLines | colony-server/src/storage.rs:329-340 | The observer count is the size of the set of valid lines of the threat. |
| ThreatLaws.VotesAreLines | colony-server/src/storage.rs:329-330 | A severity's votes are the size of the set of lines that give it. |
| ThreatLaws.IncidentsAdd | colony-server/src/storage.rs:336-369 | Incidents add up over any division of the log. |
| ThreatLaws.OneLineCounts | colony-server/src/storage.rs:336-369 | A sighting counts for the number it gives, or for one; other lines count for nothing. |
| ThreatLaws.SummaryCounts | colony-server/src/storage.rs:336-340 | The totals of a summary are the incidents modulo 2^64 and the number of lines. |
| ThreatLaws.FirstIsEarliest | colony-server/src/storage.rs:349-371 | No line before the first sighting is of that threat. |
| ThreatLaws.LastSeenIsLatest | colony-server/src/storage.rs:341-347 | The last sighting is dated by the latest further line with a readable time, or by the scan if there is none. |
| BloodRing.MeetsExact | united-baremetal/src/united_bus.c:85-97 | The read loop can reach the write head if and only if it is already there or the write head lies inside the current capacity. |
| BloodRing.ReadCloser | united-baremetal/src/united_bus.c:85-97 | Each round of a read loop that ends brings it closer, in cyclic distance, to the write head or, out of reach of that, to a slot that fills the buffer further. |
| BusReader.LoopStops | united-baremetal/src/united_bus.c:85-97 | A read loop that meets the ending condition stops, with the messages and the read head of the recursive walk. |
| BusReader.LoopEndsExact | united-baremetal/src/united_bus.c:85-97 | The read loop ends if and only if the write head is already met or lies inside the capacity, or nothing is asked for, or some slot inside the capacity concerns the organ, or the slot it starts at lies outside the capacity, concerns the organ and fills the buffer. |
| BusReader.FillsBuffer | united-baremetal/src/united_bus.c:85-97 | Out of reach of the write head a call that ends has filled the whole buffer. |
| BusReader.LapThenAgain | united-baremetal/src/united_bus.c:85-97 | Out of reach of the write head a call hands out one lap around the capacity and then goes on as if it had just begun. |
| BusReader.HandedOutAgain | united-baremetal/src/united_bus.c:85-97 | Out of reach of the write head a buffer larger than one lap is handed every message again one lap later, with the same id. |
| BloodRing.SlowestLagsMost | united-baremetal/src/united_bus.c:108-117 | The collection scan ends on a read head, or the write head, and no read head lags further. |
| BusRuns.PumpBounded | united-baremetal/src/united_bus.c:36-77 | Any pump, dilating and evicting ones included, keeps capacity within 1024 to 2048 and every index inside the array. |
| BusRuns.EvictionIsAccepted | united-baremetal/src/united_bus.c:41-62 | A pump that moves the oldest slot is never refused afterwards. |
| BusDelivery.PumpOutcome | united-baremetal/src/united_bus.c:36-77 | Which pumps are refused, in the fields of the message: a full ring refuses all but white and yellow ones; a red one for the cortex (0) that the sensory organ (4) did not send is filtered; any other is stored under the next number. |
| BusDelivery.CapacityContracts | united-baremetal/src/united_bus.c:64-69 | A white message sets the capacity to 2048; every other stored message lowers it by one, down to 1024. |
| BusRuns.StepAccounted | united-baremetal/src/united_bus.c:36-77 | Every step, dilated rings included, keeps: pumps equal refusals plus accepted messages, modulo 2^32, and accepted messages are numbered consecutively from 1. |
| BusRuns.RunBounds | united-baremetal/src/united_bus.c:36-117 | In every run whose reads return, dilation included, capacity, indices and counters stay in their bounds and the accounting holds in every state. |
| BusRuns.DilationStrandsReaders | united-baremetal/src/united_bus.c:64-97 | A concrete run of 1025 pumps from boot leaves the write head outside the capacity; an organ's read loop then ends if and only if it asks for nothing or one of the two messages pumped concerns it. |
| BusRuns.DilationRepeats | united-baremetal/src/united_bus.c:64-97 | After the same run an organ that one of the messages concerns is handed messages in laps of at most 1025: a larger buffer gets each of them again. |
| BusLog.FullIffLogFull | united-baremetal/src/united_bus.c:38-41 | The ring is full exactly when 1023 uncollected messages are in it. |
| BusLog.PumpRefines | united-baremetal/src/united_bus.c:36-77 | At fixed capacity a pump appends the numbered message to the log, or leaves it as it was when refused. |
| BusLog.EvictionExact | united-baremetal/src/united_bus.c:41-54 | On a full ring a yellow message keeps the log and every organ's place in it if and only if no read head is at the write head or at the oldest slot. |
| BusLog.EvictionDisplaces | united-baremetal/src/united_bus.c:41-76 | What an eviction does in every case: the message is appended, the oldest is given up, an organ that had caught up goes back to the oldest message kept and one at the oldest slot jumps past the newest. |
| BusLog.EvictionLosesUnread | united-baremetal/src/united_bus.c:41-76 | An organ at the oldest slot of a full ring has 1023 unread messages; after an eviction its next call, whatever its buffer, is handed nothing. |
| BusLog.EvictionReadsAgain | united-baremetal/src/united_bus.c:41-76 | An organ that has read everything is handed, after an eviction, all the old messages kept that concern it a second time, before the new one. |
| BusLog.BacklogLost | united-baremetal/src/united_bus.c:36-106 | A run from boot, 1023 red pumps and a yellow one: before the last pump an organ could read all 1023 messages, after it none. |
| BusLog.RunRepresents | united-baremetal/src/united_bus.c:36-117 | In every run without a white message, evictions included, the ring represents the log of all accepted messages. |
| BusLog.AbsorbRefines | united-baremetal/src/united_bus.c:79-106 | Reading hands out exactly the messages between two cursor positions that are broadcast or addressed to the organ, and stops early only when the buffer is full. |
| BusLog.SlowestIsMin | united-baremetal/src/united_bus.c:109-115 | The scan by cyclic lag finds the slot of the least cursor. |
| BusLog.GcRefines | united-baremetal/src/united_bus.c:108-117 | Collection frees exactly what every organ has passed. |
| BusLog.PendingIsUncollected | united-baremetal/src/united_bus.c:125-125 | The pending figure of the health report is the number of messages not yet collected. |
| BusLog.RunDelivers | united-baremetal/src/united_bus.c:36-117 | Over every interleaving of pumps, reads of any size and collections that neither dilates nor evicts while an organ is at the write head or the oldest slot, each organ receives exactly the accepted messages meant for it, in order, without loss or repetition. |
| BusDelivery.AbsorbPicks | united-baremetal/src/united_bus.c:85-97 | A call picks, in order, exactly the messages between the two cursor positions whose target is 0xFF or the organ. |
| BusDelivery.CaughtUpPicks | united-baremetal/src/united_bus.c:85-97 | In every safe run an organ that has caught up has received exactly the accepted messages whose target is 0xFF or itself, in order: a strictly increasing index map hits exactly those. |
| BusDelivery.BroadcastReachesAll | united-baremetal/src/united_bus.c:85-97 | Every message with target 0xFF is received exactly once by every organ that has caught up, as long as fewer than 2^32 are numbered. |
| UnitedBus.Bus.constructor | united-baremetal/src/united_bus.c:27-34 | The bus starts empty with capacity 1024, all heads at 0 and numbering from 1. |
| UnitedBus.Bus.Pump | united-baremetal/src/united_bus.c:36-77 | The new ring and the result code are those of the specified pump, in all of the congested, filtered and stored cases. |
| UnitedBus.Bus.StoreGlobule | united-baremetal/src/united_bus.c:64-75 | Storing adjusts the capacity, numbers the message and advances the write head. |
| UnitedBus.Bus.ReseatHeads | united-baremetal/src/united_bus.c:45-49 | Exactly the heads at one slot move to another. |
| UnitedBus.Bus.Absorb | united-baremetal/src/united_bus.c:79-106 | For every call whose loop ends, messages and new read head are those of the specified walk; no other head moves. |
| UnitedBus.Bus.ReadOn | united-baremetal/src/united_bus.c:82-97 | Under the exact ending condition the loop ends and returns what the recursive walk returns. |
| UnitedBus.Bus.Gc | united-baremetal/src/united_bus.c:108-117 | The oldest slot becomes the slowest head; nothing else changes. |
| UnitedBus.Bus.GetHealth | united-baremetal/src/united_bus.c:119-128 | The report shows drops, pumps, pending messages and capacity as they are. |
| CellMap.BitAfter | memory-baremetal/src/bio_alloc.c:14-24 | Setting or clearing one bit of a byte changes that bit only. |
| CellMap.MaskIsShift | memory-baremetal/src/bio_alloc.c:14-24 | The masks are the shifts of one. |
| CellMap.SetFlag | memory-baremetal/src/bio_alloc.c:14-16 | Setting a bit of the packed map sets one flag of the unpacked one and no other. |
| CellMap.ClearFlag | memory-baremetal/src/bio_alloc.c:18-20 | Clearing a bit of the packed map clears one flag and no other. |
| CellMap.FindRun | memory-baremetal/src/bio_alloc.c:77-98 | The leftmost run of free cells of the asked length, or nothing exactly when no such run exists. |
| CellMap.FirstFree | memory-baremetal/src/bio_alloc.c:40-45 | The first free cell: everything before it is owned. |
| CellMap.CoverExact | memory-baremetal/src/bio_alloc.c:76-76 | The rounded-up cells cover the request if and only if their count fits in 32 bits, and then waste less than one cell. |
| CellMap.FreeCountClaim | memory-baremetal/src/bio_alloc.c:37-49 | Claiming a free cell lowers the number of free cells by one. |
| BioMemory.ScanStep | memory-baremetal/src/bio_alloc.c:40-49 | One round of the single-cell scan keeps the description of what it has claimed so far. |
| BioMemory.OneCellExact | memory-baremetal/src/bio_alloc.c:36-49 | While a cell is free, a request takes exactly one if and only if it does not meet a free cell at address 0 with another free one behind it. |
| BioLaws.CellRoundTrip | memory-baremetal/src/bio_alloc.c:36-71 | Above base 0 a request takes the first free cell and nothing else, NULL means that none was free, and freeing the returned address restores the map. |
| BioLaws.TissueRoundTrip | memory-baremetal/src/bio_alloc.c:74-121 | Purging the address of a tissue request with the same size gives back exactly its cells. |
| BioMemory.Advanced | memory-baremetal/src/bio_alloc.c:77-98 | One step of the contiguous search keeps that no run of the asked length ends before it; reaching the length finds the leftmost run. |
| BioMemory.CellAllocator.constructor | memory-baremetal/src/bio_alloc.c:26-34 | After initialisation every cell is free. |
| BioMemory.CellAllocator.AllocateCell | memory-baremetal/src/bio_alloc.c:36-61 | Claims the first free cell (a second one if the first is at NULL) and signals pressure exactly when fewer than five percent of the cells are still free. |
| BioMemory.CellAllocator.FreeCell | memory-baremetal/src/bio_alloc.c:63-71 | Frees the one cell whose index the address gives, cut to 32 bits, if the map has it; nothing for an address below the base. |
| BioMemory.CellAllocator.AllocateNeuralTissue | memory-baremetal/src/bio_alloc.c:74-101 | Takes exactly the cells of the leftmost free run of the needed length and returns its address; takes nothing when there is none or no cell is asked for. |
| TissueHeap.NullExact | memory-baremetal/src/bio_alloc.c:74-101 | NULL is returned if and only if no cell is asked for, no free run is long enough, or the leftmost one lies at address 0; cells are taken exactly in the cases other than the first two. |
| BioMemory.CellAllocator.SearchRun | memory-baremetal/src/bio_alloc.c:77-99 | The counting loop finds the leftmost free run, although it looks at each cell once. |
| BioMemory.CellAllocator.MarkRun | memory-baremetal/src/bio_alloc.c:87-89 | Marks exactly the cells of the run. |
| BioMemory.CellAllocator.PurgeInfectedTissue | memory-baremetal/src/bio_alloc.c:104-121 | Zeroes and frees exactly the cells of the range that starts at the address's index, with the 32-bit arithmetic of the source, and touches no other byte or cell; nothing for an address below the base. |
| BioMemory.CellAllocator.ZeroCell | memory-baremetal/src/bio_alloc.c:114-117 | Zeroes the 4096 bytes of one cell and no others. |
| TissueHeap.PutOutside | memory-baremetal/src/hedged_malloc.c:78-81 | Replication writes nothing outside the block. |
| TissueHeap.PutInside | memory-baremetal/src/hedged_malloc.c:78-81 | Every replica gets the data and keeps what lies behind it. |
| TissueHeap.FastestIsMin | memory-baremetal/src/hedged_malloc.c:119-128 | The replica chosen for a read has the least simulated latency. |
| TissueHeap.Find | memory-baremetal/src/hedged_malloc.c:63-69 | The scan returns an entry with that base address, and none exactly when there is none. |
| HeapRuns.MallocBlock | memory-baremetal/src/hedged_malloc.c:30-53 | A successful request takes cells that were free and that cover all replicas. |
| HeapExact.MallocNullExact | memory-baremetal/src/hedged_malloc.c:30-53 | NULL is returned if and only if the table holds 256 entries, the replica count is not 1 to 4, no cell is asked for, no run of the needed length is free, or the base is 0 and the leftmost such run starts at cell 0. |
| HeapExact.MallocTakesLeftmost | memory-baremetal/src/hedged_malloc.c:30-53 | Any other request takes exactly the cells of the leftmost free run, returns its address and adds one entry for it. |
| HeapExact.ReplicateExact | memory-baremetal/src/hedged_malloc.c:58-84 | Replication succeeds if and only if the address is that of a block and the data fit one replica; otherwise nothing changes. |
| HeapExact.ReadExact | memory-baremetal/src/hedged_malloc.c:99-137 | A read succeeds if and only if the address is that of a block and one replica holds as many bytes; otherwise nothing changes. |
| HeapExact.ReadReturns | memory-baremetal/src/hedged_malloc.c:119-136 | A successful read returns the beginning of the first replica and books one read of latency 80. |
| HeapExact.FastestIsFirst | memory-baremetal/src/hedged_malloc.c:90-94 | With one to four replicas the first is the fastest, at 80. |
| HeapExact.FreeExact | memory-baremetal/src/hedged_malloc.c:166-183 | Freeing an address that is not a block's changes nothing; freeing a block removes its entry and no other. |
| HeapRuns.MallocKeeps | memory-baremetal/src/hedged_malloc.c:30-53 | Allocation keeps the invariant: the new block is apart from all others and every owned cell is accounted for. |
| HeapRuns.ReplicateKeeps | memory-baremetal/src/hedged_malloc.c:58-84 | Replication updates all replicas of its block and leaves every other block's contents alone. |
| HeapRuns.ReadKeeps | memory-baremetal/src/hedged_malloc.c:99-137 | Reading keeps the invariant; it only updates statistics. |
| HeapRuns.ReadYourWrites | memory-baremetal/src/hedged_malloc.c:99-137 | A read of a live block succeeds and returns at every written offset the byte last replicated there, and every other replica would have given the same. |
| HeapRuns.FreeCells | memory-baremetal/src/hedged_malloc.c:166-183 | Freeing gives back exactly the block's cells, although the request is rounded and the entry is found by address. |
| HeapRuns.FreeKeeps | memory-baremetal/src/hedged_malloc.c:166-183 | Freeing with swap-removal keeps the invariant for all remaining blocks. |
| HeapRuns.OtherKeeps | memory-baremetal/src/bio_alloc.c:74-101 | Tissue requests by other users never disturb a block. |
| HeapRuns.StepKeeps | memory-baremetal/src/hedged_malloc.c:30-183 | Every operation keeps the invariant. |
| HeapRuns.RunKeepsInv | memory-baremetal/src/hedged_malloc.c:30-183 | After every interleaving over any number of blocks, live blocks are disjoint, each replica holds what was last written, and each owned cell belongs to exactly one live block or was taken by another user or, at base 0 only, lost. |
| HedgedMalloc.HedgedHeap.constructor | memory-baremetal/src/hedged_malloc.c:22-23 | The heap starts valid and with an empty table over any arena, at physical base 0 too. |
| HedgedMalloc.HedgedHeap.Malloc | memory-baremetal/src/hedged_malloc.c:30-53 | NULL and no entry for a full table, a bad replica count or no address; otherwise a new entry over freshly taken cells, and the heap stays valid when the cell count fits in 32 bits. |
| HedgedMalloc.HedgedHeap.ReplicateData | memory-baremetal/src/hedged_malloc.c:58-84 | Fails and changes nothing for NULL, an unknown block or too much data; otherwise exactly the replicas are written. |
| HedgedMalloc.HedgedHeap.CopyToReplicas | memory-baremetal/src/hedged_malloc.c:78-81 | The loop writes each replica once at its own offset. |
| HedgedMalloc.HedgedHeap.FastestReplica | memory-baremetal/src/hedged_malloc.c:119-128 | The scan returns the specified fastest replica and its latency. |
| HedgedMalloc.HedgedHeap.HedgedRead | memory-baremetal/src/hedged_malloc.c:99-137 | Returns the fastest replica's bytes and records one read with its latency; fails and changes nothing for NULL, an unknown block or too long a read. |
| HedgedMalloc.HedgedHeap.HedgedFree | memory-baremetal/src/hedged_malloc.c:166-183 | Releases the block of that address, if there is one, and keeps the heap valid. |
| HedgedMalloc.HedgedHeap.Release | memory-baremetal/src/hedged_malloc.c:173-180 | Purges the block's cells and moves the last entry into the gap. |
| HeapRuns.NothingLost | memory-baremetal/src/hedged_malloc.c:39-42 | With a base above 0 a request that returns NULL has changed nothing. |
| BlockStream.PushRepresents | bot-baremetal/core/bot_dna.c:83-86 | Feeding one byte keeps: state is the fold over the complete blocks, the buffer holds the rest, the counter is the length. |
| BlockStream.UpdateRepresents | bot-baremetal/core/bot_dna.c:80-87 | An update extends the represented message by exactly its data. |
| BlockStream.ChunksRepresent | bot-baremetal/core/bot_dna.c:80-87 | Any way of cutting a message into updates, for any block function, leaves a context that represents the whole message. |
| BlockStream.FoldOne | bot-baremetal/core/bot_dna.c:80-87 | Folding one block is one application of the block function. |
| BlockStream.FoldConcat | bot-baremetal/core/bot_dna.c:80-87 | Folding over a division of the blocks is folding on from the first part. |
| Sha256.ZeroCount | bot-baremetal/core/bot_dna.c:94-95 | The number of padding zeros brings the length to eight bytes below a block boundary. |
| Sha256.ZeroCountIsLeast | bot-baremetal/core/bot_dna.c:94-95 | No smaller number of zeros does, as section 5.1.1 of FIPS 180-4 asks. |
| Sha256.PaddingFitsExact | bot-baremetal/core/bot_dna.c:90-97 | The padding fits the 64-byte array if and only if fewer than 56 bytes are buffered. |
| Sha256.PaddingIsPad | bot-baremetal/core/bot_dna.c:89-97 | Padding computed from the byte counter is the padding of the whole message by section 5.1.1. |
| Sha256.FinishIsDigest | bot-baremetal/core/bot_dna.c:89-104 | Finalizing a context that represents a message gives the one-shot digest of that message. |
| Sha256.StreamedIsOneShot | bot-baremetal/core/bot_dna.c:72-104 | However a message is cut into updates, the streamed digest is the one-shot digest. |
| Sha256Words.BigS0Bits | bot-baremetal/core/bot_dna.c:44-45 | Bit i of S0 is the parity of bits i + 2, i + 13 and i + 22 of the word, counted around it; bits are read off the number by division. |
| Sha256Words.BigS1Bits | bot-baremetal/core/bot_dna.c:44-46 | The same for S1 with 6, 11 and 25. |
| Sha256Words.SmallS0Bits | bot-baremetal/core/bot_dna.c:44-47 | Bit i of R0 is the parity of bits i + 7 and i + 18 around the word and of bit i + 3, zero past the end. |
| Sha256Words.SmallS1Bits | bot-baremetal/core/bot_dna.c:44-48 | The same for R1 with 17, 19 and 10. |
| Sha256Words.ChBits | bot-baremetal/core/bot_dna.c:49-49 | Bit i of Ch is that of the second or third word, as bit i of the first selects. |
| Sha256Words.MajBits | bot-baremetal/core/bot_dna.c:50-50 | Bit i of Maj is set exactly when it is set in at least two of the words. |
| Sha256Constants.NthPrimeIsPrime | bot-baremetal/core/bot_dna.c:25-42 | The table of 64 primes lists the primes from 2 on in order and leaves none out. |
| Sha256Constants.RoundConstantsAreRoots | bot-baremetal/core/bot_dna.c:25-42 | K[t] is the integer part of 2^32 times the fractional part of the cube root of the t-th prime. |
| Sha256Constants.InitialHashIsRoots | bot-baremetal/core/bot_dna.c:72-78 | The initial words are the same of the square roots of the first eight primes. |
| Sha256Length.LengthBytesSpell | bot-baremetal/core/bot_dna.c:96-96 | The eight length bytes spell the bit length, most significant first, for every length below 2^64. |
| Sha256Example.DigestOfAbc | bot-baremetal/core/bot_dna.c:52-104 | The digest of "abc" is the one of the standard's example. |
| Sha256Context.Sha256Ctx.constructor | bot-baremetal/core/bot_dna.c:72-78 | A new context represents the empty message. |
| Sha256Context.Sha256Ctx.Transform | bot-baremetal/core/bot_dna.c:52-70 | The state after a block is the FIPS 180-4 compression of state and buffer. |
| Sha256Context.Sha256Ctx.Update | bot-baremetal/core/bot_dna.c:80-87 | The context afterwards represents the old message followed by the data. |
| Sha256Context.Sha256Ctx.Final | bot-baremetal/core/bot_dna.c:89-104 | With fewer than 56 bytes buffered, the digest returned is the one-shot digest of everything fed in. |
| Sha256Context.BuildPad | bot-baremetal/core/bot_dna.c:90-96 | The array holds 0x80, the zeros and the big-endian bit length. |
| Sha256Context.ExpandBlock | bot-baremetal/core/bot_dna.c:55-59 | The loop computes the message schedule of section 6.2.2. |
| Sha256Context.RunRounds | bot-baremetal/core/bot_dna.c:60-67 | The eight-variable rotation computes the 64 rounds of section 6.2.2. |
| BotDna.SealedVerifies | bot-baremetal/core/bot_dna.c:187-200 | A freshly sealed record verifies exactly when its magic and version are right. |
| BotDna.LearnKeepsVerified | bot-baremetal/core/bot_dna.c:202-213 | Learning a pattern keeps a verified record verified and is refused exactly when the pool is full. |
| DnaLaws.VerifyExact | bot-baremetal/core/bot_dna.c:191-200 | A record verifies exactly when it starts with 0x424F5444 and version 1 and bytes 4228 to 4259 are the digest of the 4228 before them. |
| DnaLaws.LearnExact | bot-baremetal/core/bot_dna.c:202-213 | A lesson is refused, without change, exactly when 64 patterns are known; otherwise the next slot holds it, the count is one higher and the other slots are as they were. |
| DnaLaws.LearnedInOrder | bot-baremetal/core/bot_dna.c:202-213 | A verified record that learns any number of patterns while there is room holds them in order behind those it had, and is still verified. |
| DnaLaws.FieldRoundTrip | bot-baremetal/core/bot_dna.c:202-213 | A count field holds what was written, modulo 2^32. |
| BotDna.RoundTrip | bot-baremetal/core/bot_dna.c:215-232 | Serializing and deserializing returns the record itself if it verifies and wipes it otherwise, whatever the buffer held behind it. |
| BotDna.VerifyExtent | bot-baremetal/core/bot_dna.c:112-122 | Verification depends on nothing behind the hash field. |
| BotDna.DirectivesNotSealed | bot-baremetal/core/bot_dna.h:122-123 | Replacing the directives never changes whether the record verifies, although they are called sealed. |
| BotDna.AlterationIsCollision | bot-baremetal/core/bot_dna.c:191-200 | A record with the hash field of a verified one verifies if and only if magic and version are right and the digests of the two records' bytes in front of that field are equal. |
| BotDna.HashChangeDetected | bot-baremetal/core/bot_dna.c:191-200 | A record that agrees with a verified one in front of the hash field verifies if and only if its hash field is the same. |
| BotDna.Dna.Hash32 | bot-baremetal/core/bot_dna.c:112-122 | The hash of the record is the one-shot digest of the bytes in front of the hash field. |
| BotDna.Dna.VerifyDna | bot-baremetal/core/bot_dna.c:191-200 | True exactly for the right magic, version and hash. |
| BotDna.Dna.Learn | bot-baremetal/core/bot_dna.c:202-213 | Writes the pattern into the next slot, raises the count and seals again; changes nothing when the pool is full. |
| SynapseLearning.LearnKeepsTopology | vital-baremetal/src/synapse_network.c:114-150 | Learning changes weights only. |
| SynapseLearning.ScalingShrinks | vital-baremetal/src/synapse_network.c:143-149 | Scaling never flips a sign and never increases a magnitude, for every network. |
| SynapseLearning.ScaledTotal | vital-baremetal/src/synapse_network.c:145-148 | Truncated shares add up to at most the scaled total. |
| SynapseLearning.WithinBudget | vital-baremetal/src/synapse_network.c:114-150 | After learning, the links with known ends weigh at most 1000 in all, at most 950 if scaling ran. |
| SynapseLearning.NetworkWithinBudget | vital-baremetal/src/synapse_network.c:114-150 | If every link has known ends, the sum of all absolute weights is at most 1000, at most 950 if scaling ran. |
| SynapseLearning.UnregisteredOverflows | vital-baremetal/src/synapse_network.c:126-140 | With eight links and one unknown end, weights exist that end above the limit. |
| SynapseLearning.BudgetExact | vital-baremetal/src/synapse_network.c:114-150 | A topology keeps the whole network within 1000 for all weights and firings if and only if every link has known ends or there are at most seven links. |
| SynapseLaws.LearnExact | vital-baremetal/src/synapse_network.c:114-150 | Learning link by link: firing together adds plasticity / 32 + 1, up to 127; the source alone firing takes one off above -120; nothing else moves a weight; and only if the magnitudes then exceed 1000 are all weights scaled by 950 over their total, rounded toward zero. |
| SynapseLaws.BondingStrengthens | vital-baremetal/src/synapse_network.c:128-133 | Known ends that fired together give the lesser of 127 and the old weight plus plasticity / 32 + 1 when nothing is scaled. |
| SynapseLaws.TogetherNeverFalls | vital-baremetal/src/synapse_network.c:114-150 | Over any stretch of a run a link whose ends fire together before each learning step, without scaling, never falls and gains at least one per step until 127. |
| SynapseLaws.CapacityExact | vital-baremetal/src/synapse_network.c:34-55 | The tables take sixteen nodes and sixty-four links and refuse what does not fit. |
| SynapseNet.QuotientShrinks | vital-baremetal/src/synapse_network.c:147-147 | The scaled weight is the truncated share, so its cast to int8_t loses nothing. |
| SynapseRuns.TurnsEffect | vital-baremetal/src/synapse_network.c:83-111 | Within a pass each node has one turn; the turns of others leave its refractory and fire counters alone, even though they stimulate it. |
| SynapseRuns.TurnsRange | vital-baremetal/src/synapse_network.c:65-112 | Activations stay within -128 to 127 under cascaded stimulation inside a pass. |
| SynapseLaws.StimulateExact | vital-baremetal/src/synapse_network.c:65-74 | A signal is added to the first node with the id, cut to -128 .. 127, and changes nothing else. |
| SynapseLaws.TransmitAdds | vital-baremetal/src/synapse_network.c:95-105 | A firing node adds to each node the sum of the weights of its links to it, as long as no partial sum leaves the range. |
| SynapseLaws.TurnExact | vital-baremetal/src/synapse_network.c:83-111 | A node rests, leaks, or fires exactly when it is rested and at its threshold; firing sets the rest to three and stimulates before the leak. |
| SynapseLaws.CalmFades | vital-baremetal/src/synapse_network.c:76-112 | A network below its thresholds and left alone fades by one step per pass toward zero and never fires. |
| SynapseRuns.StepKeepsInv | vital-baremetal/src/synapse_network.c:34-150 | Every operation keeps: the refractory counter tells how recent the last firing was, and firings are four passes apart. |
| SynapseRuns.SpacedIsRare | vital-baremetal/src/synapse_network.c:84-93 | Firings at least four apart are at most ceil(n/4) in n passes. |
| SynapseRuns.FiringRate | vital-baremetal/src/synapse_network.c:65-112 | In every run a node fires at most once in any four consecutive passes, at most ceil(n/4) times in n, its counter says how often, and its activation fits an int8_t. |
| SynapseNetwork.Network.constructor | vital-baremetal/src/synapse_network.c:22-32 | The network starts without nodes, links or recent firings. |
| SynapseNetwork.Network.AddNode | vital-baremetal/src/synapse_network.c:34-44 | Appends a silent node, or changes nothing when there are sixteen. |
| SynapseNetwork.Network.Connect | vital-baremetal/src/synapse_network.c:46-55 | Appends a link, or changes nothing when there are sixty-four. |
| SynapseNetwork.Network.FindNode | vital-baremetal/src/synapse_network.c:58-63 | The scan returns the first node with the id. |
| SynapseNetwork.Network.Stimulate | vital-baremetal/src/synapse_network.c:65-74 | Adds the signal to the first node with the id and clamps it to -128..127; unknown ids change nothing. |
| SynapseNetwork.Network.Propagate | vital-baremetal/src/synapse_network.c:76-112 | The nested in-place loops are the specified sequence of turns, later nodes seeing the signals of earlier ones. |
| SynapseNetwork.Network.NodeTurn | vital-baremetal/src/synapse_network.c:84-110 | One node rests, fires and signals, or leaks, as specified. |
| SynapseNetwork.Network.SendSignals | vital-baremetal/src/synapse_network.c:96-105 | Exactly the outgoing links stimulate their targets, in table order. |
| SynapseNetwork.Network.LastNode | vital-baremetal/src/synapse_network.c:121-124 | The inner search settles on the last node with the id, unlike stimulation, which takes the first. |
| SynapseNetwork.Network.HebbianLearning | vital-baremetal/src/synapse_network.c:114-150 | The weights afterwards are those of the specified learning and scaling. |
| SynapseNetwork.Network.LearnLinks | vital-baremetal/src/synapse_network.c:118-141 | The first loop learns every link from the firings before it and returns the total of the links it did not skip. |
| SynapseNetwork.Network.LearnAt | vital-baremetal/src/synapse_network.c:119-138 | One link is strengthened, depressed or left alone as specified; no other link changes. |
| SynapseNetwork.Network.ScaleLinks | vital-baremetal/src/synapse_network.c:146-148 | Every weight is scaled, those of skipped links too. |
| Metabolism.Grant | vital-baremetal/src/energy_metabolism.c:51-60 | A grant exceeds neither the request nor the pool nor what the budget still allows; a fasting organ gets nothing. |
| MetabolismLaws.RequestExact | vital-baremetal/src/energy_metabolism.c:39-73 | A known organ that does not fast gets all it asked for, or empties the pool, or reaches its allocation; it then fasts exactly if the allocation is used up; nobody else is touched. |
| MetabolismLaws.RegisterExact | vital-baremetal/src/energy_metabolism.c:28-37 | An organ that has consumed nothing is appended, until there are sixteen. |
| MetabolismLaws.TickExact | vital-baremetal/src/energy_metabolism.c:80-118 | What a tick costs, regains in sleep and books as waste, and the rate it sets: 50 below 10,000, else 100. |
| MetabolismLaws.TicksForgive | vital-baremetal/src/energy_metabolism.c:99-109 | Any number of ticks alone halves each consumption once per 50,000 cycles, ends every fast at the first of these, and leaves the organs otherwise alone. |
| Metabolism.ApplyValid | vital-baremetal/src/energy_metabolism.c:28-118 | Every operation keeps consumption within allocation, for every organ. |
| Metabolism.EnergyConserved | vital-baremetal/src/energy_metabolism.c:28-118 | In every run pool, waste, grants and famine losses equal the energy supplied and the energy recorded as generated if and only if the supply fits in 64 bits; then pool, waste and grants never exceed what was generated; no organ overspends. |
| Metabolism.WrapLosesEnergy | vital-baremetal/src/energy_metabolism.c:75-78 | Two deposits of 2^63 leave an empty pool and an empty record. |
| Metabolism.StepOrgan | vital-baremetal/src/energy_metabolism.c:39-118 | One operation moves an organ's consumption by exactly its own grant, and a fasting organ stays fasting until the recycling. |
| Metabolism.BudgetBetweenRecyclings | vital-baremetal/src/energy_metabolism.c:39-118 | Between two recyclings an organ is granted exactly the growth of its consumption, never more than its allocation still allowed, and nothing once it fasts. |
| EnergyMetabolism.LiverOrgan.constructor | vital-baremetal/src/energy_metabolism.c:19-26 | The pool and the record of generated energy start equal, without organs. |
| EnergyMetabolism.LiverOrgan.RegisterOrgan | vital-baremetal/src/energy_metabolism.c:28-37 | Appends an organ that has consumed nothing, or changes nothing when there are sixteen. |
| EnergyMetabolism.LiverOrgan.RequestEnergy | vital-baremetal/src/energy_metabolism.c:39-73 | Grant, organ and pool afterwards are those of the specified request; unknown and fasting organs get nothing and change nothing. |
| EnergyMetabolism.LiverOrgan.Transact | vital-baremetal/src/energy_metabolism.c:53-70 | The same amount leaves the pool and enters the organ's consumption; reaching the allocation starts a fast. |
| EnergyMetabolism.LiverOrgan.GenerateEnergy | vital-baremetal/src/energy_metabolism.c:75-78 | Adds the amount to pool and record alike, modulo 2^64. |
| EnergyMetabolism.LiverOrgan.Tick | vital-baremetal/src/energy_metabolism.c:80-118 | Basal cost or famine, regeneration in sleep, recycling every 50,000 ticks and the new basal rate, in that order. |
| EnergyMetabolism.LiverOrgan.RecycleBudgets | vital-baremetal/src/energy_metabolism.c:103-107 | Halves every organ's consumption and ends every fast. |
| Consciousness.TransitionRemembers | vital-baremetal/src/consciousness_fsm.c:59-70 | A legal transition keeps the ring equal to the end of the full record, across wrap-around. |
| Consciousness.DriftIsLegal | vital-baremetal/src/consciousness_fsm.c:108-138 | The transitions caused by the passing of time are never refused. |
| ConsciousnessLaws.LegalIsTable | vital-baremetal/src/consciousness_fsm.c:13-24 | A transition is legal exactly where the nine-by-nine table holds a one. |
| ConsciousnessLaws.AllReachable | vital-baremetal/src/consciousness_fsm.c:13-24 | Every state can be reached from every other by legal transitions. |
| ConsciousnessLaws.TransitionExact | vital-baremetal/src/consciousness_fsm.c:47-88 | A transition is taken exactly if the table allows it; it writes one event and restarts the time in state. |
| ConsciousnessLaws.InitExact | vital-baremetal/src/consciousness_fsm.c:38-45 | Initialisation leaves AWARE with an event from EMBRYONIC, whatever was before. |
| ConsciousnessLaws.TickExact | vital-baremetal/src/consciousness_fsm.c:103-139 | One tick counts one cycle and changes the state exactly after more than 50,000 cycles of AWARE, 10,000 of DREAMING or 5,000 of ALERT. |
| ConsciousnessLaws.IdleAlternates | vital-baremetal/src/consciousness_fsm.c:108-125 | Left alone for any time, an AWARE mind alternates between 50,001 cycles of AWARE and 10,001 of DREAMING. |
| ConsciousnessLaws.AlertSubsides | vital-baremetal/src/consciousness_fsm.c:127-134 | Left alone, ALERT becomes FOCUSED after 5,001 cycles and stays so. |
| ConsciousnessLaws.OthersStay | vital-baremetal/src/consciousness_fsm.c:136-137 | Every other state lasts, without any event, until a request. |
| Consciousness.StepKeeps | vital-baremetal/src/consciousness_fsm.c:47-139 | Every request and tick keeps the ring true to a chained record. |
| Consciousness.QueryIsTail | vital-baremetal/src/consciousness_fsm.c:94-101 | A query returns the latest min(n, max, 64) events in order; a negative bound does not limit it. |
| Consciousness.HistoryIsTrue | vital-baremetal/src/consciousness_fsm.c:38-101 | In every run the query tells a chain of legal transitions, each starting where the one before ended, the newest ending in the current state. |
| Consciousness.ReinitChainExact | vital-baremetal/src/consciousness_fsm.c:38-45 | Initialising again keeps the chain if and only if the state was EMBRYONIC. |
| ConsciousnessFsm.Fsm.Initialize | vital-baremetal/src/consciousness_fsm.c:38-45 | Records one transition from EMBRYONIC to AWARE whatever the state was. |
| ConsciousnessFsm.Fsm.Transition | vital-baremetal/src/consciousness_fsm.c:47-88 | A legal request is recorded and taken; any other changes nothing. |
| ConsciousnessFsm.Fsm.GetHistory | vital-baremetal/src/consciousness_fsm.c:94-101 | The loop returns the specified slots of the ring, also for a bound that is negative as an int. |
| ConsciousnessFsm.Fsm.Tick | vital-baremetal/src/consciousness_fsm.c:103-139 | Counts the cycle and leaves AWARE, DREAMING or ALERT after its own time limit. |
| ControlPlanes.AverageIsPercent | control-planes/src/oo_organ_state.c:49-61 | The average of health values of at most 100 is at most 100, so its cast to uint8_t loses nothing. |
| ControlPlanes.WorstIsMin | control-planes/src/oo_organ_state.c:63-77 | The scan gives the minimum over reporting non-vital organs, 100 if there is none below. |
| ControlPlanes.ResolvedIsMinimal | control-planes/src/control_tick.c:16-47 | The resolved decision is one of the three proposals and none of them outranks it. |
| ControlPlanes.DecisionIs | control-planes/src/control_tick.c:27-47 | Which decision a tick takes, exactly, as a condition on the vital chain, the average, the worst organ and the new mode; OPTIMIZE never wins. |
| ControlPlanes.TickSafety | control-planes/src/oo_homeostasis_mode.c:27-79 | A broken vital chain gives SAFE and THROTTLE; any other mode means the chain lives and effective health is at least 40; NORMAL means at least 75 and HOLD. |
| ControlLaws.ModeExact | control-planes/src/oo_homeostasis_mode.c:27-79 | Exactly which mode follows which, at 40, 75, 85 and 90. |
| ControlLaws.NormalNeedsNinety | control-planes/src/oo_homeostasis_mode.c:48-51 | In every run a mode machine that was DEGRADED is NORMAL again only after a tick at 90 or more with a living chain. |
| ControlLaws.PlanesExact | control-planes/src/reflex_engine.c:16-46 | Decision, reason and risk of the three planes, as conditions on chain, average, worst organ and mode. |
| ControlLaws.Precedence | control-planes/src/control_tick.c:16-25 | THROTTLE goes before ISOLATE, RECOVER, HOLD and OPTIMIZE, in this order. |
| ControlLaws.VitalExact | control-planes/src/oo_organ_state.c:79-92 | The vital organs are 0, 1, 2, 7 and 14, and the chain is broken exactly if one of them has reported 0. |
| ControlPlanes.WeakerOrganMilderDecision | control-planes/src/organ_autonomy.c:37-45 | Both cases of a milder decision occur: with all others at 100, a non-vital organ at 50 makes the tick throttle and at 30 only recover; in SAFE at 86 it makes the tick recover and at 80 only hold. |
| ControlPlanes.MilderExact | control-planes/src/control_tick.c:27-47 | For any two registries of which one is pointwise weaker: the weaker one gets the milder decision if and only if the chain lives, the average reaches 40, and either the worst organ falls from 40..74 to below 40, or the mode is SAFE, health falls from 85 or more to below 85, and neither average nor worst falls below 75. |
| ControlPlanes.HealthIsPercent | control-planes/src/oo_organ_state.c:21-40 | In every run published and aggregated health never exceeds 100. |
| ControlLaws.LastPublished | control-planes/src/oo_organ_state.c:21-40 | After a run an organ's entry holds what was last published for it, health cut to 100, and its heartbeat has gone up by the number of publishes, modulo 2^32. |
| ControlLaws.TicksAreCounted | control-planes/src/control_tick.c:27-28 | The tick counter counts the ticks, modulo 2^32. |
| ControlLaws.SumsAdd | control-planes/src/oo_organ_state.c:49-61 | Sum and count of reported health add up over any division of the registry. |
| ControlLaws.AverageExact | control-planes/src/oo_organ_state.c:49-61 | The average is the sum over the count, rounded down, and 100 when nobody has reported. |
| ControlPlanes.OnlyThroughRecovery | control-planes/src/oo_homeostasis_mode.c:27-79 | In every run of publishes and ticks, a mode machine that was SAFE is NORMAL or DEGRADED only after a tick into RECOVERY at health 85 or more and a later one into NORMAL at 90 or more. |
| ControlLoop.ControlPlane.Publish | control-planes/src/oo_organ_state.c:21-40 | Overwrites one organ's entry with health capped at 100 and counts the heartbeat; unknown organs change nothing. |
| ControlLoop.ControlPlane.AggregateHealth | control-planes/src/oo_organ_state.c:49-61 | The truncated average over reporting organs, 100 before any has reported. |
| ControlLoop.ControlPlane.WorstNonvitalHealth | control-planes/src/oo_organ_state.c:63-77 | The scan computes the specified minimum over non-vital organs. |
| ControlLoop.ControlPlane.VitalChainAlive | control-planes/src/oo_organ_state.c:79-92 | True if and only if no vital organ has reported health 0. |
| ControlLoop.ControlPlane.EvaluateMode | control-planes/src/oo_homeostasis_mode.c:27-79 | The mode moves as specified from the vital chain and the lesser of average and worst health. |
| ControlLoop.ControlPlane.RunReflex | control-planes/src/reflex_engine.c:16-46 | Decision, reason and risk of the reflex plane, and the status left behind. |
| ControlLoop.ControlPlane.RunStrategic | control-planes/src/strategic_brain.c:14-50 | Decision, reason and risk of the strategic plane, and the status left behind. |
| ControlLoop.ControlPlane.RunAutonomy | control-planes/src/organ_autonomy.c:15-54 | Decision, reason and risk of the autonomy plane, and the status left behind. |
| ControlLoop.ControlPlane.Tick | control-planes/src/control_tick.c:27-47 | One tick updates mode, counter and all three statuses and returns the resolved decision. |

## Left out

- UnitedBus.Bus.Absorb: is stated for calls whose loop ends; BusReader.LoopEndsExact says exactly which these
  are. The others do not return.
- BusLog.RunDelivers: delivery in order is not claimed across a white message, which changes the capacity
  under live indices, nor across an eviction that displaces a reader; BusRuns.RunBounds and
  BusLog.RunRepresents cover those runs.
- Sha256Context.Sha256Ctx.Final: is stated for fewer than 56 buffered bytes, where the padding fits the
  array; the other calls write past it. The hash field of the DNA record is at an offset that leaves 4.
- Sha256Context.Sha256Ctx.Transform: the eight state words are one value of type `Hash`, and the local
  arrays for schedule and padding are sequences or a local array.
- HeapRuns.RunKeepsInv: requests whose rounded cell count does not fit in 32 bits are outside the runs;
  CellMap.CoverExact shows that they get too few cells.
- HeapRuns.OtherKeeps: other users take tissue but do not free or write it; one that freed or wrote a
  block it does not own could break any claim about that block.
- HedgedMalloc.HedgedHeap.ReplicateData: a null data pointer and `memcpy` over overlapping memory are not
  modelled; data is a value.
- MeshReplay.StoredAtMostOnce: assumes fewer than 10,000 live ids, monotone node clocks, one `sent_at` for
  all copies of a gossip and a bound on how far a sender's clock is ahead; a cleared cache forgets everything, and only traffic bounds then hold.
- MeshFlood.FloodReaches: assumes a run without loss, restart, staleness or eviction, lasting peer entries
  and agreeing keys, and max_hops at least the number of nodes minus one; MeshLine shows the last is needed.
- ColonyServer.AppState.HandleMeshGossip: the counters of the metrics endpoint, the ids and times echoed in
  the acknowledgement and storage errors are not modelled.
- ColonyServer.AppState.SendGossipToPeers: delays, timeouts and interleaving with other tasks during a send
  are not modelled; the network's answers are given in advance, and the caller supplies the map's order.
- ColonyServer.AppState.GossipRound: the colony status that supplies threats and organism counts is a
  parameter.
- GossipAuth.ParseHmacKeys: reading the environment, splitting at commas and trimming are not modelled.
- ThreatRegistry.GetThreatRegistry: JSON and time parsing are not modelled; a log line is a record whose
  fields may be missing.
- BioMemory.CellAllocator.AllocateCell: the low-memory message it pumps on the bus is a returned flag.
- ConsciousnessFsm.Fsm.Transition: the reason text and the message it pumps on the bus are not modelled;
  targets are the nine states.
- ControlLoop.ControlPlane.Tick: telemetry and network output are not modelled.
- EnergyMetabolism.LiverOrgan.Tick: whether consciousness sleeps is a parameter; the pain signal of a famine
  is not modelled.
- bot_dna_init: its default directives text is longer than the field and is cut; it only assigns constants.
- HTTP routing, JSON, files, environment parsing and task scheduling of colony-server.
- Heartbeats, directives, organism registry and colony status of colony-server: map updates without protocol.
- `hedged_get_stats`, `bio_consolidate_memory`, `united_bus_broadcast_yellow`, synapse export and import,
  accessors: easy members only.
- Cryptographic strength of SHA-256 and HMAC.
- Drivers, network, UEFI, desktop display, voice, dashboards and bridges: hardware and user interface.
- Immune watchers, chameleon, honey trap, neutralizer, shadow modules: table lookups and stubs.
- `instinct_get_reaction`: its comment and its comparison disagree on which rule wins.
- metabolic_forth.c: words may call themselves, so execution need not end.
- Identity hashing, quantum vault, dream simulator, the Python adaptive layer: mock randomness, scoring, JSON.
