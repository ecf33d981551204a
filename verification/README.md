# BiBEAM data plane and discovery, modelled in Dafny

BiBEAM relays WireGuard traffic between a client and an exit, directly or through a
chain of forwarders that never hold a key. This project models the parts of it that
decide where bytes go and what is counted, and proves properties of them that hold
over every input, every interleaving and every run. `dafny verify dfyconfig.toml`
checks all of it.

- **Relay frames and the client session** (`Relay.dfy`, `ClientSession.dfy`): a
  16-byte chain id before an opaque payload; one cipher engine per session, given as
  two functions with the law that the other end opens a sealed plaintext, and gets none
  from a handshake message.
- **One forwarder** (`Forwarder.dfy`): the lease table, the decision for each
  datagram, the receive loop and its counters, as a class proved against a fold over
  the loop's events; every arm's turn, lease arrival and send failure is an event.
- **Sweep refinement** (`SweepRefinement.dfy`): the swept table against one that
  never forgets a row.
- **The network of forwarders** (`RelayNetwork.dfy`): a transition system with a
  clock, lease inserts, renewals and sweeps, and datagrams that may be injected by
  anyone, lost, copied, delayed and reordered. Paths and their rows are what the
  `ForwarderLease` documentation promises: the coordinator's path builder is not part
  of this model, so conditions on plans, and `Issued`, state its duty.
- **Exact conditions on paths** (`RelayBoundary.dfy`, with the runs made to order of
  `RelayEscort.dfy`): which paths keep every run confined, and which keep every datagram
  within one send per forwarder as well.
- **Loops** (`RelayLoops.dfy`): for any peers a chain's leases may name, from a path or
  not and changing or not, exactly which datagrams can be sent without bound.
- **Rotation** (`Rotation.dfy`): the shared byte counter, the compare-exchange loop
  and the two-trigger loop, once as methods with other tasks' adds placed anywhere in
  between, each proved to consume exactly the adds that fell within it, once as a
  transition system with a clock, overflow and spurious failures.
- **Coordinator event receiver** (`EventReceiver.dfy`, `Backoff.dfy`): connect, pump,
  reconnect, back off, stop.
- **STUN client** (`Stun.dfy`): RFC 8489 sections 5, 14 and 14.2.
- **Flow table** (`FlowTable.dfy`, `FlowRaces.dfy`): heap-allocated flow states shared
  through a map, as a class; and a transition system in which touches and collections
  interleave at every lock, lookup, add, store, test, removal and unlock.
- **Failover pool and bootstrap** (`Failover.dfy`, `Bootstrap.dfy`), with the
  retry rule in `Discovery.dfy`; the quotient arithmetic these and STUN need is in
  `Division.dfy`.
- **Peer records in TXT** (`TxtRecord.dfy`).

Where the code and its comments disagree, the code is modelled:

- Forwarders pass the frame on whole (`crates/bibeam-node/src/forwarder.rs:497`); the
  comments at `crates/bibeam-protocol/src/multihop.rs:34-43` and `:232-235` say it is
  stripped. So one chain id must name the row at every hop.
- `packets_in - packets_out` is said to include leases that expire between match and
  forward (`crates/bibeam-node/src/forwarder.rs:157-160`); in the code the expiry check
  comes before either counter, so the difference is send failures alone.
- The first retry is said to be immediate (`crates/bibeam-node/src/cohort_ws.rs:90-93`);
  the code sleeps about 500 ms before it.
- XOR-MAPPED-ADDRESS is section 14.2 of RFC 8489; the comments say 14.1.

Properties that hold only under a condition, with the exact boundary:

- Sweeping is invisible if the clock does not run backwards (`SweepIsInvisible`); for
  any clock, `SweepVisibleIff` says exactly which lookups a sweep changes, and
  `SteppedBackClockLosesTraffic` gives one.
- Confinement holds in every run exactly when each path of the plan is `Straight`
  (`ConfinedIff`), and confinement with at most one send per forwarder exactly when each
  is `OneWay` (`OneWayIff`). Paths of distinct addresses are both (`DistinctPathsSuffice`).
- Whatever peers leases may name, a chain can loop exactly when some forwarders, each with
  a pair of peers that is the one before and the one after, form a ring (`LoopFreeIff`); a
  datagram can be sent without bound exactly when a walk from the hop it is injected on
  comes to a hop it has gone before (`BoundedIff`), which for peers that never change
  means that it is injected on a ring (`SettledBoundedIff`).
- Rotation accounts for every byte exactly when the 64-bit cell never overflowed
  (`RotationConservation`); fewer than 2^64 bytes in all guarantee that
  (`BelowModulusConserves`), and `OverflowFiresClamp` shows the clamp firing.
- First choices are spread evenly until the cursor wraps; they stay even in every run,
  across any number of wraps, exactly when the pool size divides 2^64 (`AlwaysFairIff`).

## Model

| member | source | states |
|---|---|---|
| RelayNetwork.UpstreamDelivery | crates/bibeam-node/src/forwarder.rs:455-530 | In every run, a client frame seen at its exit is byte-identical to what the session encoded, passed the forwarders of its path each once and in order, all upstream, and opens there to the plaintext sent |
| RelayNetwork.DownstreamDelivery | crates/bibeam-cli/src/multihop.rs:327-349 | In every run, a reply seen at the client is unchanged, passed the forwarders of its path each once in reverse order, all downstream, and passes the session's chain check |
| RelayNetwork.ChainConfinement | crates/bibeam-node/src/forwarder.rs:466-485 | On straight paths, whatever is injected, every datagram a forwarder emits carries the bytes it received, between two adjacent hops of the chain its own first 16 bytes name, one hop on in one unchanging direction |
| RelayBoundary.ConfinedIff | crates/bibeam-node/src/forwarder.rs:588-596 | All emissions of all runs of a plan are confined if and only if its paths are straight |
| RelayBoundary.OneWayIff | crates/bibeam-node/src/forwarder.rs:588-596 | All emissions are confined and all datagrams sent at most once per forwarder, over all runs of a plan, if and only if its paths are one-way |
| RelayNetwork.EmissionsAreGrounded | crates/bibeam-node/src/forwarder.rs:489-529 | Forwarders invent nothing: what was received before an emission had been injected as it stands or sent by a forwarder earlier |
| RelayNetwork.LoopFreedom | crates/bibeam-node/src/forwarder.rs:588-596 | An injected datagram causes at most as many sends as its chain has forwarders, none if it names no chain; a copy the network makes has a bound of its own |
| RelayNetwork.DistinctPathsSuffice | crates/bibeam-protocol/src/multihop.rs:203-207 | On paths of distinct addresses every run is confined and sends every datagram at most once per forwarder |
| RelayNetwork.SendsShowInTrail | crates/bibeam-node/src/forwarder.rs:489-529 | Whatever the tables, an id's sends are at most the forwards recorded in one packet descended from its own injection |
| RelayNetwork.ForwardRides | crates/bibeam-node/src/forwarder.rs:480-484 | A row that follows the plan moves a packet exactly one hop along the path it rides, and never past the path's end |
| RelayNetwork.StepKeepsInv | crates/bibeam-node/src/forwarder.rs:416-446 | Every step of any party keeps rows on the plan, packets on their path and emissions confined |
| RelayNetwork.UpstreamReaches | crates/bibeam-node/src/forwarder.rs:497-504 | With every hop's row in force, a frame can reach the exit unchanged in one forward per remaining forwarder |
| RelayNetwork.DownstreamReaches | crates/bibeam-node/src/forwarder.rs:480-484 | The same from the exit back to the client |
| RelayNetwork.NetworkSweepIsInvisible | crates/bibeam-node/src/forwarder.rs:381-391 | Deleting every sweep of every forwarder from a run leaves all datagrams in flight, arrived and ever sent as they were |
| RelayNetwork.NodesRunInNetwork | crates/bibeam-node/src/forwarder.rs:365-391 | What the network does at a forwarder is what the forwarder's own loop does |
| RelayNetwork.EndpointReceives | crates/bibeam-cli/src/multihop.rs:327-349 | A packet due at an endpoint comes in there as it is |
| RelayLoops.LoopFreeIff | crates/bibeam-node/src/forwarder.rs:588-596 | Sends of a chain's datagrams are bounded over all runs and leases if and only if the peers its forwarders may be given form no ring; the bound is then two per pair of peers |
| RelayLoops.BoundedIff | crates/bibeam-node/src/forwarder.rs:371-379 | One datagram's sends are bounded over all runs and renewals if and only if no walk from the hop it is injected on repeats a hop |
| RelayLoops.SettledBoundedIff | crates/bibeam-node/src/forwarder.rs:480-484 | With peers that never change: if and only if it is not injected on a hop of a ring |
| RelayLoops.RingForwardsForever | crates/bibeam-node/src/forwarder.rs:588-596 | Rows in force along a ring, two forwarders or more or one that names itself, send a datagram as often as it is delivered |
| RelayLoops.DistinctPathHasNoRing | crates/bibeam-node/src/forwarder.rs:588-596 | Rows taken from a path of distinct addresses form no ring |
| RelayEscort.EscortRun | crates/bibeam-node/src/forwarder.rs:365-379 | Any series of forwards some leases allow one by one is made, in that order, by a run that issues those leases |
| SweepRefinement.SweepIsInvisible | crates/bibeam-node/src/forwarder.rs:381-391 | Deleting all sweeps from a run leaves the datagrams sent and the in and out counters as they were; only drop reasons move, and only towards unknown chain |
| SweepRefinement.PrunedDecision | crates/bibeam-node/src/forwarder.rs:466-485 | Swept and unswept tables take the same decision, or both drop |
| SweepRefinement.TableContents | crates/bibeam-node/src/forwarder.rs:553-566 | The unswept table holds each chain's last lease; the swept one holds those no later sweep outran |
| SweepRefinement.SweepVisibleIff | crates/bibeam-node/src/forwarder.rs:466-485 | For any clock, the exact condition under which a sweep changes a forward decision |
| SweepRefinement.SteppedBackClockLosesTraffic | crates/bibeam-node/src/forwarder.rs:560-562 | A clock that steps back one unit makes a sweep lose a row still in force |
| SweepRefinement.SweptTableIsNodeTable | crates/bibeam-node/src/forwarder.rs:371-391 | The table described is the one the receive loop holds |
| Forwarder.EvaluateExact | crates/bibeam-node/src/forwarder.rs:466-485 | Each decision and each drop reason, if and only if |
| Forwarder.LeaseRoutes | crates/bibeam-node/src/forwarder.rs:365-379 | An inserted lease relays both ways until it ends, replaces its chain's row, and leaves other chains alone |
| Forwarder.SweepBoundary | crates/bibeam-node/src/forwarder.rs:560-562 | A row survives a sweep exactly when some datagram could still be relayed by it at that instant |
| Forwarder.ForwarderAccounting | crates/bibeam-node/src/forwarder.rs:416-446 | Over every run, receive results = out + dropped, per direction in = out + send failures, and the outbox is what was relayed |
| Forwarder.CountersByFate | crates/bibeam-node/src/forwarder.rs:489-529 | Over every run, each drop counter and each direction's counters are the numbers of receive results of their own fate |
| Forwarder.FateExact | crates/bibeam-node/src/forwarder.rs:455-485 | The fate of each receive result by what arrived and what the table holds |
| Forwarder.NothingAfterCancel | crates/bibeam-node/src/forwarder.rs:424-426 | Nothing after cancellation changes anything |
| Forwarder.Node.Run | crates/bibeam-node/src/forwarder.rs:416-446 | The loop leaves exactly the state the events' fold describes, and stops on cancellation |
| Forwarder.Node.HandleInbound | crates/bibeam-node/src/forwarder.rs:455-458 | One datagram's decision and counters; what is sent is the payload as received |
| Forwarder.Node.InsertLease | crates/bibeam-node/src/forwarder.rs:371-379 | The chain's row becomes the lease's, the gauge the table size |
| Forwarder.Node.SweepExpired | crates/bibeam-node/src/forwarder.rs:387-391 | Evicts exactly the rows whose lease ended before now, and counts them |
| Relay.FrameRoundTrip | crates/bibeam-protocol/src/multihop.rs:256-278 | Decoding undoes encoding; the frame is 16 bytes longer than its payload |
| Relay.Decode | crates/bibeam-protocol/src/multihop.rs:269-278 | Fails exactly below 16 bytes; otherwise encoding gives the buffer back |
| Relay.PeekAgreesWithDecode | crates/bibeam-node/src/forwarder.rs:576-581 | The forwarder's peek sees the chain id the decoder sees |
| ClientSession.SessionRoundTrip | crates/bibeam-cli/src/multihop.rs:293-349 | What one end of an assignment encodes the other decodes, in both modes: a sealed plaintext to itself, a handshake message to no plaintext at all |
| ClientSession.ForeignChainRejected | crates/bibeam-cli/src/multihop.rs:333-338 | The two wire-shape errors, if and only if |
| ClientSession.BodiesByOutcome | crates/bibeam-cli/src/multihop.rs:293-349 | Bodies sent and received by the engine's outcome: nothing to send is an empty body in both modes, failures are the engine's, a multi-hop body is the chain id and then the datagram |
| ClientSession.Session.EncodeOutbound | crates/bibeam-cli/src/multihop.rs:293-302 | The body sent in each mode, empty when there is nothing to send; the buffer floor means a short buffer is never reported |
| ClientSession.Session.DecodeInbound | crates/bibeam-cli/src/multihop.rs:327-349 | The plaintext or error for each inbound body |
| ClientSession.Session.EncapsulateToBytes | crates/bibeam-cli/src/multihop.rs:356-362 | Truncating the buffer to the count written yields exactly the engine's datagram |
| ClientSession.Session.DecapsulateOwned | crates/bibeam-cli/src/multihop.rs:369-376 | Truncating the buffer yields exactly the engine's plaintext |
| ClientSession.WgTunnel.Encapsulate | crates/bibeam-transport/src/wg_tunnel.rs:221-237 | Reports a short buffer exactly below the floor; otherwise writes what the engine yields |
| Rotation.RotationConservation | crates/bibeam-cli/src/rotation.rs:111-186 | Over every interleaving, counter + observed by completed rotations + overflows = added + clamped; counter + observed = added if and only if the cell never overflowed, and then nothing is clamped |
| Rotation.BelowModulusConserves | crates/bibeam-cli/src/rotation.rs:111-186 | Fewer than 2^64 bytes added in all cannot overflow the cell, so every byte is accounted for |
| Rotation.OnlyExchangeSubtracts | crates/bibeam-cli/src/rotation.rs:156-170 | The cell goes down only by a completed exchange or an overflowing add; a failed callback leaves it alone and ends the loop |
| Rotation.RotationGoesThrough | crates/bibeam-cli/src/rotation.rs:177-186 | A rotation whose callback succeeds takes what it observed out of the cell; a failed exchange looks again |
| Rotation.LoopObserves | crates/bibeam-cli/src/rotation.rs:123-137 | Either arm observes all the cell holds, the poll only at or over 500 MiB; else the poll waits 5 seconds |
| Rotation.OverflowFiresClamp | crates/bibeam-cli/src/rotation.rs:172-186 | An add that wraps the cell during a callback makes the clamp lose bytes |
| Rotation.ByteCapAccounting | crates/bibeam-cli/src/rotation.rs:134-136 | In every run, overflowing or not, k byte-cap rotations mean at least k times 500 MiB were added |
| Rotation.CapNoticedWithinOnePoll | crates/bibeam-cli/src/rotation.rs:200-213 | At any moment of any run, while the loop stays in a wait and the counter at its cap, at most 5 seconds pass |
| Rotation.CapIsKept | crates/bibeam-cli/src/rotation.rs:200-213 | Only an overflow can take a counter that has come to its cap below it during the wait |
| Rotation.DueWaitEnds | crates/bibeam-cli/src/rotation.rs:123-137 | At the poll deadline exactly one arm is ready, the first in the written order, and it ends the wait |
| Rotation.SaturatingSubtract | crates/bibeam-cli/src/rotation.rs:177-186 | Consumes exactly the adds before the turn at which the exchange lands, and every one of them survives it |
| Rotation.WaitForBytesCap | crates/bibeam-cli/src/rotation.rs:200-213 | Returns the value read at the first poll at or over the cap; the cell holds every add of the polls taken |
| Rotation.CapWasReached | crates/bibeam-cli/src/rotation.rs:200-213 | The poll a wait ends on is the first to see the cap, and a wait that goes on saw none |
| Rotation.Fire | crates/bibeam-cli/src/rotation.rs:156-170 | With every add of the callback and the exchange kept, subtracts what was observed if the callback succeeds, nothing if it fails, overflow or not |
| Rotation.Select | crates/bibeam-cli/src/rotation.rs:121-137 | One turn takes the arm of the round, consumes exactly its adds and leaves the cell as that arm's rotation does |
| Rotation.RoundMeans | crates/bibeam-cli/src/rotation.rs:121-137 | A wall-clock round observes whatever the cell holds, a byte-cap round what the first poll at the cap saw; a failed callback ends the loop with every add kept |
| Rotation.LoopMeans | crates/bibeam-cli/src/rotation.rs:121-137 | One rotation per round, for the cause of its arm, until cancellation, a callback's failure or an unfinished wait |
| Rotation.RotationLoop | crates/bibeam-cli/src/rotation.rs:111-139 | Leaves the cell, the adds consumed, the rotations completed and the ending that the rounds describe; without overflow the cell and the rotations hold exactly the start and those adds |
| Rotation.LoopConserves | crates/bibeam-cli/src/rotation.rs:111-139 | Over all rounds the loop loses no add and counts none twice, and rotates for the byte cap only at or over it |
| EventReceiver.CohortWsReceiver.Run | crates/bibeam-node/src/cohort_ws.rs:347-369 | In every reachable state the handler log, reconnect counter max(0, opens − 1), saturating attempt counter and delays are those of the turns played, and the run stands as the settling turn says |
| EventReceiver.NextTurnIff | crates/bibeam-node/src/cohort_ws.rs:403-413 | The turn after one played is played if and only if that one was a session ended by a close, a handled Disconnect or a failure that may pass, or an open that failed so and was not cancelled in its sleep |
| EventReceiver.PlayedExactly | crates/bibeam-node/src/cohort_ws.rs:347-369 | The turns played, and that a run is still running short of its script only in a session all of whose pulls were handled events that go on |
| EventReceiver.OpensCounts | crates/bibeam-node/src/cohort_ws.rs:378-388 | The count behind the reconnect counter is that of the opened sessions |
| EventReceiver.StreakCounts | crates/bibeam-node/src/cohort_ws.rs:418-435 | The count behind the attempt counter is that of the failures since the last opened session |
| EventReceiver.CohortWsReceiver.DriveSession | crates/bibeam-node/src/cohort_ws.rs:444-457 | The handler gets the session's events up to and including the first that ends it |
| EventReceiver.CohortWsReceiver.RouteEvent | crates/bibeam-node/src/cohort_ws.rs:499-514 | One handler call per event; a handler error outranks a Disconnect |
| EventReceiver.DeliveredIsPrefix | crates/bibeam-node/src/cohort_ws.rs:468-477 | Nothing lost, repeated or reordered: a first part of the session's events, all of them if nothing ended it |
| EventReceiver.DeliveredExactly | crates/bibeam-node/src/cohort_ws.rs:444-457 | The handler is called with every event that lets the session go on, in order, then with the one that does not, if it is an event |
| EventReceiver.DisconnectIsLast | crates/bibeam-node/src/cohort_ws.rs:485-490 | Nothing is delivered after a Disconnect |
| EventReceiver.CancellationYieldsPrefix | crates/bibeam-node/src/cohort_ws.rs:449-452 | Wherever cancellation strikes, the handler log is a prefix of the uncancelled run's |
| EventReceiver.RunEnds | crates/bibeam-node/src/cohort_ws.rs:378-398 | A run ends Ok, Permanent or Handler if and only if the first turn that settles anything saw cancellation, a non-retriable error or a handler failure |
| EventReceiver.StreakSleep | crates/bibeam-node/src/cohort_ws.rs:418-435 | A failure streak after a success sleeps the backoff schedule, bounded from both sides by its length |
| Backoff.BackoffBounds | crates/bibeam-node/src/cohort_ws.rs:640-653 | Every delay is the unclamped schedule plus jitter, capped at 60000 ms, and is 60000 from attempt 8 on |
| Backoff.ScheduleValues | crates/bibeam-node/src/cohort_ws.rs:640-653 | The schedule is 500, 1000, ..., 32000, then 60000 ms |
| Backoff.BackoffGrows | crates/bibeam-node/src/cohort_ws.rs:640-653 | Delays grow strictly up to attempt 8 whatever the jitter |
| Backoff.StreakBounds | crates/bibeam-node/src/cohort_ws.rs:640-653 | The total sleep of a streak lies within the jitter of its first seven delays |
| Stun.StunRoundTrip | crates/bibeam-transport/src/stun.rs:135-251 | Any IPv4 or IPv6 address and port a server encodes is what the client learns, among any attributes and trailing bytes |
| Stun.ResponseAcceptedIff | crates/bibeam-transport/src/stun.rs:135-146 | Exactly which byte strings are accepted as responses naming an address |
| Stun.ResponseRefusals | crates/bibeam-transport/src/stun.rs:135-170 | Each refusal of a header, by the bytes and the order of the checks |
| Stun.TrailingBytesIgnored | crates/bibeam-transport/src/stun.rs:139-143 | Bytes beyond the declared length never change the result, accepted or refused |
| Stun.HeaderAcceptedIff | crates/bibeam-transport/src/stun.rs:150-170 | The header is accepted exactly when it is the section 5 header of a success response for this transaction |
| Stun.ScanFindsIff | crates/bibeam-transport/src/stun.rs:175-192 | The scan finds a value exactly when the body is other padded attributes, then that attribute, then anything |
| Stun.ScanFailsIff | crates/bibeam-transport/src/stun.rs:182-184 | The scan fails on an overlong attribute exactly when, after other padded attributes, a header declares more than is left |
| Stun.ScanOfList | crates/bibeam-transport/src/stun.rs:175-192 | On any serialised list, whose length is a multiple of four, the first XOR-MAPPED-ADDRESS or missing |
| Stun.PadAligns | crates/bibeam-transport/src/stun.rs:189 | Value and padding together fill a multiple of four bytes |
| Stun.FindXorMappedAddress | crates/bibeam-transport/src/stun.rs:175-192 | The cursor loop stays in bounds and computes the recursive TLV grammar |
| Stun.AddressDecodesIff | crates/bibeam-transport/src/stun.rs:197-251 | A value decodes to an address exactly when it begins with that address's encoding, reserved byte aside |
| Stun.XorBits | crates/bibeam-transport/src/stun.rs:226 | The exclusive or has exactly the bits in which its arguments differ |
| Stun.MappedAddressMeans | crates/bibeam-transport/src/stun.rs:197-251 | Decoding turns over exactly the bits of the cookie, and for IPv6 of the transaction id, in port and octets; every refused value by length and family |
| Stun.SampleAddress | crates/bibeam-transport/src/stun.rs:197-231 | The sample value of RFC 5769 section 2.2 decodes to 192.0.2.1, port 32853 |
| Stun.ParseXorMappedAddress | crates/bibeam-transport/src/stun.rs:197-213 | The in-place decoders turn over the cookie's bits byte by byte for either family |
| Stun.ParseBindingResponse | crates/bibeam-transport/src/stun.rs:135-146 | The whole parser, error for error; an answer is the unmasked value of the first such attribute in the declared part of a success response |
| Stun.BuildBindingRequest | crates/bibeam-transport/src/stun.rs:122-130 | The array is the section 5 header of an attribute-less request |
| FlowRaces.NoOrphanedUpdate | crates/bibeam-tun/src/flow.rs:107-116 | In every interleaving of atomic operations, no add or store lands on a state after its entry was removed |
| FlowRaces.TouchHoldsLiveState | crates/bibeam-tun/src/flow.rs:107-116 | From its lookup to its store, a touch holds the very state its key's entry refers to |
| FlowRaces.EarlyUnlockOrphans | crates/bibeam-tun/src/flow.rs:108-112 | A program that lets the guard go at the lookup has, for any flow and any collection with a cutoff, a run that writes to a state after its removal |
| FlowRaces.HistoryRefinement | crates/bibeam-tun/src/flow.rs:107-174 | In every interleaving, the live flows and their counters are those of the history since each entry was created |
| FlowRaces.LiveAndRetiredBytes | crates/bibeam-tun/src/flow.rs:145-161 | Live plus removed counters show the bytes of every touch whose add is done, each once, short by 2^64 per overflow and by nothing below 2^64 bytes |
| FlowRaces.VisitRemovesExactlyIdle | crates/bibeam-tun/src/flow.rs:165-172 | From taking to letting go of a shard's lock, a visit removes exactly the shard's flows last touched before the cutoff, whatever other tasks do |
| FlowRaces.TestRemovesExactlyIdle | crates/bibeam-tun/src/flow.rs:165-172 | An entry under test leaves the map if and only if its last touch is before the cutoff as things stand when it leaves |
| FlowRaces.CollectionCount | crates/bibeam-tun/src/flow.rs:162-174 | A collection's count is the number of flows it removed |
| FlowRaces.ShardsInTurn | crates/bibeam-tun/src/flow.rs:162-174 | A collection takes the shards in turn from the first, leaving none out |
| FlowRaces.StepKeepsSafe | crates/bibeam-tun/src/flow.rs:107-174 | Every atomic operation of any task keeps what the shard locks protect |
| FlowRaces.TouchAlone | crates/bibeam-tun/src/flow.rs:107-116 | With its shard free, the five operations of a touch amount to the one-step touch of the class |
| FlowTable.CutoffMeansIdle | crates/bibeam-tun/src/flow.rs:163-167 | The saturating cutoff says what the idle window promises |
| FlowTable.Table.TouchOut | crates/bibeam-tun/src/flow.rs:107-116 | Left alone, counts on the live state or a fresh one, and writes no state that had left the map |
| FlowTable.Table.TouchIn | crates/bibeam-tun/src/flow.rs:121-125 | The same for the other side |
| FlowTable.Table.Get | crates/bibeam-tun/src/flow.rs:129-131 | The state in the map itself, created by nobody |
| FlowTable.Table.CollectShard | crates/bibeam-tun/src/flow.rs:165-172 | One shard's idle flows leave the map and are counted; surviving states are untouched |
| FlowTable.Table.Gc | crates/bibeam-tun/src/flow.rs:162-174 | Undisturbed, drops exactly the flows not seen since the cutoff |
| FlowTable.ReversedTwice | crates/bibeam-tun/src/flow.rs:60-68 | Reversal is an involution, fixing only keys with one end |
| Failover.CoordinatorPool.TryEach | crates/bibeam-discovery/src/failover.rs:122-157 | Tries candidates in rotation order past failures that may pass, stops exactly at the first success or other failure, otherwise returns the last answer |
| Failover.StopsWhereAnswersSay | crates/bibeam-discovery/src/failover.rs:137-151 | A call moves on exactly past answers that failed in a way that may pass, by the kinds of error |
| Failover.CandidatesRotate | crates/bibeam-discovery/src/failover.rs:130-135 | One call's candidates are every coordinator once, in rotation order |
| Failover.FirstChoiceFairness | crates/bibeam-discovery/src/failover.rs:130-131 | Over any m interleaved calls before the cursor wraps, each coordinator is first choice floor(m/n) or ceil(m/n) times |
| Failover.AlwaysFairIff | crates/bibeam-discovery/src/failover.rs:130-131 | In every run, across any number of wraps and from any cursor, first choices are spread floor(m/n) or ceil(m/n), if and only if n divides 2^64 |
| Failover.RotationSurvivesWrapIff | crates/bibeam-discovery/src/failover.rs:131 | The step across the wrap goes on to the next coordinator exactly when n divides 2^64 |
| Failover.NewPool | crates/bibeam-discovery/src/failover.rs:74-86 | An empty pool is refused with a non-retriable error |
| Discovery.RetriableIsTransient | crates/bibeam-discovery/src/error.rs:74-106 | Retriable are exactly timed out, unconnected or unsent transports, status 500 and above, and socket and TLS failures |
| Bootstrap.SessionBootstrap.Bootstrap | crates/bibeam-discovery/src/bootstrap.rs:174-261 | The wire trace and result for every world: registration goes on exactly past failures that may pass; any match request is the last, goes to the coordinator registered with just before and carries its token; the result is that of the last request |
| Bootstrap.MatchAffinity | crates/bibeam-discovery/src/bootstrap.rs:218-225 | A match request is sent at most once, last, to the coordinator whose answer gave the token, verified for this peer |
| Bootstrap.BootstrapSucceedsIff | crates/bibeam-discovery/src/bootstrap.rs:199-260 | A session is returned exactly when token and match are both good at one and the same coordinator |
| TxtRecord.ReassemblyIsIdentity | crates/bibeam-discovery/src/pkarr_fallback.rs:206-216 | For every chunking of every payload, joining what the library split gives the payload back |
| TxtRecord.ReassembleTxtBytes | crates/bibeam-discovery/src/pkarr_fallback.rs:206-216 | The loop joins every pair in order |
| TxtRecord.ExtractPeerRecord | crates/bibeam-discovery/src/pkarr_fallback.rs:158-171 | Returns the first record whose joined payload decodes, else the decoder's last refusal |
| TxtRecord.LastComplaintMeans | crates/bibeam-discovery/src/pkarr_fallback.rs:158-171 | The error is that of the last record the decoder refused, or the one for none |
| TxtRecord.TryDecodeTxt | crates/bibeam-discovery/src/pkarr_fallback.rs:184-195 | A peer record, nothing for an empty TXT, or the decoder's complaint |
| TxtRecord.PublishedRecordIsUsable | crates/bibeam-discovery/src/pkarr_fallback.rs:158-171 | The scan of a packet returns a published record, however cut into strings, after any records that do not decode and before any |
| TxtRecord.ChunkedRecordIsUsable | crates/bibeam-discovery/src/pkarr_fallback.rs:46-50 | The same for a payload cut into full 255-byte strings, whatever its '=' signs |

## Left out

- WireGuard, Ed25519, PASETO, base64 and postcard: functions with the stated laws, or answers the environment gives; the cipher engine keeps no state between calls.
- The coordinator's path builder: not part of this model; leases that disagree with a well-formed plan are excluded by `Issued`.
- The exit's own receive loop: frames are followed up to the exit's socket and opened there by the session functions.
- IPv6 flow labels and scope ids in socket addresses: two addresses are equal here when address and port are.
- Address translation: a forwarder sends from the address its neighbours' rows name.
- The 30-second sweep cadence and the receive buffer length: sweeps may come at any moment and datagrams have any length.
- How the DNS library splits a character string: taken from the comment at `crates/bibeam-discovery/src/pkarr_fallback.rs:199-205`.
- The cohort snapshot's region map and timestamps: copied through unread by the bootstrap.
- Metrics export, logging and error texts: counters are plain fields, and only the error texts the code compares on are kept.
- Memory orderings and task scheduling: each atomic operation is one step, and a `select!` takes any ready arm, in the written order where it is `biased`.
- Rotation.CapNoticedWithinOnePoll: assumes a waiting task is woken when a timer it sleeps on is due, as tokio's interval promises.
- FlowTable.Table.TouchOut: is a touch no other task interrupts, like its twin `TouchIn`; `FlowRaces` interleaves their operations.
- FlowTable.Table.Gc: is stated for a collection no touch interrupts; `FlowRaces` has the interrupted ones.
- Shards beyond the last: a collection of `FlowRaces` may go on to visit them, and finds them empty.
- Rate limiters, the WireGuard socket pump, QUIC, TUN, SOCKS5, DNS, registration, exit choice and configuration: plumbing and short branches.
