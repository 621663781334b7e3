# netflector, modelled and verified

netflector is a single-threaded packet reflector: it captures UDP datagrams on one interface and
sends them out on another. This project models the parts of it that are hard to get right, in
Dafny, and proves what they are for. `dafny verify dfyconfig.toml` checks the whole project.

The model is in nine groups of modules, each following its source files; `Primitives` and
`Wrappers` hold what they share.

| modules | source | what is proved |
|---|---|---|
| `LinearMaps`, `Fragments`, `Slots`, `Reassembly`, `ReassemblyRuns`, `Reassemblers` | reassembly.rs, linear_map.rs | every datagram handed out is exactly its fragments, over every run, although buffers are reused without being cleared; any cut of a datagram in any order is reassembled; what is given up is not collected again; bounds and conservation |
| `Datagrams`, `Fragmentation` | frame.rs, datagram.rs | splitting a datagram into frames and reassembling it is the identity |
| `Clocks`, `Kernels`, `Multicast`, `Ip`, `Addresses`, `Interfaces`, `InterfaceTables`, `TableRuns`, `Lifecycles`, `RecoveryRuns` | interface_table.rs, multicast.rs, lifecycle.rs, interface.rs | memberships are real against a kernel that destroys and recreates interfaces before any system call; recovery within a minute once it stops; timers and retries |
| `Egresses`, `DispatchRuns` | egress.rs, dispatch.rs | each distinct datagram once per packet and egress, over every run of passes, joins, drains and sends; what becomes of each datagram and copy |
| `Conflicts`, `ConflictChecks`, `Configs` | conflict.rs, config.rs | the symbolic verdict matches a meaning in datagrams; validation refuses exactly the raw entries that break a rule, for the first they break; the IPv4 fallback keeps what was accepted |
| `PacketFilters`, `Classifiers` | filter.rs, af_packet.rs | each classic-BPF program accepts exactly the frames it should; prologues relocate |
| `Calendar` | logging.rs | the civil-from-days arithmetic is the Gregorian calendar |
| `Outcomes` | counters.rs, dispatch.rs | what the fold of the handlers' outcomes is, and exactly when it depends on their order |
| `EnvConfigs`, `BpfBatches` | env.rs, raw.rs, bpf.rs | each field is what its variable says; parsing does not depend on the order of variables; the walk of a batch gives back its packets |

How the model is built:

- Code that updates state is modelled as classes and methods with loops (`Reassembler`,
  `Collecting`, `LinearMap`, `InterfaceTable`, `InterfaceLifecycle`, `Egress`, `Config`,
  `Capture`), each method proved against a function or relation of the state before it. Laws over
  whole runs are proved of those functions.
- The kernel is a class whose state may change arbitrarily before each system call, constrained
  only in that an interface generation is never reused (`Kernels.Evolves`), unless it is said to be
  quiet, when nothing interferes, every call that can succeed does and addresses are read as they
  are. Clocks, addresses read, errnos and send results are otherwise parameters or
  non-deterministic choices.
- Integers are unbounded; the places where the source's width matters are written out
  (saturating attempt counters, the 32-bit identification, `FitsSixtyFourBits`).

Three general statements do not hold of the code, and each is given the condition under which it
does. The first is no fault of the daemon, which meets its condition wherever it probes:

- The attachment probe vouches for joined groups exactly if the interface's first capture is not
  taken out for its drain and no group was wanted before it was opened
  (`Interfaces.ProbeSufficesExactly`); otherwise `TableRuns` reaches a state in which it is fooled,
  for every set of captures. The daemon opens one capture for each name, before any group is
  wanted (src/lib.rs:205-219), and neither probes nor steps while one is out (src/dispatch.rs:457,
  src/dispatch/interface_table.rs:622).
- The fold of outcomes, which its comment calls order-independent, is so exactly when the protocol
  types agree or one type alone is at the highest disposition (`Outcomes.OrderIndependentExactly`).
- Prepending the outgoing-frame prologue leaves the packet type in the accumulator, so it is
  transparent exactly for programs that do not touch what the accumulator held
  (`PacketFilters.OutgoingPrologueExactly`); `PacketFilters.OutgoingPrologue` says what any program
  then returns. The VLAN prologue, alone or after it, is transparent for every program.

## Model

| member | source | states |
|---|---|---|
| `LinearMaps.StandsForSome` | src/linear_map.rs:5-12 | any list of entries with distinct keys stands for one finite map of the same size |
| `LinearMaps.PutIsMapUpdate` | src/linear_map.rs:36-42 | inserting into the list is updating the map it stands for |
| `LinearMaps.DeleteIsMapRemoval` | src/linear_map.rs:57-64 | swap-removal, which reorders the list, is removal from the map, and shrinks it by one exactly when the key was there |
| `LinearMaps.RetainIsMapRestriction` | src/linear_map.rs:66-68 | retaining is restriction of the map to the entries kept |
| `LinearMaps.LinearMap.Get` | src/linear_map.rs:14-23 | the value stored under the key, if any |
| `LinearMaps.LinearMap.Insert` | src/linear_map.rs:36-42 | the new entries, and the value replaced |
| `LinearMaps.LinearMap.Remove` | src/linear_map.rs:57-64 | the new entries after a swap-removal, and the value removed |
| `LinearMaps.LinearMap.Retain` | src/linear_map.rs:66-68 | exactly the kept entries, in order |
| `Fragments.AssembledIsTiled` | src/dispatch/reassembly.rs:153-172 | a complete list of accepted fragments tiles its datagram: each fragment's bytes at its offset, every byte covered, none twice, between 8 and 9000 bytes, under the header of a fragment at offset 0 |
| `Fragments.TilingIsUnique` | src/dispatch/reassembly.rs:153-172 | fragments tile at most one datagram |
| `Fragments.NextPieceIsAccepted` | src/dispatch/reassembly.rs:120-151 | the pieces of any cut of a datagram never contradict each other, in any order |
| `Fragments.AcceptedExactly` | src/dispatch/reassembly.rs:120-151 | a fragment with data is accepted exactly when it is whole units unless last, holds a UDP header if first, and some datagram of at most 9000 bytes is made of it and all accepted before; each refusal gives the loss that applies |
| `Fragments.IncompleteBeforeTheLast` | src/dispatch/reassembly.rs:153-161 | no proper part of a cut reads as complete |
| `Fragments.CompleteOnTheLast` | src/dispatch/reassembly.rs:153-172 | the whole cut is complete and gives the datagram cut |
| `Slots.BitmapDecidesClash` | src/dispatch/reassembly.rs:132-140 | the bitmap of 8-byte units and the known length refuse a fragment exactly when its byte range contradicts one already accepted (section 4.5 of RFC 8200) |
| `Slots.MarkingMirrors` | src/dispatch/reassembly.rs:141-150 | after a fragment is stored the bitmap marks exactly the units some accepted fragment touches, and the buffer holds its bytes there |
| `Slots.AllMarkedIffCovered` | src/dispatch/reassembly.rs:153-161 | all units marked is all bytes covered, also for a last fragment that ends inside a unit |
| `Slots.BufferHoldsTheDatagram` | src/dispatch/reassembly.rs:163-172 | a complete slot's buffer starts with exactly the datagram: no byte an earlier datagram left shows through |
| `Slots.Collecting.constructor` | src/dispatch/reassembly.rs:110-118 | a slot over a reused buffer starts with no fragment accepted, whatever bytes the buffer still holds |
| `Slots.Collecting.Add` | src/dispatch/reassembly.rs:120-151 | accepts or refuses as the byte-range rule does, with the same loss; a refused fragment leaves the bytes alone |
| `Slots.Collecting.IsComplete` | src/dispatch/reassembly.rs:153-161 | exactly when the accepted fragments are complete |
| `Slots.Collecting.Finish` | src/dispatch/reassembly.rs:163-172 | the datagram the accepted fragments tile, if complete |
| `Reassembly.OfferInv` | src/dispatch/reassembly.rs:197-235 | every offer keeps the slot and discard bounds, distinct and disjoint keys, agreement of each slot's fragments, and both conservation laws |
| `Reassembly.ExpireInv` | src/dispatch/reassembly.rs:280-294 | so does every expiry |
| `ReassemblyRuns.RunBounds` | src/dispatch/reassembly.rs:197-294 | over every run: at most 16 slots and 64 discards, disjoint; every slot opened was returned as a datagram, is a loss drained or still queued, was released, or is open; every buffer is spare, collecting or on loan |
| `ReassemblyRuns.RunRecords` | src/dispatch/reassembly.rs:197-294 | every count of a run is that of its events, and every loss counted was queued |
| `ReassemblyRuns.NothingStaleSurvives` | src/dispatch/reassembly.rs:280-294 | after an offer no slot and no discard is older than two seconds |
| `ReassemblyRuns.ExpireOther` | src/dispatch/reassembly.rs:280-294 | expiry takes exactly the slots and discards two seconds old, and queues the loss and discards the key of each slot it takes |
| `ReassemblyRuns.AtMostSlotsBuffers` | src/dispatch/reassembly.rs:174-245 | if each datagram is recycled before the next offer, at most 16 buffers are ever allocated |
| `ReassemblyRuns.ForeignStep` | src/dispatch/reassembly.rs:197-294 | an event of another key changes a slot only by expiry or by evicting it as the oldest of a full table, and exactly then; a slot closed so is queued as that loss and its key discarded as of now; a discard lasts until it is two seconds old or makes room as the oldest of 64 |
| `ReassemblyRuns.OwnStep` | src/dispatch/reassembly.rs:197-235 | what an offer does to its own key, in every case: a key discarded changes nothing; an unwanted or refused fragment closes the slot and discards the key as of now, a refusal queued with its loss; else the slot holds one fragment more, or the datagram is returned |
| `ReassemblyRuns.GivenUpIsNotCollectedAgain` | src/dispatch/reassembly.rs:257-294 | over every run, once a datagram is given up, as malformed, too large, inconsistent, unwanted, expired or evicted, its fragments open no slot and return nothing for two seconds, unless its key makes room as the oldest of 64 (section 4.5 of RFC 8200) |
| `ReassemblyRuns.ForgottenAfterExpiry` | src/dispatch/reassembly.rs:280-283 | an offer for a discarded key is dropped until two seconds have passed, and opens a slot from then on |
| `ReassemblyRuns.SlotIsItsHistory` | src/dispatch/reassembly.rs:197-235 | after any run a slot holds exactly the fragments offered for its key since some moment |
| `ReassemblyRuns.CompletedIsItsFragments` | src/dispatch/reassembly.rs:109-172 | over every run, a datagram returned is tiled by exactly the fragments offered for its key since some moment, the last of them just now, all of one source, destination and identification |
| `ReassemblyRuns.KeptTogetherExactly` | src/dispatch/reassembly.rs:205-210 | fragments are kept together exactly when they came in on one interface and agree in source, destination and identification |
| `ReassemblyRuns.AnyOrderCompletes` | src/dispatch/reassembly.rs:120-294 | any arrangement of any cut of a datagram, interleaved with any other traffic, returns nothing until its last piece and then the datagram, unless unwanted, evicted or expired |
| `Reassemblers.Reassembler.constructor` | src/dispatch/reassembly.rs:185-192 | starts empty |
| `Reassemblers.Reassembler.Offer` | src/dispatch/reassembly.rs:197-235 | the heap of slots and shared buffers steps exactly as the abstract machine, and the buffer handed out holds the machine's datagram |
| `Reassemblers.Reassembler.Recycle` | src/dispatch/reassembly.rs:237-239 | the buffer on loan becomes spare; nothing else changes |
| `Reassemblers.Reassembler.DrainLost` | src/dispatch/reassembly.rs:241-243 | the losses queued so far, leaving none |
| `Reassemblers.Reassembler.Room` | src/dispatch/reassembly.rs:245-256 | a full table gives up the slot that started first, the earliest in the list of those |
| `Reassemblers.Reassembler.GiveUpOn` | src/dispatch/reassembly.rs:258-265 | the slot's buffer becomes spare, the loss is queued and the key discarded |
| `Reassemblers.Reassembler.Shelve` | src/dispatch/reassembly.rs:267-277 | a full discard list drops its oldest key for the new one |
| `Reassemblers.Reassembler.ExpireOld` | src/dispatch/reassembly.rs:280-294 | the loop gives up every overdue slot and drops every overdue discard |
| `Datagrams.FramesFit` | src/net/frame.rs:266-296 | no frame of a plan within the MTU exceeds the frame buffer, so writing one never fails |
| `Datagrams.BuiltExactly` | src/dispatch/datagram.rs:57-119 | a datagram is built exactly when it has a source address of its family, a MAC on Ethernet, fits the length field and has room in the MTU, and then in the largest fragments that fit; else the first of these it lacks is the error |
| `Datagrams.OwnSource` | src/dispatch/datagram.rs:57-119 | the sender is the one given, or the egress's own address of the destination's family: beyond the link the routable one, if there is one |
| `Datagrams.FramesKeepToTheMtu` | src/net/frame.rs:228-262 | no frame's IP packet exceeds the MTU, and a datagram goes out in one frame exactly when it fits whole |
| `Datagrams.CopiesBuildTogether` | src/dispatch/datagram.rs:57-119 | on coherent addresses, copies to two peers of one family can both be built or neither, alike |
| `Datagrams.IncoherentCopiesDiffer` | src/dispatch/datagram.rs:57-119 | without coherence they need not: concrete addresses and peers |
| `Fragmentation.PlacementRoundTrip` | src/net/frame.rs:83-161 | the 16-bit field of either IP version has its units and flag where the wire has them, and both come back |
| `Fragmentation.NeverASingleFragment` | src/net/frame.rs:228-257 | a datagram past the MTU takes at least two fragments, so none reads as the only one |
| `Fragmentation.ArrivedIsACut` | src/net/frame.rs:266-296 | the frames of one datagram, read back in any order, are a cut of it |
| `Fragmentation.SplitThenJoined` | src/net/frame.rs:228-296 | frames sent for a datagram of at most 9000 bytes, arriving in any order among other traffic, are reassembled to exactly that datagram on the last |
| `Clocks.RetryDelayDoubles` | src/dispatch.rs:797-803 | the wait after k failures is min(30, 2^k) seconds, for every k |
| `Multicast.JoinOne` | src/dispatch/multicast.rs:186-213 | the outcome is what the kernel's answer means; a group reported joined is held at the index; whatever is newly held is of the interface there now or one created since; where the errno leaves it open, the name still pointed to the index; on a quiet machine it is joined unless the interface lacks its family, and gone or held from before if the index is dead |
| `Multicast.ClassifiedExactly` | src/dispatch/multicast.rs:375-418 | for each outcome all that leads to it: when the interface is gone, which wait each system's errno gives, when a failure is at the membership limit |
| `Multicast.KthJoinFailureWaits` | src/dispatch/multicast.rs:136-175 | the k-th failing join in a row is tried again after min(30, 2^k) seconds; any other outcome ends the row |
| `Multicast.Rebase` | src/dispatch/multicast.rs:345-350 | no socket, every group pending, no group lost |
| `Multicast.Add` | src/dispatch/multicast.rs:262-283 | the group is wanted once, nothing else changes |
| `Multicast.FirstToldExactly` | src/dispatch/multicast.rs:304-317 | for each error of a first join all that leads to it |
| `Multicast.Converge` | src/dispatch/multicast.rs:322-339 | leaves joined and not-yet-due groups alone and makes of every other what its answer means, or stops at the one that finds the index dead; keeps joined groups held and every group wanted; on a quiet machine every group attempted is joined, or the interface lacks its family |
| `Multicast.NextRetry` | src/dispatch/multicast.rs:361-370 | the earliest retry of a failed group |
| `Interfaces.JoinedIsReal` | src/dispatch/interface_table.rs:483-627 | in every state the invariant allows, with the probe holding, the interface's first capture not out and no group wanted before it was opened, each group marked joined is a membership of the interface now at the index, although it was recreated there |
| `Interfaces.ProbeSufficesExactly` | src/dispatch/interface_table.rs:357-370 | the probe is never fooled about an interface if and only if its first capture is not taken out and no group was wanted before it was opened |
| `Interfaces.DrainBlindsTheProbe` | src/dispatch/interface_table.rs:357-370 | for any captures of which an interface's first is out, a state in which the probe holds and a joined group is no membership |
| `TableRuns.DrainFoolsTheProbe` | src/dispatch/interface_table.rs:160-370 | such a state is reached, for any captures of which an interface's first is out, by adding, opening and joining through the table, one recreation at the same index, and taking captures out |
| `Interfaces.EarlyJoinBlindsTheProbe` | src/dispatch/interface_table.rs:160-191 | for any captures at all, such a state with a group wanted before the first was opened |
| `TableRuns.EarlyJoinFoolsTheProbe` | src/dispatch/interface_table.rs:160-370 | reached by joining first, one recreation at the same index, and opening the captures after it |
| `Interfaces.AbsentHoldsNothing` | src/dispatch/interface_table.rs:124-130 | an interface not present holds no socket and no address, and every wanted group is pending |
| `Interfaces.TableStays` | src/dispatch/interface_table.rs:133-137 | the invariant survives anything the kernel does |
| `InterfaceTables.InterfaceTable.Probe` | src/dispatch/interface_table.rs:483-495 | true held of every resident capture when it began, false when it ended |
| `InterfaceTables.InterfaceTable.ConvergeOn` | src/dispatch/interface_table.rs:193-200 | keeps the invariant and every wanted group; if not gone, the captures were attached and no group is pending or overdue; gone only of a present interface, and without groups only if a capture was detached |
| `InterfaceTables.InterfaceTable.ConvergeAll` | src/dispatch/interface_table.rs:206-214 | the same for every interface, whatever the others report; nothing is gone on a quiet machine where each is reachable |
| `InterfaceTables.InterfaceTable.JoinOn` | src/dispatch/interface_table.rs:160-191 | with or without a capture: the group is wanted afterwards, the others are as they were; attempted exactly if not tried before; fails exactly when it was left pending, or waits for a family it requires, with the error the answer demands |
| `InterfaceTables.InterfaceTable.JoinGroup` | src/dispatch.rs:307-318 | the same behind a capture; an unknown capture changes nothing and is no error |
| `InterfaceTables.InterfaceTable.Step` | src/dispatch/interface_table.rs:518-546 | for each answer of the lookup the one report it leads to, and the presence before and after: a failed lookup changes nothing, a name without an index parks the interface, one that points where the interface is bound keeps it unless a capture was detached, any other binds it unless it is backing off there; keeps the invariant and every wanted group; each capture counts the binds of its interface |
| `InterfaceTables.InterfaceTable.Bind` | src/dispatch/interface_table.rs:551-611 | all or nothing: present at the index with every capture bound there and groups attempted afresh, or unbound with the next delay and nothing held; on a quiet machine the former, with the addresses the machine has |
| `InterfaceTables.InterfaceTable.RebindCaptures` | src/dispatch/interface_table.rs:615-627 | on success every capture of the interface is bound at the index; others are untouched |
| `InterfaceTables.InterfaceTable.Park` | src/dispatch/interface_table.rs:526-535 | a present interface is released, an unbound one, which holds nothing, only marked |
| `InterfaceTables.InterfaceTable.WakeUnbound` | src/dispatch/interface_table.rs:429-442 | exactly the interfaces that failed at the index become due now |
| `InterfaceTables.InterfaceTable.NextBindRetry` | src/dispatch/interface_table.rs:504-513 | the earliest retry of an unbound interface |
| `InterfaceTables.InterfaceTable.Refresh` | src/dispatch/interface_table.rs:456-465 | only a present interface's addresses and MTU change, and only if they were read; on a quiet machine they are those the machine has |
| `InterfaceTables.InterfaceTable.FindOrAdd` | src/dispatch/interface_table.rs:229-256 | a known name is found and nothing changes; else one present interface is added, or none |
| `InterfaceTables.InterfaceTable.OpenCapture` | src/dispatch/interface_table.rs:278-297 | one more capture, bound at the interface's index, with nothing sent on it; the invariant holds |
| `InterfaceTables.InterfaceTable.SetResident` | src/dispatch/interface_table.rs:357-370 | taking a capture out and putting it back keeps the invariant |
| `InterfaceTables.InterfaceTable.RecordSent` | src/dispatch/interface_table.rs:264-272 | the digest joins those of the packet, a new packet's list starting empty |
| `Addresses.V6Pick.Consider` | src/interface.rs:371-386 | after each address the picks are still the first of the highest rank seen, over all and over routable ones |
| `Addresses.PickedByClass` | src/interface.rs:333-386 | the pick is a link-local address if one was found and may be picked, else a unique-local one, else a global one; of several the first |
| `Addresses.Scan` | src/interface.rs:344-386 | a whole scan picks those two, and they are coherent |
| `Addresses.BestIsCoherent` | src/interface.rs:54-59 | a routable source implies a source |
| `Addresses.ScopesAgree` | src/interface.rs:54-59 | coherence is exactly that a source exists for both destination scopes or for neither |
| `Ip.DirectedBroadcastIsNoGroup` | src/interface.rs:44-50 | the directed broadcast of a non-multicast address is never multicast |
| `Ip.DirectedBroadcastIsHighest` | src/interface.rs:44-50 | it is the highest address of the subnet |
| `Lifecycles.NextPass` | src/dispatch/lifecycle.rs:352-362 | strictly later: in 30 s, or 1 s if soon, or at a bind retry still ahead that comes first |
| `Lifecycles.InterfaceLifecycle.Reconcile` | src/dispatch/lifecycle.rs:231-255 | keeps the table's invariant, the captures and what was sent on them; each step reports what its lookup demands; next pass 1 s away while anything is parked or unsettled, before any failed bind's retry unless a lookup failed, and else 30 s away; reports exactly the interfaces that entered or left Present or were bound once more; on a quiet machine every interface whose name resolves recovers, unless backing off |
| `Lifecycles.RecoveredIsReal` | src/dispatch/lifecycle.rs:231-255 | one pass on a quiet machine leaves such an interface where its name points, and each group a membership of that very interface, of a family it lacks, or failed before and not yet due |
| `RecoveryRuns.OnePass` | src/dispatch/lifecycle.rs:231-255 | a pass at the time the last one set leaves each such interface done, or due a retry no earlier than the next pass |
| `RecoveryRuns.UnresolvedIsWithdrawn` | src/dispatch/interface_table.rs:526-535 | one pass on a quiet machine leaves every interface whose name resolves to nothing parked, with no address, no socket and every group pending |
| `RecoveryRuns.PassesUntil` | src/dispatch/lifecycle.rs:352-362 | passes at the times they set, until everything left to retry is due, leave every interface whose name resolves bound there, attached, with every group joined that it has the family for, and every other withdrawn |
| `RecoveryRuns.RecoversWithinAMinute` | src/dispatch/lifecycle.rs:231-362 | on a quiet machine that takes at most a minute |
| `RecoveryRuns.DoneIsReal` | src/dispatch/interface_table.rs:483-627 | the groups then joined are memberships of the interface the name points to |
| `Lifecycles.MovedExactly` | src/dispatch/lifecycle.rs:334-350 | a step moved the interface exactly when the interface entered or left Present or its bind count grew |
| `Lifecycles.RebuiltExactly` | src/dispatch/lifecycle.rs:231-255 | a pass reports an interface exactly when it entered or left Present or its bind count grew, as removed exactly when it is not present now |
| `Lifecycles.FailuresAreCounted` | src/dispatch/interface_table.rs:570-599 | over any run of steps and wake-ups at one index, the attempts stored are the failures so far, saturating |
| `Lifecycles.KthFailureWaits` | src/dispatch/interface_table.rs:504-599 | the k-th consecutive failure at one index waits min(30, 2^k) seconds |
| `Egresses.StillRemembers` | src/dispatch/interface_table.rs:258-297 | whatever leaves the captures' records alone, new captures included, keeps the memory of what was sent exact |
| `Egresses.Egress.BeginPacket` | src/dispatch/egress.rs:55-58 | nothing counts as sent for a new packet |
| `Egresses.Egress.Transmit` | src/dispatch/egress.rs:202-219 | one more attempt at all the planned frames, whole exactly on success; the table records it exactly if whole and routed, so no datagram goes out whole twice on one egress for one packet |
| `Egresses.PlannedExactly` | src/dispatch/egress.rs:163-199 | nothing is planned exactly for an egress unknown or taken out; NotConnected is for one whose interface is not bound; else frames if what the interface has suffices to build the datagram, and the first lack if not |
| `Egresses.Egress.SendUdp` | src/dispatch/egress.rs:66-81 | suppressed if and only if an equal datagram already went out whole there for the packet being routed; otherwise succeeds without sending exactly when the egress is out, fails for an unbound interface or an unbuildable datagram with that error, and else attempts all its frames; an identification is used exactly when planning gets as far as building |
| `Egresses.Egress.SendUdpToPeers` | src/dispatch/egress.rs:106-149 | fails only if none of its own copies went out whole, and, if digests are told apart, only if no peer of the family has a copy from before; the error is the interface's, the datagram's or of the sending; succeeds only if one has, or there is none, or the egress is out; when it can send, every peer's copy is attempted once unless it went out before |
| `Egresses.DigestsExactly` | src/dispatch/egress.rs:106-125 | the copies are one for each peer of the destination's family, in order, to its address at the destination's port, in a broadcast frame |
| `Egresses.CopiesPlanTogether` | src/dispatch/egress.rs:163-199 | planning fails for all peers of one family or for none |
| `DispatchRuns.Run` | src/dispatch.rs:586-618 | over any interleaving of passes, joins, drains, new captures, refreshes, other changes of the machine and sends, the table's invariant and the egress's memory stand and no datagram goes out whole twice on one egress for one packet |
| `DispatchRuns.RunFromStart` | src/dispatch.rs:225-247 | the same from the daemon's start, on any machine, and the probe is never fooled about an interface whose first capture is in |
| `DispatchRuns.RecoversAfterAnyRun` | src/dispatch.rs:724-758 | after any run, once the machine is quiet and the drains are over, within a minute every group is a membership of the interface its name points to, unless that lacks the family; interfaces whose names resolve to nothing are parked and hold nothing |
| `Conflicts.OverlapsExactly` | src/config/conflict.rs:49-87 | two flows overlap exactly when some datagram belongs to both |
| `Conflicts.FlowsExactly` | src/config/conflict.rs:113-168 | the list built for an entry has exactly the flows its settings describe |
| `Conflicts.RegisteredServices` | src/config/conflict.rs:113-168 | mDNS, SSDP and WS-Discovery have exactly the flows to their registered ports and groups, on both legs, for the families in use |
| `Conflicts.DirectedFlows` | src/config/conflict.rs:89-168 | Wake-on-LAN and the relay have exactly their flows the entry's way, and both ways if it is bidirectional |
| `Conflicts.BuildFlows` | src/config/conflict.rs:113-168 | the loops over legs, ports and groups build that list |
| `Conflicts.BothLegsMakeTheEntry` | src/config.rs:92-102 | a bidirectional entry's flows are those of its one-way leg and of its reversed one |
| `ConflictChecks.SharedProtocolExactly` | src/config/conflict.rs:183-206 | a shared protocol is found exactly when both entries reflect one service for one leg, IP version and device |
| `ConflictChecks.RelayOverlapExactly` | src/config/conflict.rs:208-214 | a relay overlap is found exactly when a relay flow overlaps a flow of the other entry |
| `ConflictChecks.ConflictExactly` | src/config/conflict.rs:175-181 | two entries conflict exactly in those cases, either way round |
| `ConflictChecks.ConflictIsSymmetric` | src/config/conflict.rs:175-181 | whether two entries conflict does not depend on which is first |
| `ConflictChecks.ReportedLegIsShared` | src/config/conflict.rs:175-214 | the leg reported is one both entries relay on |
| `ConflictChecks.ReportedIsCarriedTwice` | src/config/conflict.rs:175-214 | the protocol and the leg reported are those of a packet both entries carry |
| `ConflictChecks.FirstSharedIsNamed` | src/config/conflict.rs:183-206 | of several shared protocols the first of Wake-on-LAN, mDNS, SSDP and WS-Discovery is reported, on the entry's own way if the other shares it |
| `ConflictChecks.CheckConflicts` | src/config/conflict.rs:240-261 | accepts exactly when names differ and entries are pairwise compatible; a refusal is for the first pair that is not |
| `ConflictChecks.OrderDoesNotMatter` | src/config/conflict.rs:240-261 | acceptance does not depend on the order of entries |
| `ConflictChecks.OneReflectorPerService` | src/config/conflict.rs:183-206 | for each leg, IP version and device, at most one accepted entry reflects a service |
| `ConflictChecks.RelayFlowsOnce` | src/config/conflict.rs:89-168 | an entry lists each of its relay flows once |
| `ConflictChecks.NoDoubleRelay` | src/config/conflict.rs:89-225 | a datagram a relay flow admits is admitted by no other flow of any entry, its own included |
| `Configs.RulesExactly` | src/config.rs:126-229 | an entry meets every rule exactly when validating its raw form gives it back |
| `Configs.ValidatedMeetsRules` | src/config.rs:126-229 | whatever validation lets through meets the rules |
| `Configs.ValidatedExactly` | src/config.rs:126-229 | for every raw entry: accepted exactly when its own values meet all fourteen rules, and refused for the first one broken, with the entry and the peer, group or port that breaks it |
| `Configs.ValidatedAsGiven` | src/config.rs:126-229 | an accepted entry has each setting as given, its name from the key and ports 7 and 9 where none were given |
| `Configs.ValidatedNeverRelaysTwice` | src/config.rs:123-229 | from raw values on: entries that validate and pass the conflict check never relay a datagram twice |
| `Configs.FallBackFailsExactly` | src/config.rs:264-293 | the fallback fails exactly for a default-family entry with only IPv6 groups and no broadcast, or a peer list only of IPv6 |
| `Configs.FallBackNamesTheFirst` | src/config.rs:264-293 | and names the relay before the peers, the source's before the target's |
| `Configs.FallBackEdits` | src/config.rs:264-293 | only default-family entries change, and of those only the family and the IPv6 part of peers and groups |
| `Configs.V4PartAppends` | src/config.rs:332-335 | what is kept of a list is each IPv4 address of it, in order |
| `Configs.FallBackKeepsIpv4` | src/config.rs:264-293 | a default-family entry then carries exactly the IPv4 datagrams it carried before |
| `Configs.FallBackKeepsRules` | src/config.rs:126-293 | it still meets every per-entry rule |
| `Configs.FallBackKeepsCompatible` | src/config.rs:264-293 | compatible entries stay compatible |
| `Configs.FallBackKeepsAccepted` | src/config.rs:264-293 | an accepted configuration stays accepted as a whole |
| `Configs.FallBackIsIdempotent` | src/config.rs:264-293 | a second fallback changes nothing |
| `Configs.Config.FallBackToIpv4` | src/config.rs:264-293 | succeeds exactly when every entry can fall back, rewriting default-family entries and no others; on failure the entries before the failing one are rewritten |
| `PacketFilters.RunWith` | src/capture/filter.rs:220-263 | the interpreter's loop computes the program's meaning and ends |
| `PacketFilters.Relocates` | src/capture/filter.rs:220-263 | a program prepended by any other runs from its own start as it would alone: relative jumps relocate, for all programs and frames |
| `PacketFilters.OutgoingPrologue` | src/capture/filter.rs:72-84 | drops outgoing frames and otherwise runs the program with the packet type in the accumulator |
| `PacketFilters.OutgoingPrologueIsTransparent` | src/capture/af_packet.rs:258-264 | for a program that never touches what the accumulator held, otherwise exactly what the program returns |
| `PacketFilters.OutgoingPrologueExactly` | src/capture/filter.rs:72-84 | and only then is it so for every program that does the same until it touches |
| `PacketFilters.OutgoingPrologueShows` | src/capture/filter.rs:72-84 | for any frame, a program the prologue changes |
| `PacketFilters.VlanPrologue` | src/capture/filter.rs:102-122 | drops frames tagged with a non-zero VLAN ID, otherwise returns exactly what the program does, for all programs |
| `PacketFilters.BothPrologues` | src/capture/af_packet.rs:247-264 | both prologues drop outgoing and tagged frames, otherwise return exactly what the program does, for all programs |
| `Classifiers.EthernetExactly` | src/capture/filter.rs:41-60 | accepts exactly the in-bounds UDP frames, untagged or tagged with VLAN ID 0 (section 9.6 of IEEE 802.1Q) |
| `Classifiers.RawIpExactly` | src/capture/filter.rs:142-156 | accepts exactly the in-bounds IPv4, IPv6 and IPv6-fragment UDP packets |
| `Classifiers.DltNullExactly` | src/capture/filter.rs:185-198 | the same behind a four-byte family |
| `Classifiers.SameVerdictOnEthernet` | src/capture/filter.rs:41-156 | a packet gets one verdict bare and behind an agreeing Ethernet header |
| `Classifiers.SameVerdictOnDltNull` | src/capture/filter.rs:142-198 | and behind an agreeing family in either byte order |
| `Classifiers.InstalledExactly` | src/capture/af_packet.rs:233-264 | what each program the capture installs accepts, prologues included |
| `Calendar.FromUnixIsTheDate` | src/logging.rs:131-156 | for every number of seconds a valid Gregorian date (section 3.2.1 of ISO 8601:2004) counting secs / 86400 days from 1970-01-01, with the time of day |
| `Calendar.MarchDate` | src/logging.rs:136-144 | the day as a year starting in March and a day of it, in range, no subtraction underflowing |
| `Calendar.YearOfEra` | src/logging.rs:136-144 | the divisions by 1460, 36524 and 146096 give exactly the year of the 400-year era |
| `Calendar.OnlyThatDate` | src/logging.rs:131-156 | no other valid date and time has that count |
| `Calendar.LaterIsLater` | src/logging.rs:131-156 | later seconds give a later date and time |
| `Calendar.FitsSixtyFourBits` | src/logging.rs:131-156 | nothing overflows 64 bits |
| `Calendar.DaysBeforeYearClosed` | src/logging.rs:131-156 | the count of days before a year, defined year by year, has its closed form |
| `Outcomes.Fold` | src/dispatch.rs:586-618 | the loop over the handlers folds their outcomes |
| `Outcomes.FoldedIsTheVerdict` | src/dispatch/counters.rs:98-153 | the highest disposition, under a protocol's type if any named one and else the relay's; flagged exactly when two protocol types differ |
| `Outcomes.WorstToBest` | src/dispatch/counters.rs:61-72 | reflected wins over dropped, dropped over stalled, stalled over refused, refused over skipped, and filtered is left if all filtered |
| `Outcomes.FirstOfEquals` | src/dispatch/counters.rs:131-153 | of protocols that came to one disposition the first handler's names the packet |
| `Outcomes.OrderDoesNotMatter` | src/dispatch/counters.rs:131-153 | an unambiguous packet's verdict is the same in every order |
| `Outcomes.OrderIndependentExactly` | src/dispatch/counters.rs:131-153 | and only an unambiguous one's: types agree, or one alone is at the highest disposition |
| `Outcomes.TwoProtocolsShowOrder` | src/dispatch/counters.rs:131-153 | two handlers of different protocols give two verdicts in their two orders |
| `Outcomes.FlagDoesNotDependOnOrder` | src/dispatch/counters.rs:133-140 | a mismatch is flagged in every order or in none |
| `EnvConfigs.ParseEnv` | src/config/env.rs:114-188 | accepts exactly when each variable is good, no two set one field of one entry, and each entry has both interfaces; the entries are those the variables mention, each of the eighteen fields is what its variable says, or its default exactly when none gives it, and the last of each setting counts; a refusal is for the first variable that cannot be read with those before it, or for an interface missing |
| `EnvConfigs.EntriesRead` | src/config/env.rs:84-112 | each field of an entry made whole is the value its own variable gives, or its default |
| `EnvConfigs.SaidOnce` | src/config/env.rs:42-58 | of variables that can be read no two say two things of one field |
| `EnvConfigs.VariableSays` | src/config/env.rs:157-172 | a variable named for a tag and a parameter, in any case, gives exactly what its text reads as for that parameter; only the reserved tags are refused |
| `EnvConfigs.SettingsSay` | src/config/env.rs:120-155 | the variables without a tag give each its own setting, or are refused if they cannot be read |
| `EnvConfigs.ReadOne` | src/config/env.rs:39-82 | a variable is refused exactly when the variables so far can no longer be read, for its own error or as a repeated field |
| `EnvConfigs.OrderDoesNotMatter` | src/config/env.rs:114-188 | variables of distinct names are accepted in every order or in none, with one result |
| `EnvConfigs.RepeatedNameShowsOrder` | src/config/env.rs:139-143 | with a repeated name the order shows |
| `EnvConfigs.ParsedTagsAreEnvTags` | src/config/env.rs:157-171 | tags are non-empty, alphanumeric, lower case and not reserved |
| `EnvConfigs.MergeEnv` | src/config/raw.rs:73-92 | fails exactly when an environment tag equals a file key trimmed and folded; else both sets of entries, the environment's settings winning |
| `EnvConfigs.TrimExactly` | src/config/raw.rs:73-92 | trimming cuts off whitespace at both ends and leaves none there |
| `BpfBatches.ParseRecord` | src/capture/bpf.rs:217-247 | on any bytes a frame's range lies inside the record's bytes and within the limit, and the walk advances |
| `BpfBatches.MalformedExactly` | src/capture/bpf.rs:217-235 | a record is malformed exactly when its header or its frame runs past the bytes, or it is empty and headerless, with the error for each |
| `BpfBatches.WalkEnds` | src/capture/bpf.rs:120-156 | on any bytes the walk is finite and only its last read can be malformed |
| `BpfBatches.WalkOfBatch` | src/capture/bpf.rs:120-247 | a batch as the kernel lays it out is read as exactly its packets in order: whole ones within the limit as frames, each other as one oversized |
| `BpfBatches.Capture.NextFrame` | src/capture/bpf.rs:120-149 | the next read of the walk, refilling first if the batch is used up; a frame's range lies inside the batch and holds its bytes |
| `BpfBatches.Capture.Refill` | src/capture/bpf.rs:181-201 | the batch read, or nothing |

## Left out

- Expiry and eviction are exact, but a fragment's hop limit, addresses and MACs are carried as opaque header values; `Reassembled::packet` and the UDP parse after it are not modelled.
- Fragment offsets are multiples of 8, as the parsers compute them.
- The per-protocol reflectors, the mDNS trim, DIAL, the reactor, the arena, `would_route` and filters on registrations are not modelled.
- The interface monitor: `drain` and `recheck` in src/dispatch/lifecycle.rs, the recheck timer and `wake_all_unbound`; the table operations they call are.
- Captures attach as on Linux, by index. The BSDs' attach by name and `take_link` are not modelled; `Kernels` is otherwise the same for them.
- Log lines, labels, wait levels, the `reported` problem of a membership and the counters other than `recoveries`.
- Entries, captures and memberships are values inside the table's sequences; the model captures their updates, not Rust's borrowing.
- Egresses.Egress.SendUdpToPeers: what it says of copies sent earlier for the packet assumes that different datagrams have different digests and that addresses do not change while one packet is routed.
- PacketFilters.OutgoingPrologueExactly: speaks of all programs that agree with one up to the first instruction that touches; one of them can be unaffected by what it does after.
- A quiet machine may still lack an IP version on an interface (`Kernel.lacking`); its other waits and refusals are covered by `Multicast.JoinOne`, for any machine.
- The run modules drive the parts as the reactor does, but a pass taken at its own time stands for the reactor's deadline; the joins retried between passes only come sooner.
- Egresses.Egress.SendUdp: says what is suppressed in terms of digests, so a hash collision counts as equal.
- `send_udp_group` and `ethernet_dst` (a table of MAC prefixes), checksums and the bytes of the IP and link headers beyond a fragment's placement.
- Parsing of names, MACs, ports, lists and TOML: typed values or functions passed as parameters. Lists are non-empty and free of duplicates, as src/unique_list.rs makes them.
- EnvConfigs.ParseEnv: which missing interface is reported is left open when several are missing.
- BpfBatches.WalkOfBatch: takes 64-bit little-endian macOS and FreeBSD headers.
- Validation's interval bounds, accounts and log settings, and the CLI.
