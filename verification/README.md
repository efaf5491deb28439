# RV-P4: a verified model

RV-P4 is a 32-port switch: C firmware keeps the tables, a table update engine carries them into a match-action
pipeline in RTL, and a software model of that pipeline stands in for the hardware in the firmware's tests. This
project models those parts in Dafny and proves what they keep over all inputs and all runs. `dafny verify
dfyconfig.toml` checks everything.

## How it is laid out

Each component has a specification of its state and steps as values and functions, a class or method that changes its
fields and arrays in place as the source does and is proved equal to the specification, and lemmas about the
specification.

* **Neighbour table**: `ArpHash`, `ArpTable` (the 256-slot table, packet builder and parser), `ArpMap` (refinement to
  a finite map), `ArpRuns`, `ArpAging` (how long entries and the whole table last), `ArpSends` (what is
  transmitted, byte by byte), `ArpProtocol` (two nodes resolving each other).
* **Update engine and stage**: `MauTcam`, `MauAlu`, `MauStage` (the four sub-stage pipeline), `StageHash` (whose hash
  an action uses), `Tue` (register file, state machine, synchroniser), `TueProtocol` (one control cycle at a time),
  `TueDriver` (the polling driver over both clocks with traffic streaming through a stage), `TueTearing` (a deletion
  that tears).
* **Firmware tables and packets**: `SimHal` (the shared record array), `StageLists`, `PktModel` (the seven stages),
  `Forwarding` (routing and switching), `Acl`, `Vlan`, `VlanIngress`, `Qos`, `Csr`, `Firmware` (all of them together), `RtlTranslation`, `HardwareAcl` and
  `CosimDriver` (the same entries in the hardware, and the bench that drives them there).
* **Arithmetic**: `Checksum`, `MauHash`, `CrcDivision` (the CRC against long division), `Bits`.
* **Rings, allocator, arbiter, parser**: `PuntRing`, `PuntDevice`, `FreeList`, `RxArbiter`, `ParserEntry`, `P4Parser`,
  `CellWrites` (the parser writing frames into the packet buffer).

## Conventions

Fixed-width integers are bounded integers with their wrap-around written out; the hash functions use bit-vectors. A
512-bit key is its sixteen 32-bit words, a 32-bit port bitmap its 32 bits, and disjoint fields joined by `|` in the
source are sums. The two clock domains are a control edge followed by three or more datapath edges, an arbitrary
number each time, because the datapath clock is at least three times as fast; a bus transfer takes two control cycles.
`Chip` holds the engine and one stage with an arbitrary number: the engine broadcasts to all stages alike, so what is
proved for it holds for each of the 24.

## Where the code does not do what its comments or its documentation say

The model follows the code. Each of these is a theorem, with the exact condition where there is one.

* A stale neighbour is never deleted by the branch written for it (`ArpAging.StaleIsNeverDeleted`); 320 seconds can be
  exceeded by two when the first visit finds the 32-bit clock at zero or just before (`ArpAging.LeavesWithin320Iff`);
  probing a neighbour can give it a second slot and make it unresolved (`ArpMap.ProbeCanDuplicate`,
  `ArpMap.MarkKeepsUniqueIff`, `ArpMap.ProbeKeepsLookupIff`).
* Table updates are not atomic in general: deleting a live entry overwrites its action row with stale registers while
  header vectors are still on their way to it (`TueTearing.DeleteCanTear`, `MauStage.ActionIsAtomicIff`). Insertion at
  a free index is.
* In back-to-back traffic a stored hash is the one of the next header vector (`StageHash.HashIsOwnIff`).
* Actions installed through the engine cannot name a destination past byte 5
  (`TueProtocol.InstalledActionsWriteFirstBytes`).
* The memory-mapped driver writes masks with the polarity opposite to the one the TCAM reads: two degenerate kinds of
  entry apart, what it installs matches other packets (`RtlTranslation.DriverPreservesMatchIff`); the co-simulation
  bench inverts them.
* An ingress frame's own tag is never read, in trunk mode neither (`VlanIngress.TagIsNeverRead`); `vlan_port_add`
  reports success when the store is full (`Vlan.PortAddKeepsInvIff`); rule ids start over after 65536 additions, and
  rules then stop being found in the order they were added (`Acl.AddKeepsInvIff`).
* A clock that both allocates and frees a cell breaks the free list (`FreeList.ClockKeepsInvIff`).
* After a miss on a frame longer than one cell the parser hangs (`P4Parser.MissRecoversIff`,
  `P4Parser.EmptyMemoryHangs`).
* A cell is written to a buffer cell that is not handed out when it is the last of a frame longer than one cell, and
  when the free list is empty, where it destroys a cell in use (`CellWrites.WrittenIsHandedOutIff`,
  `CellWrites.EmptyListOverwrites`, `CellWrites.LastCellIsOverwritten`).
* The updated checksum of a header whose every word becomes zero differs from the recomputed one
  (`Checksum.IncrementalMatchesScratch`).

## Model

| member | source | states |
|---|---|---|
| ArpTable.FindIsFirst | sw/firmware/arp.c:33-44 | the probe search returns the hit nearest to the hash home slot, and misses only when no slot of the whole table hits |
| ArpTable.Firmware.constructor | sw/firmware/arp.c:128-132 | a new instance has 256 free slots and no valid interface |
| ArpTable.Firmware.SetPortIntf | sw/firmware/arp.c:134-139 | sets one valid interface, and nothing at all for a port past 31 |
| ArpTable.Firmware.ArpFind | sw/firmware/arp.c:33-44 | the probe loop computes the search specification, wrapping around the table |
| ArpTable.Firmware.ArpAdd | sw/firmware/arp.c:141-165 | updates the table in place as the specification says, with its return code, and tells the switching table the sender's MAC and port exactly when it does; a missing MAC is refused |
| ArpTable.Firmware.ArpDelete | sw/firmware/arp.c:167-172 | clears the slot of the address, or reports that there is none |
| ArpTable.Firmware.ArpLookup | sw/firmware/arp.c:174-180 | answers for reachable entries only |
| ArpTable.Firmware.SendArpReply | sw/firmware/arp.c:91-122 | queues exactly the 42 bytes of the reply, if the transmit ring has room |
| ArpTable.Firmware.ArpProcessPkt | sw/firmware/arp.c:182-225 | learns the sender of requests and replies, in both tables, and answers requests for its own address; everything else is ignored |
| ArpTable.Firmware.ArpProbe | sw/firmware/arp.c:227-271 | marks a free slot on the probe path incomplete and queues the request; an invalid port changes nothing |
| ArpTable.Firmware.AgeOne | sw/firmware/arp.c:274-309 | one visit of the aging pass, probes included |
| ArpTable.Firmware.ArpAge | sw/firmware/arp.c:273-310 | the in-place pass over 256 slots equals the specification, though its own probes fill slots it has yet to visit |
| ArpTable.BuildArp | sw/firmware/arp.c:101-118 | the offset-moving writer lays down the 42 bytes of the frame and zeros behind them |
| ArpHash.ArpHash | sw/firmware/arp.c:22-30 | the four rounds compute the home slot |
| ArpHash.HomeIsLowBytes | sw/firmware/arp.c:22-30 | the home slot depends on low bytes alone: from 197 four rounds of xor with a byte of the address, the least significant first, and multiplication by 147 modulo 256 |
| ArpHash.RoundSeparates | sw/firmware/arp.c:22-30 | one hash round keeps two states apart in their low byte when exactly one of their low bytes and the bytes hashed differs |
| ArpHash.SameSubnetNeverCollides | sw/firmware/arp.c:22-30 | two addresses of one /24 never share a home slot |
| ArpHash.TwoAddressesCollide | sw/firmware/arp.c:22-30 | across subnets home slots do collide: 10.0.0.197 and 10.0.31.0 share one |
| ArpMap.RoomIffBelowCapacity | sw/firmware/arp.c:141-148 | a free slot is found exactly when fewer than 256 addresses are present |
| ArpMap.AddRefines | sw/firmware/arp.c:141-165 | on the map of addresses an addition is a map update, refused only when 256 other addresses are present; one slot per address is kept |
| ArpMap.DeleteRefines | sw/firmware/arp.c:167-172 | a deletion removes the address from the map and nothing else |
| ArpMap.LookupRefines | sw/firmware/arp.c:174-180 | a lookup reads the map, whatever the layout of the slots |
| ArpMap.ProcessRefines | sw/firmware/arp.c:182-225 | a received packet is at most one map update |
| ArpMap.RunRefines | sw/firmware/arp.c:141-225 | every run of additions, deletions and packets refines the same run on a finite map |
| ArpMap.MarkKeepsUniqueIff | sw/firmware/arp.c:232-239 | a probe keeps one slot per address exactly when it does not reach a hole before the address's own slot |
| ArpMap.ProbeKeepsLookupIff | sw/firmware/arp.c:174-239 | marking the target of a probe changes what an address resolves to if and only if it is the target's own address, which resolves, and the probe path meets a hole before its slot: a reachable neighbour then does not resolve any more |
| ArpMap.ProbeCanDuplicate | sw/firmware/arp.c:134-271 | on a node with an interface: add two addresses of one home slot, delete the first, and probing the second gives it a second slot and makes it unresolved |
| ArpAging.AlwaysWf | sw/firmware/arp.c:141-157 | in every reachable state reachable and stale entries have three retries left and a zero stamp |
| ArpAging.StaleIsNeverDeleted | sw/firmware/arp.c:296-307 | the branch that deletes a stale entry is never taken |
| ArpAging.AgeSlotShape | sw/firmware/arp.c:273-309 | a visit lets one slot evolve by its own clock, and can fill at most a free slot nearer to that entry's home, with a fresh incomplete entry |
| ArpSends.VisitFills | sw/firmware/arp.c:227-309 | the table after a visit, slot by slot: a probe of a due entry with an interface at its port fills the free slot its path meets before the entry, with a fresh entry, and nothing else changes but the visited slot |
| ArpAging.LifeFalls | sw/firmware/arp.c:278-308 | the closed-form remaining life of an entry falls by exactly one with every visit |
| ArpAging.LifeWithin320Iff | sw/firmware/arp.c:278-308 | 320 visits suffice exactly when the first one does not find the 32-bit clock at zero, or for a reachable entry just before it; 322 always do |
| ArpAging.EntryLastsItsLife | sw/firmware/arp.c:273-310 | an unrefreshed entry keeps its slot before its life is over and has left it in the very call that ends it, whatever the other slots do; a fresh probe entry may have taken the slot by then |
| ArpAging.LeavesWithin320Iff | sw/firmware/arp.c:227-310 | in every reachable table an unrefreshed entry is in its slot up to some call and gone at it; that call is among the first 320 exactly under the same condition on the clock, and among the first 322 always |
| ArpAging.TableDrains | sw/firmware/arp.c:227-310 | without packets every reachable table is empty after 4402 calls one second apart, the entries its own probes insert included |
| ArpProtocol.AddThenLookup | sw/firmware/arp.c:141-180 | after an addition the address resolves to what was added exactly when there was room, and otherwise the table is unchanged |
| ArpProtocol.FrameFields | sw/firmware/arp.c:188-195 | the receiver reads back every field the builder laid down |
| ArpProtocol.ProcessFrame | sw/firmware/arp.c:182-225 | an ARP frame for this node teaches it the sender, and a request queues the matching reply |
| ArpSends.ProcessSends | sw/firmware/arp.c:91-225 | a received packet is answered if and only if it has 42 bytes, says ARP and request, came in on a port whose valid interface has the address it asks for, and the queue has room: by one reply to the asker, byte by byte; it teaches the sender exactly when it is a request or a reply, and changes no interface |
| ArpSends.ProcessTells | sw/firmware/arp.c:158-220 | the switching table is told of the sender of a request or a reply exactly when the neighbour table took it |
| ArpSends.ProbeSends | sw/firmware/arp.c:227-271 | a probe is refused exactly without an interface, and otherwise queues one broadcast request for the target, byte by byte, as long as there is room |
| ArpSends.VisitSends | sw/firmware/arp.c:273-309 | a visit queues the request of an entry that is due, on its own port and VLAN, exactly if the port has an interface and the queue has room, and nothing otherwise |
| ArpSends.PassSends | sw/firmware/arp.c:273-310 | a whole pass queues the requests of exactly the slots that are due as it comes to them and have an interface, in the order of the slots, until the queue is full |
| ArpSends.InterfaceAnswers | sw/firmware/arp.c:134-139 | a port given an interface answers requests for that address with that MAC |
| ArpProtocol.ResolveWorks | sw/firmware/arp.c:91-271 | probe, request, reply between two nodes: each ends up resolving the other exactly when its table had room (RFC 826, Packet Generation and Packet Reception) |
| Tue.Engine.CtrlEdge | rtl/tue/tue.sv:45-160 | a control clock edge of the register file and the state machine, all from the old registers |
| Tue.Engine.StepMachine | rtl/tue/tue.sv:119-160 | the transaction state machine, its drain count and its one-cycle pulse |
| Tue.Engine.DpEdge | rtl/tue/tue.sv:163-166 | the two-flop synchroniser |
| Tue.Engine.Drive | rtl/tue/tue.sv:181-195 | the configuration broadcast, which reads the table id live |
| Tue.RegistersAt | rtl/tue/tue.sv:56-88 | the register map: which word each address holds, and how many of its bits |
| TueDriver.StatusTells | rtl/tue/tue.sv:91-99 | what a bus read of the status register returns is busy exactly while a transaction is under way, once the commit pulse has been taken |
| TueProtocol.DpEdgeStep | rtl/tue/tue.sv:163-195 | the state and the tables any number of datapath edges after a control edge, in closed form; repeated writes change nothing |
| TueProtocol.QuiescentCycle | rtl/tue/tue.sv:119-195 | a control cycle without a bus write keeps the protocol invariant and the outcome of the pending request, and brings its end nearer |
| TueProtocol.WriteCycle | rtl/tue/tue.sv:57-87 | a register write at rest changes that register and no table of any stage |
| TueProtocol.EarlyTableIdLandsElsewhere | rtl/tue/tue.sv:150-195 | a table id written in the cycle that ends the pulse makes the old request land at the new index as well: why the driver must see the status leave busy |
| TueProtocol.FreeIndexIsQuiet | rtl/tue/tue.sv:181-195 | a request for an index without a valid entry touches no action row that any valid entry points at |
| TueProtocol.InstalledActionsWriteFirstBytes | rtl/tue/tue.sv:193 | whatever action is installed through the engine can change only the first six bytes of a header vector |
| TueDriver.Chip.constructor | rtl/tue/tue.sv:46-54 | after reset no transaction is under way |
| TueDriver.Chip.DpEdge | rtl/tue/tue.sv:163-195 | one datapath edge of the engine and of a stage with traffic in it: what the engine broadcasts and what is streamed in is appended to the trace |
| TueDriver.Chip.CtrlCycle | rtl/tue/tue.sv:119-195 | one control edge followed by any three or more datapath edges, whatever is streamed in, has one outcome; the trace is the old one and what was appended |
| TueDriver.Chip.MmioWrite | sw/hal/rv_p4_hal.c:41 | a two-cycle bus write at rest changes the addressed register and nothing in any stage |
| TueDriver.Chip.ReadStatus | sw/hal/rv_p4_hal.c:15-20 | a two-cycle status read: anything but busy means that no transaction is under way |
| TueDriver.Chip.TueWaitIdle | sw/hal/rv_p4_hal.c:12-23 | the polling loop always returns OK, with the pending request applied and the pulse ended |
| TueDriver.Padded | sw/hal/rv_p4_hal.c:27-29 | the buffer holds the bytes in use and zeros behind them |
| TueDriver.Chip.TueWriteKey | sw/hal/rv_p4_hal.c:26-37 | sixteen writes leave the key or mask registers holding the padded bytes, little end first |
| TueDriver.Chip.TueCommit | sw/hal/rv_p4_hal.c:40-43 | commit and wait: the request in the registers has been applied to the addressed stage and the pulse has ended |
| TueDriver.Chip.HalTcamInsert | sw/hal/rv_p4_hal.c:49-80 | returns OK; the addressed entry and row hold exactly the request, every other entry, row and stage is as before, the pulse has ended, the trace extends the old one, in the new part the tables changed at one point, and at a free index all its writes were quiet, whatever was written before the call |
| TueDriver.Chip.HalTcamDelete | sw/hal/rv_p4_hal.c:82-91 | returns OK; the addressed entry is invalid, no other entry or stage changed, the entry's row holds the stale action registers, the trace extends the old one, and in the new part the tables changed at one point |
| TueDriver.InstalledActs | rtl/mau/mau_stage.sv:113-139 | a header vector that an installed entry wins gets the action installed with it, whatever its table id |
| TueDriver.SwitchPoint | rtl/tue/tue.sv:181-195 | the table versions in a trace with one change: the old one up to a point, the new one from there on |
| TueDriver.TrafficSeesOldThenNew | rtl/mau/mau_stage.sv:37-186 | a request that finds the tables quiet, such as an insertion at a free index, beside streaming traffic: every header vector, those in the pipeline before and after included, leaves as the old tables say up to a point and as the new tables say from it on |
| MauTcam.FirstIsUnique | rtl/mau/mau_tcam.sv:52-74 | the specification is the lowest matching index and nothing else is |
| MauTcam.Tcam.PriorityEncode | rtl/mau/mau_tcam.sv:64-74 | the downward scan ends with the lowest matching index |
| MauTcam.Tcam.ClockEdge | rtl/mau/mau_tcam.sv:42-89 | the lookup of an edge reads the entries as they were before the write of the same edge |
| MauStage.Stage.ClockEdge | rtl/mau/mau_stage.sv:37-179 | all sub-stages and the hash register load from the values before the edge; the Action SRAM is written in place |
| MauStage.FourEdges | rtl/mau/mau_stage.sv:37-179 | a header vector is matched against the entries as they stand after the edge that took it in, and its action read from the rows one edge later |
| MauStage.ActionIsAtomicIff | rtl/mau/mau_stage.sv:113-139 | the action read belongs to the same version as the match unless the next edge rewrites exactly the selected row with something else |
| MauStage.LeavesProcessed | rtl/mau/mau_stage.sv:37-186 | in every run each header vector leaves three edges later as if processed at once, with the hash the hash unit has by then, or with the new row for its old match when torn, and nothing leaves when nothing entered |
| MauStage.QuietRunIsLinearizable | rtl/mau/mau_stage.sv:37-186 | a header vector is processed atomically on the tables of its own edge if the one write of the edge after it finds them quiet |
| StageHash.HashOfHeader | rtl/mau/mau_stage.sv:141-157 | the hash unit computes the CRC32 of the first sixteen header bytes |
| StageHash.HashIsOwnIff | rtl/mau/mau_stage.sv:141-175 | a stored 32-bit hash is the header vector's own exactly when no other one enters on the next edge, or that one has the same CRC32: the hash register is one sub-stage ahead of the action |
| StageHash.BackToBackTakesNeighboursHash | rtl/mau/mau_stage.sv:141-175 | of two header vectors back to back whose hashed bytes differ only inside four consecutive ones, the first leaves with the hash of the second, which is never its own |
| TueTearing.InsertBoth | sw/hal/rv_p4_hal.c:49-80 | two insertions through the driver leave both entries live, with the registers of the second |
| TueTearing.EngineDrivesDeletion | rtl/tue/tue.sv:119-195 | from the commit of the deletion of the first of them, after the drain, the engine drives no write on the first two datapath edges and the deletion on every one after them |
| TueTearing.DeleteCanTear | rtl/mau/mau_stage.sv:113-139 | a header vector that entered on the last edge before the pulse leaves with an outcome that neither the old nor the new tables allow, whatever enters or is driven afterwards |
| MauAlu.FieldAfterSet | rtl/mau/mau_alu.sv:80-89 | a field reads back as written, for every width |
| MauAlu.ActionReadsBack | rtl/mau/mau_alu.sv:80-99 | set, hash, conditional set and copy leave the destination field holding the low bytes of the immediate or the hash, or the source field |
| MauAlu.LogicActsOnBits | rtl/mau/mau_alu.sv:119-121 | and, or and xor act on every bit of the destination field by itself |
| MauAlu.ActionTouchesOnlyDst | rtl/mau/mau_alu.sv:74-144 | an action changes no byte outside its destination field, and none at all on a miss |
| MauAlu.SubUndoesAdd | rtl/mau/mau_alu.sv:101-117 | subtracting what was added gives the header vector back, wrap-around included, for every width |
| MauAlu.FieldsAreSlices | rtl/mau/mau_alu.sv:52-68 | the fields of an action are the bit ranges of the id and of the 112 parameter bits taken as one number |
| MauAlu.AddsAndSubtracts | rtl/mau/mau_alu.sv:101-117 | operation 3 leaves the old value of the field plus the immediate and operation 4 the difference, modulo 256 to the power of its one, two or four bytes |
| MauAlu.SetsAndCopies | rtl/mau/mau_alu.sv:79-141 | which widths set, copy, hash and conditional set work on, and what the field holds afterwards |
| MauAlu.MetaOperations | rtl/mau/mau_alu.sv:122-146 | drop, port and priority change that metadata field alone, and the codes without a case nothing |
| MauHash.ComputeCrc32Byte | rtl/mau/mau_hash.sv:29-37 | the eight-step loop computes the register step |
| MauHash.ComputeCrc32 | rtl/mau/mau_hash.sv:39-46 | the 64-iteration loop computes the CRC of the first bytes of the key |
| CrcDivision.CrcIsRemainder | rtl/mau/mau_hash.sv:29-46 | for every message the CRC is the check sequence of its definition: long division of the message bits by the generator with exponents 32, 26, 23, 22, 16, 12, 11, 10, 8, 7, 5, 4, 2, 1 and 0 (clause 3.2.9 of IEEE 802.3) |
| CrcDivision.CheckValue | rtl/mau/mau_hash.sv:29-46 | the nine characters 1 to 9 have the CRC 0xCBF43926 |
| MauHash.ComputeJenkins | rtl/mau/mau_hash.sv:69-82 | the loop and the final mixing compute the hash of the first bytes of the key |
| MauHash.JenkinsCheckValue | rtl/mau/mau_hash.sv:69-82 | the letter a has the hash 0xCA2E9442 |
| MauHash.ShiftIsInjective | rtl/mau/mau_hash.sv:34-35 | one CRC register step loses nothing |
| MauHash.CrcSeparatesWindow | rtl/mau/mau_hash.sv:29-46 | messages of one length that differ only inside four consecutive bytes never have the same CRC32 (clause 3.2.9 of IEEE 802.3) |
| MauHash.JenkinsSeparatesByte | rtl/mau/mau_hash.sv:69-82 | messages of one length that differ in one byte never have the same Jenkins hash |
| Checksum.IncrementalMatchesScratch | rtl/deparser/deparser.sv:193-206 | for any accepted header of any length the updated checksum equals the recomputed one exactly when the new header has a nonzero word (section 3 of RFC 1624) |
| Checksum.OtherWordNonzero | rtl/deparser/deparser.sv:193-206 | so it does whenever some word other than the TTL word is nonzero |
| Checksum.RewrittenHeaderVerifies | rtl/deparser/deparser.sv:193-206 | the rewritten header is accepted by the next receiver exactly under the same condition |
| Checksum.TtlIsDecremented | rtl/deparser/deparser.sv:183-186 | the TTL is one less, 0 becoming 255, and the protocol beside it the same |
| Checksum.ScratchVerifies | rtl/deparser/deparser.sv:193-206 | the reference checksum, computed from scratch, is always accepted by a receiver |
| SimHal.FindIsFirst | sw/firmware/test/sim_hal.c:67-76 | the record found is the first live one of the stage with the id |
| SimHal.Store.SimTcamFind | sw/firmware/test/sim_hal.c:67-76 | the scan over the record array computes it |
| SimHal.Store.HalTcamInsert | sw/firmware/test/sim_hal.c:92-109 | updates in place, appends, or reports a full array |
| SimHal.Store.HalTcamDelete | sw/firmware/test/sim_hal.c:111-116 | leaves a tombstone, or reports a missing record |
| SimHal.Store.TcamTernaryLookup | sw/firmware/test/pkt_model.c:19-42 | the scan returns the first live record of the stage that matches bytewise under its mask |
| SimHal.CompareBytes | sw/firmware/test/pkt_model.c:28-38 | the byte loop decides the match over the shorter of the two lengths |
| SimHal.InsertPerStage | sw/firmware/test/sim_hal.c:92-109 | seen stage by stage an insertion updates or appends in its own stage, touches no other, and is refused only for a new id in a full array |
| SimHal.DeletePerStage | sw/firmware/test/sim_hal.c:111-116 | seen stage by stage a deletion removes one entry of its own stage and touches no other |
| SimHal.LookupIsFirstMatch | sw/firmware/test/pkt_model.c:19-42 | a lookup is the first match in the stage's own list, whatever other stages hold in between |
| PktModel.Packet.ApplyAction | sw/firmware/test/pkt_model.c:122-205 | every action changes the packet in place as specified |
| PktModel.Packet.Extract | sw/firmware/test/pkt_model.c:49-115 | the key of every stage and its length |
| PktModel.Packet.PktForward | sw/firmware/test/pkt_model.c:266-295 | the seven stages in order, stopping at a drop or a punt |
| PktModel.BeforeKeepsFields | sw/firmware/test/pkt_model.c:122-205 | no stage changes the header bytes that the later keys are taken from |
| Forwarding.ActionMeans | sw/firmware/test/pkt_model.c:122-205 | what each action does to the packet, by its number: a route rewrites the first six header bytes and the port and nothing else |
| Forwarding.HitIsFirstOn | sw/firmware/test/pkt_model.c:49-75 | the lookups of stages 0 and 2 find the first live entry that agrees with the four bytes of the IPv4 destination and the six of the Ethernet destination |
| Forwarding.StageZeroRoutes | sw/firmware/test/pkt_model.c:122-146 | at stage 0 the first agreeing route forwards with the next hop's address in front, or drops; without one the packet is left alone |
| Forwarding.StageTwoSwitches | sw/firmware/test/pkt_model.c:122-160 | at stage 2 the first entry agreeing with the destination MAC as it stands by then chooses the port |
| Forwarding.RouteChoosesNextHop | sw/firmware/test/pkt_model.c:266-295 | a routed packet that is not denied leaves stage 2 by the port of the first switching entry for the next hop, or by that of the route, whatever address it came in with |
| Acl.AccessLists.AclAlloc | sw/firmware/acl.c:35-41 | the first free slot |
| Acl.AccessLists.AclAddDeny | sw/firmware/acl.c:52-91 | installs a rule and uses up its id, taking the slot back when the store is full |
| Acl.AccessLists.AclAddPermit | sw/firmware/acl.c:93-125 | the same for a permit rule, whose key leaves out the port |
| Acl.AccessLists.AclDelete | sw/firmware/acl.c:127-136 | frees the slot of the id and removes its entry, or reports an unknown id |
| Acl.AddKeepsInvIff | sw/firmware/acl.c:52-125 | an addition keeps the stage-1 entries equal to the valid rules in id order if and only if nothing is installed, for want of a slot or a record, or the next id is above those of all valid rules: the 16-bit id starts over some time |
| Acl.AddKeepsInv | sw/firmware/acl.c:52-125 | so it does while fewer than 65536 ids have been issued, and no other stage changes |
| Acl.RemoveKeepsInv | sw/firmware/acl.c:127-136 | a deletion keeps the same, and succeeds exactly for the id of a valid rule |
| Acl.AddMeans | sw/firmware/acl.c:52-125 | an addition installs exactly the rule given under the id it returns, or returns full and installs nothing; the id is used up as soon as there is a slot |
| Acl.RemoveMeans | sw/firmware/acl.c:127-136 | a deletion takes the rule of the id away and no other, or reports an unknown id and changes nothing |
| Acl.EntryMatchesIffRuleMatches | sw/firmware/acl.c:67-82 | the bytewise match of a rule's entry is the comparison of its addresses under their 32-bit masks and of its port if it names one |
| Acl.StageOneDecides | sw/firmware/test/pkt_model.c:122-146 | stage 1 drops a packet exactly when the matching valid rule with the smallest id is a deny rule, and otherwise leaves it alone |
| Acl.AddTakesEffect | sw/firmware/acl.c:52-125 | after an addition in order a packet is dropped exactly when it was before, or when no earlier rule applies to it and the new one denies it |
| Vlan.Vlans.VlanCreate | sw/firmware/vlan.c:108-118 | creates an empty VLAN and its mirror; an existing one is left alone |
| Vlan.Vlans.VlanDelete | sw/firmware/vlan.c:120-135 | removes the entries of all member ports in a loop, then the VLAN |
| Vlan.Vlans.VlanPortAdd | sw/firmware/vlan.c:137-157 | sets the bits, the mirror and the egress entry together |
| Vlan.Vlans.VlanPortRemove | sw/firmware/vlan.c:159-174 | clears the bits, the mirror and the egress entry together |
| Vlan.CreateKeepsInv | sw/firmware/vlan.c:108-118 | creation keeps entries, mirrors and bitmaps in step |
| Vlan.DeleteKeepsInv | sw/firmware/vlan.c:120-135 | so does deletion |
| Vlan.PortAddKeepsInvIff | sw/firmware/vlan.c:137-157 | adding a port keeps them in step if and only if a record is free or the port already is a member: the call does not look at the store's answer |
| Vlan.PortAddIsTaken | sw/firmware/test/sim_hal.c:92-109 | the store takes the entry exactly when a record is free or the port already is a member |
| Vlan.PortRemoveKeepsInv | sw/firmware/vlan.c:159-174 | removing a port keeps them in step, whether or not it was a member |
| Vlan.PortAddKeepsSound | sw/firmware/vlan.c:137-157 | adding a port keeps bitmaps and mirrors in step and every entry justified by them even when the store turns the entry away |
| Vlan.DeleteKeepsSound | sw/firmware/vlan.c:120-135 | so does deleting a VLAN some of whose entries were turned away |
| Vlan.CreateMeans | sw/firmware/vlan.c:108-118 | a VLAN from 1 to 255 exists afterwards, new without members; nothing else changes |
| Vlan.DeleteMeans | sw/firmware/vlan.c:120-135 | an existing VLAN is gone with all its members, and no other changes |
| Vlan.PortAddMeans | sw/firmware/vlan.c:137-157 | the port is a member afterwards, untagged if and only if not added as tagged, and every other bit is as before; refused exactly for a missing VLAN or port |
| Vlan.PortRemoveMeans | sw/firmware/vlan.c:159-174 | the port is no member afterwards, and every other bit is as before |
| Vlan.StageSixActsOnEntries | sw/firmware/test/pkt_model.c:97-103 | whether or not entries were turned away, stage 6 strips or keeps as the bits say where there is an entry, which is at members only, and leaves every other packet alone |
| Vlan.StageSixActs | sw/firmware/test/pkt_model.c:97-103 | stage 6 strips, keeps or leaves alone exactly as the member and untagged bits of the VLAN and output port say |
| Vlan.PortAddTakesEffect | sw/firmware/vlan.c:137-157 | with room in the store a packet of that VLAN leaves by that port stripped if the port was added untagged, and with its tag kept if tagged |
| Vlan.RemovalTakesEffect | sw/firmware/vlan.c:120-174 | after the port is removed or the VLAN deleted such packets are left alone |
| VlanIngress.Ports.VlanInstallPortRules | sw/firmware/vlan.c:199-244 | installs the two ingress entries of a port |
| VlanIngress.Ports.InitPorts | sw/firmware/vlan.c:90-100 | the loop sets every port and its mirrors to access mode on VLAN 1 |
| VlanIngress.Ports.VlanPortSetPvid | sw/firmware/vlan.c:176-186 | stores the port's VLAN and its mirror and installs its entries again |
| VlanIngress.Ports.VlanPortSetMode | sw/firmware/vlan.c:188-197 | stores the port's mode and its mirror and installs its entries again |
| VlanIngress.InstallKeepsInv | sw/firmware/vlan.c:199-244 | the entry for tagged frames always comes after the one for untagged frames, even when the store runs full in between |
| VlanIngress.SetPvidMeans | sw/firmware/vlan.c:176-186 | sets the VLAN of that port alone, and is refused exactly for a port or a VLAN that does not exist |
| VlanIngress.SetModeMeans | sw/firmware/vlan.c:188-197 | sets the mode of that port alone, and is refused exactly outside the ranges |
| VlanIngress.PvidTakesEffect | sw/firmware/vlan.c:176-244 | frames of the port are assigned the VLAN just set, if a record is free or the port has its entry |
| VlanIngress.TagIsNeverRead | sw/firmware/vlan.c:203-242 | any frame of a configured port is assigned the port's VLAN in both modes, whatever tag it carries: the entry for tagged frames is never the first match |
| VlanIngress.TaggedMatchesIff | sw/firmware/vlan.c:203-242 | what the entry for tagged frames would match if it came first: in trunk mode every frame of its port, in access mode those whose tag names the port's VLAN in twelve bits |
| Csr.CsrFile.HalVlanMemberSet | sw/firmware/test/sim_hal.c:149-154 | writes both bitmaps of one VLAN, and nothing past VLAN 255 |
| Csr.CsrFile.HalVlanPvidSet | sw/firmware/test/sim_hal.c:137-141 | writes one port's VLAN, refusing what is out of range |
| Csr.CsrFile.HalVlanModeSet | sw/firmware/test/sim_hal.c:143-147 | writes one port's mode, and nothing past port 31 |
| Csr.CsrFile.HalQosDscpMapSet | sw/firmware/test/sim_hal.c:183-187 | writes one code point, refusing what is out of range |
| Qos.QosMap.InstallDscpRule | sw/firmware/qos.c:23-38 | installs the entry of a code point |
| Qos.QosMap.QosDscpMapDefault | sw/firmware/qos.c:92-121 | the default queues of all 64 code points |
| Qos.QosMap.QosApplyDscpRules | sw/firmware/qos.c:123-128 | writes all mirrors and installs all entries |
| Qos.QosMap.QosInit | sw/firmware/qos.c:54-55 | the default map, its mirrors and its entries |
| Qos.QosMap.QosDscpSet | sw/firmware/qos.c:82-90 | changes one code point everywhere, or refuses and changes nothing |
| Qos.InitEstablishes | sw/firmware/qos.c:123-128 | with room for 64 records initialisation makes the stage-5 entries equal to the map |
| Qos.DscpSetKeepsInv | sw/firmware/qos.c:82-90 | afterwards a change is never refused, however full the store, and keeps them equal |
| Qos.MapSetMeans | sw/firmware/qos.c:82-90 | changes the queue of that code point alone, and is refused exactly outside the ranges |
| Qos.MapSetTakesEffect | sw/firmware/qos.c:82-90 | from then on packets of that code point get the new queue and all others the one they had |
| Qos.DefaultFollowsClasses | sw/firmware/qos.c:92-121 | the default by traffic class: assured forwarding 1 to 4 to the queue of the class, class selector 5 and expedited forwarding to 5, class selectors 6 and 7 to their own, the rest to 0 |
| Qos.ReinitKeepsInv | sw/firmware/qos.c:123-128 | initialising once more is never refused either, and moves the agreement over to the new map one code point at a time |
| Qos.StageFiveAssigns | sw/firmware/test/pkt_model.c:89-95 | exactly one entry matches a packet, and it gets the queue of the six high bits of its DSCP byte |
| Firmware.CallKeepsInv | sw/firmware/test/sim_hal.c:67-116 | every call of any module, those that the store or the id counter spoils included, keeps every module in step: the access list as long as its ids are in order, the VLAN entries complete as long as none was turned away, all else always |
| Firmware.CallStaysInStage | sw/firmware/test/sim_hal.c:67-116 | the entries of a stage change by the calls of its own module alone |
| Firmware.EveryRunKeepsInv | sw/firmware/test/sim_hal.c:67-116 | so does every run of calls after a reset, insertions and deletions of the modules of other stages among them |
| Firmware.FewRulesStayOrdered | sw/firmware/acl.c:52-125 | the ids are in order throughout every run that adds at most 65536 rules |
| Firmware.ReadyOnceInitialised | sw/firmware/qos.c:123-128 | the DSCP map is ready for good once it was initialised with 64 free records |
| Firmware.AnyRunAnyPacket | sw/firmware/test/pkt_model.c:266-295 | after any run any packet is routed, denied, switched, assigned its VLAN, queued and stripped as the tables say, tested on the fields it came in with, but for the destination MAC a route has rewritten; a packet to a member port whose entry was turned away keeps its tag as it is |
| Firmware.AnyRunRoutes | sw/firmware/test/pkt_model.c:266-295 | after any run with the rules in order a routed packet that is not denied takes the port of the first switching entry for the next hop, or of the route |
| Firmware.DeniedIsFinal | sw/firmware/test/pkt_model.c:266-295 | a denied packet leaves the pipeline as it was at stage 1, dropped |
| Firmware.CallAchieves | sw/firmware/test/sim_hal.c:67-116 | every call does to the software tables of its module what it is for |
| Firmware.ArpIsTrapped | sw/firmware/arp.c:67-84 | wherever in a run the trap is installed, and whatever the other modules do, a frame that reaches its stage is punted exactly when it is an ARP frame |
| RtlTranslation.KeyWord | tb/cosim/cosim_main.cpp:260-267 | the byte loop assembles a key word |
| RtlTranslation.MaskWord | tb/cosim/cosim_main.cpp:275-287 | the byte loop assembles an inverted mask word, don't-care past its length |
| RtlTranslation.Translate | tb/cosim/cosim_main.cpp:245-294 | the whole entry and action, refused from stage 7 on |
| RtlTranslation.MatchesIff | rtl/mau/mau_tcam.sv:53-60 | the 512-bit ternary match is the comparison of all 64 bytes under the inverted mask |
| RtlTranslation.TranslationPreservesMatchIff | tb/cosim/cosim_main.cpp:245-288 | the translated entry matches the same packet keys as the firmware entry if and only if both sides compare the same bits |
| RtlTranslation.EqualLengthsSuffice | tb/cosim/cosim_main.cpp:260-288 | they do whenever key and mask have the same length |
| HardwareAcl.EveryModuleTranslates | tb/cosim/cosim_main.cpp:245-288 | so every entry of the access lists, the VLANs, the DSCP map and the ARP trap, translated, matches in the hardware exactly the packets it matches in the software |
| RtlTranslation.DriverPreservesMatchIff | sw/hal/rv_p4_hal.c:26-37 | the memory-mapped driver does not invert the mask: what it installs matches the same packet keys if and only if every mask byte is 0xFF and either nothing is compared in software while the whole mask is in use, or all 64 bytes are while none of it is |
| RtlTranslation.DriverMaskDisagrees | sw/hal/rv_p4_hal.c:26-37 | so every entry it installs with fewer than 64 key and mask bytes is matched differently by some packet key |
| RtlTranslation.DriverActionMeans | sw/hal/rv_p4_hal.c:66-77 | what the memory-mapped driver installs for an action by its parameter bytes: destination 0, the width in the second byte, the immediate in the third to the sixth |
| RtlTranslation.PortActionsAgreeIff | tb/cosim/cosim_main.cpp:218-242 | forwarding chooses the same port on both sides if and only if the port fits in five bits; flooding never does |
| RtlTranslation.VerdictsAgree | tb/cosim/cosim_main.cpp:218-228 | drop, deny and permit do the same on both sides |
| HardwareAcl.InsertKeepsMirrors | rtl/mau/mau_tcam.sv:42-50 | writing the translation of an entry at the index of its id keeps the hardware table the translation of the stage's list |
| HardwareAcl.DeleteKeepsMirrors | rtl/mau/mau_tcam.sv:42-50 | so does invalidating the index of a deleted id |
| HardwareAcl.SamePick | rtl/mau/mau_tcam.sv:62-74 | for ids below 2048 the lowest-index priority and the software first match pick the same entry |
| HardwareAcl.HardwareDecidesAlike | tb/cosim/cosim_main.cpp:218-303 | a header vector with a packet's addresses and port leaves the hardware stage dropped exactly when the software access list denies the packet |
| CosimDriver.TueWaitDone | tb/cosim/cosim_main.cpp:125-128 | the fixed wait always suffices: the pending request has been applied and the pulse has ended |
| CosimDriver.HalTcamInsert | tb/cosim/cosim_main.cpp:245-303 | the register writes, the commit and the wait leave the addressed stage holding exactly the translation at its index, and every other entry, row and stage as before; a stage from 7 on is refused |
| CosimDriver.HalTcamDelete | tb/cosim/cosim_main.cpp:305-313 | the addressed entry is invalid, its row takes the stale action registers, and all else is as before |
| CosimDriver.FollowAll | tb/cosim/cosim_main.cpp:245-313 | running the firmware's calls with the bench driving the engine for each, the tables of the stage are at every call those of the run on both sides |
| HardwareAcl.EveryRunInStep | rtl/mau/mau_tcam.sv:42-50 | after every run of the firmware's calls, with rule ids below 2048 and in order, the hardware that follows its access list holds exactly the translations of its entries |
| HardwareAcl.AnyRunDecidesAlike | rtl/mau/mau_tcam.sv:53-89 | so after every such run both sides decide alike about every packet |
| PuntRing.DecodeEncode | sw/hal/rv_p4_hal.c:338-399 | a packet of up to 256 bytes comes back from its slot field for field |
| PuntRing.SlotLayout | sw/hal/rv_p4_hal.c:374-385 | the two descriptor words of a sent packet, field by field, its length cut to 256 |
| PuntRing.SlotByte | sw/hal/rv_p4_hal.c:387-397 | each byte of a sent packet stands in its word, four to a word, the first lowest |
| PuntRing.SlotPadding | sw/hal/rv_p4_hal.c:387-397 | the bytes of the last word past the end of the packet are zero |
| PuntRing.NoUnreadSlotOverwritten | sw/hal/rv_p4_hal.c:365-402 | the slot being filled is none of the published ones not yet returned |
| PuntRing.NoSlotReadEarly | sw/hal/rv_p4_hal.c:324-363 | the slot being read is published |
| PuntRing.EveryRunIsFifo | sw/hal/rv_p4_hal.c:324-402 | under every interleaving, wherever the 32-bit counters start, the packets returned are the first of those published, in order |
| PuntRing.SendArrives | sw/hal/rv_p4_hal.c:365-402 | nothing gets stuck: a packet handed to an idle producer with room is published after a fixed number of its own steps, whatever the consumer does meanwhile |
| PuntRing.TakeArrives | sw/hal/rv_p4_hal.c:324-363 | and a packet in flight is returned after a fixed number of the consumer's own steps, whatever the producer does meanwhile |
| PuntRing.FullIffSixteen | sw/hal/rv_p4_hal.c:368-371 | the producer is turned away exactly when sixteen are in flight as it reads the consumer counter |
| PuntRing.EmptyIffNothingInFlight | sw/hal/rv_p4_hal.c:327-330 | the consumer finds the ring empty exactly when it was |
| PuntDevice.PuntPort.TxSend | sw/hal/rv_p4_hal.c:365-402 | appends the packet to the queue, or turns it away exactly when sixteen are pending |
| PuntDevice.PuntPort.WriteSlot | sw/hal/rv_p4_hal.c:381-397 | writes the slot's words and no others |
| PuntDevice.PuntPort.RxPoll | sw/hal/rv_p4_hal.c:324-363 | takes the oldest packet, its bytes over the front of the caller's buffer |
| PuntDevice.PuntPort.ReadBytes | sw/hal/rv_p4_hal.c:347-358 | unpacks the words, the last one only as far as the length |
| FreeList.PktBuffer.constructor | rtl/pkt_buffer/pkt_buffer.sv:53-59 | initially every cell is free, in order |
| FreeList.PktBuffer.ClockEdge | rtl/pkt_buffer/pkt_buffer.sv:64-86 | one clock of the free list, the later of two assignments to the count winning, and the cell it hands out |
| FreeList.ClockKeepsInvIff | rtl/pkt_buffer/pkt_buffer.sv:68-86 | with frees of cells in use a clock keeps free and used cells a partition, each free cell once and the count exact, if and only if it does not both grant and free |
| FreeList.OfferedCellIsFree | rtl/pkt_buffer/pkt_buffer.sv:64-66 | the cell offered is not in use |
| FreeList.CountIsExact | rtl/pkt_buffer/pkt_buffer.sv:64-86 | the count is the number of cells not handed out |
| FreeList.GrantedIffFree | rtl/pkt_buffer/pkt_buffer.sv:60-86 | a request is granted exactly while some cell is not handed out, and gets the one that has been free longest; a freed cell comes last |
| FreeList.EveryRunKeepsInv | rtl/pkt_buffer/pkt_buffer.sv:46-86 | all this in every run without such a clock |
| RxArbiter.MacRxArb.Grant | rtl/top/mac_rx_arb.sv:34-44 | the scan grants the first valid port at or after the pointer, wrapping around |
| RxArbiter.MacRxArb.ClockEdge | rtl/top/mac_rx_arb.sv:47-52 | the pointer moves past the granted port exactly when its cell is accepted |
| RxArbiter.WaitingPortGetsCloser | rtl/top/mac_rx_arb.sv:34-52 | each acceptance of another port brings the pointer nearer to a waiting one |
| RxArbiter.NoStarvation | rtl/top/mac_rx_arb.sv:34-52 | while a port waits no more cells are accepted than there were ports ahead of it |
| RxArbiter.ServedWithin32 | rtl/top/mac_rx_arb.sv:34-52 | a port that keeps its request up is served within 32 accepted cells |
| ParserEntry.SetBits | tb/cosim/cosim_main.cpp:150-159 | the bit loop writes the low bits of the value into the given range of the words and touches no other bit |
| ParserEntry.MakeParserEntry | tb/cosim/cosim_main.cpp:164-180 | the built words are exactly the single-byte entry, bit for bit |
| P4Parser.FieldsReadBack | rtl/parser/parser_tcam.sv:101-105 | the hardware's bit slices read back what the builder was given |
| P4Parser.MatchesOwnState | rtl/parser/parser_tcam.sv:61-73 | such an entry matches its own state alone, whatever the window holds |
| P4Parser.CaringEntryMatchesIff | rtl/parser/parser_tcam.sv:61-73 | an entry without don't-cares matches exactly the state and the eight window bytes it names |
| P4Parser.NextLookup | rtl/parser/p4_parser.sv:88-168 | after an entry that does not accept, the next lookup is in the state it names with the window moved on by the bytes it names |
| P4Parser.Parser.PriorityEncode | rtl/parser/parser_tcam.sv:79-88 | the downward scan ends with the lowest match |
| P4Parser.Parser.Lookup | rtl/parser/parser_tcam.sv:91-107 | the registered result of a lookup, all zero on a miss |
| P4Parser.Parser.ClockEdge | rtl/parser/p4_parser.sv:107-219 | one clock of the parse machine, the header vector changed in place |
| P4Parser.Parser.WriteChain | tb/cosim/cosim_main.cpp:164-191 | entries built and written one after the other form a chain |
| P4Parser.ThreeClocks | rtl/parser/p4_parser.sv:152-188 | three clocks take one item of a chain, whatever arrives meanwhile |
| P4Parser.PhasesWait | rtl/parser/p4_parser.sv:121-219 | an idle machine starts with a first cell and nothing else, the payload waits for cells, and a finished header vector for the next stage |
| P4Parser.ChainAlwaysAccepts | rtl/parser/p4_parser.sv:121-188 | a chain of up to 62 items always reaches acceptance, 3n clocks after the first cell, with a header vector that is zero but for the copied bytes |
| P4Parser.LengthIsCounted | rtl/parser/p4_parser.sv:190-199 | the remaining cells of a frame are counted into its length in 14 bits, and nothing else of what is handed on changes |
| P4Parser.UnnamedStaysZero | rtl/parser/p4_parser.sv:134-167 | a byte no item names is zero |
| P4Parser.LastItemWins | rtl/parser/p4_parser.sv:163-167 | a byte several items name holds the cell byte of the last |
| P4Parser.DropIsForever | rtl/parser/p4_parser.sv:182-245 | a machine in the drop phase never leaves it, because it takes no cell there |
| P4Parser.MissRecoversIff | rtl/parser/p4_parser.sv:182-245 | after a miss the machine can become idle again if and only if the cell was the last of its frame |
| P4Parser.MissDrops | rtl/parser/p4_parser.sv:182-187 | a miss marks the frame as dropped, and ends it at once if its first cell is its last |
| P4Parser.EmptyMemoryHangs | rtl/parser/p4_parser.sv:121-245 | with no valid entry any frame longer than one cell leaves it in the drop phase from three clocks after its first cell, for good |
| P4Parser.ActiveIffBusy | rtl/parser/p4_parser.sv:107-250 | in every run the status register says that a frame is being handled exactly while the machine is not idle |
| CellWrites.EmptyListOverwrites | rtl/parser/p4_parser.sv:224-239 | with an empty free list the cell on offer is in use, none is handed out, and a write lands on it all the same |
| CellWrites.WrittenIsHandedOutIff | rtl/parser/p4_parser.sv:224-239 | a buffer cell that is written was free and is handed out by the same clock exactly when there is a free one and it is not the last cell of a frame longer than one |
| CellWrites.LastCellIsOverwritten | rtl/parser/p4_parser.sv:224-239 | so the last cell of such a frame is overwritten by the first cell of the next frame, whatever is freed in between, or, with an empty free list, overwrites a cell in use |

## Left out

- `route.c`: table ids of routes truncate to 16 bits and collide across prefix lengths, and neither lookup orders by length.
- `fdb.c`: the entry index is the low twelve bits of a MAC, so distinct addresses alias.
- The MODIFY and FLUSH commands of the update engine, its direct request interface, and its parser write port.
- Pipeline back-pressure: the output of a stage is taken to be ready in every clock.
- Memory contents at power-up, undefined in the hardware: the ternary memories start without a valid entry.
- Metastability: the synchroniser's first flop is taken to settle within its clock.
- Header bytes an action or the parser reads past the end of its source, undefined in the hardware, read as zero.
- `rtl/common/mac_rx_arb.sv`, whose port-count modulus is zero in five bits; the version under `rtl/top` is modelled.
- `traffic_manager.sv`, the deparser's queues and its byte layout: only the checksum arithmetic is modelled.
- CRC16 and the identity hash; a stage selects neither them nor Jenkins.
- `rvp4cc.py`, the command line, `*_show`, UART, PCIe, JTAG, the processor wrapper and all flow scripts.
- `vlan_init` after its port loop, and `arp_init`: they are runs of the calls that are modelled.
- DWRR weights, shaping rates and scheduling modes: no packet property here depends on them.
- `pkt_parse`: packets start as parsed header vectors.
- The hardware side of the punt rings follows the same protocol as the driver side; null pointers and `printf` are left out.
- Packet lengths over 256 on the transmit ring are cut to 256, as the driver does; the bytes past that are not in the model.
- The next-cell links and end marks of the packet buffer, and its two read ports.
- ArpTable.Firmware.ArpAdd: records the call of `fdb_learn` with its arguments, not what the switching table makes of it.
- Acl.AddKeepsInv: is about the first 65536 rule ids; Acl.AddKeepsInvIff says exactly which additions after them still keep the order.
- Firmware.AnyRunAnyPacket: says nothing of stage 1 once rule ids are out of order.
- HardwareAcl.EveryRunInStep: is about rule ids below 2048, the entries a hardware table has; larger ids share indexes.
- RxArbiter.MacRxArb.ClockEdge: models the pointer and the acceptance, not the data multiplexer.
