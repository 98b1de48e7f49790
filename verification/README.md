# Confidential migration VM and SecAFS: verified core

This project models the parts of the repository where a loop, a recursion or a protocol must keep an
unbounded promise, and proves that promise:

- the migration VM's device tree parser, its acceptance of realm memory, its random source, its virtio
  queues, vsock descriptor supply and shared DMA pool;
- the Kunpeng TPM driver's command transport;
- SecAFS over NFS: READDIRPLUS paging, duplicate suppression, record marking, and the authorization of
  WRITE, SETATTR, REMOVE and RENAME;
- SecAFS over FUSE: the session with its one-shot replies, and directory paging;
- the SecAFS daemon's readiness pipe.

Code that changes state is a class or a method with loops, proved against a specification function; the
promises are lemmas about that function, over every input, run or interleaving. Devices, kernels, clients,
clocks and schedules are parameters: function-valued oracles of a tick, or sequences of events. What holds
for all of them holds for every choice they make.

One module per component: `Fdt` and `FdtMemory` (device tree), `RealmMemory`, `Trng`, `Virtqueue`, `Vsock`,
`DmaPool`, `Tpm`, `ReaddirPlus`, `TransactionTracker`, `RecordMarking`, `NfsPermissions`, `NfsSetattr`,
`NfsSticky`, `FuseSession`, `FuseReaddir`, `DaemonPipe`; `Bytes` holds bytes and big-endian words. Check all
of it with `dafny verify dfyconfig.toml`.

## Where the code falls short of what it is for

The member named gives the concrete input or the exact condition under which the code does what it is for.

- `Fdt.LeadingNopsIff`: NOPs before the root, which the specification allows, make the parser refuse the tree.
- `RealmMemory.StaysInsideIff`, `RealmMemory.CoversAllIff`: a region whose start rounds up past 2^64 lets memory
  outside it be accepted, and a region that reaches 2^64 is not accepted at all.
- `Virtqueue.DeliversAlikeIff`: around an index wrap a ring delivers a wrong element unless the queue size divides
  2^16; the network driver takes what the device offers, up to 128, without rounding.
- `DmaPool.GrantsSoundIff`: requests of 2^64 bytes in all wrap the offset past the size check.
- `FdtMemory.CountSpecifiedIff`, `FdtMemory.FirstPairIff`: `reg` is read with the node's own or inherited counts, by
  default 2 and 2, where the specification asks for the parent's, by default 2 and 1
  (`FdtMemory.DefaultSizeDiffers`), and only its first pair is taken (`FdtMemory.SecondPairIsLost`).
- `ReaddirPlus.ListsInOrderIff`: a cookie is a file id, so an id that is 0 or repeated before the last entry makes a
  listing go back (`ReaddirPlus.HardLinkRepeats`).
- `NfsSticky.RemoveLawfulIff`, `NfsSticky.RenameLawfulIff`: the sticky check falls back to the plain directory
  check when a stat fails, although the operation may then succeed, and names "." and ".." are accepted and
  checked against another inode (`NfsSticky.DotNameIsMisread`). Renaming an entry onto itself deletes it
  (`NfsSticky.RenameArrivesIff`).
- `NfsSetattr.MismatchedGuardKeepsIff`: a SETATTR guard that does not match adds a status to the reply but does
  not stop the update.
- `NfsSetattr.WriteClearsSetId`: a WRITE is answered with OK although clearing the set-id bits failed.
- `FuseReaddir.DbRoundTripIff`: database inode 1 under another root is taken for the root.
- `Trng.DistinctIff`: outputs can repeat once the stored state has been zero.

## Model

| member | source | states |
|---|---|---|
| `Bytes.Be32RoundTrip` | solutions/confidential-migvm/src/fdt.rs:448-454 | a big-endian word read where it was written is that word |
| `Bytes.U32AtRoundTrip` | solutions/confidential-migvm/src/fdt.rs:448-454 | every four bytes are the encoding of the word read from them |
| `Bytes.Be32SpelledOut` | solutions/confidential-migvm/src/fdt.rs:448-454 | the bytes 1, 2, 3, 4 are the word 0x01020304 both ways |
| `Fdt.SkipString` | solutions/confidential-migvm/src/fdt.rs:468-478 | ends at the word boundary after the first zero byte at or after the offset, and faults exactly when there is none |
| `Fdt.GetStringName` | solutions/confidential-migvm/src/fdt.rs:480-494 | the bytes of the strings block from the offset up to the first zero byte; `NameIsFound` says what that is for a name held there |
| `Fdt.NameIsFound` | solutions/confidential-migvm/src/fdt.rs:480-494 | where the strings block holds a name and a zero byte at an offset, the lookup at that offset gives exactly that name |
| `Fdt.CollectNode` | solutions/confidential-migvm/src/fdt.rs:185-236 | the token loop with its in-place offset and recursion computes `Collect`, the recursive reading of the format, on every block, with `end - offset` as the measure; `Fault` marks the point where the code would read outside the two blocks, which no encoding reaches |
| `Fdt.ParseBlocks` | solutions/confidential-migvm/src/fdt.rs:158-183 | the root must be a BEGIN_NODE, then its body is collected |
| `Fdt.CollectUndoesEncode` | solutions/confidential-migvm/src/fdt.rs:185-236 | for every node body, wherever its encoding lies, collecting rebuilds exactly its properties (the format's own names, offset, length, order) and children and stops just past the matching END_NODE; NOPs and padding bytes may be anything |
| `Fdt.ParseUndoesEncode` | solutions/confidential-migvm/src/fdt.rs:158-236 | for every device tree, property names included, and every encoding of it that begins with its root (sections 5.4 and 5.5 of the Devicetree Specification v0.4, NOPs anywhere inside the root, names in the strings block at the offsets given) parsing yields that tree and stops at the end of the encoding |
| `Fdt.LeadingNopsIff` | solutions/confidential-migvm/src/fdt.rs:158-183 | with `k` NOPs before the root, which the specification allows, the parser gives back the tree if and only if `k` is 0, and otherwise says the block is not a tree |
| `Fdt.TokensSpelledOut` | solutions/confidential-migvm/src/fdt.rs:185-236 | the bytes of a NOP, of a property whose name is not the first of the strings block, and of an empty node |
| `Fdt.BlockEndStops` | solutions/confidential-migvm/src/fdt.rs:229-231 | the token 9 ends the node at hand |
| `Fdt.MalformedFaults` | solutions/confidential-migvm/src/fdt.rs:185-236 | a cut token, a node name without end, a cut property header or a property name without end makes the parse fail at once, whatever was collected before |
| `FdtMemory.FindPropRaw` | solutions/confidential-migvm/src/fdt.rs:371-378 | the value of the first property of that name |
| `FdtMemory.ReadStringFrom` | solutions/confidential-migvm/src/fdt.rs:456-466 | the value up to its first zero byte, or all of it |
| `FdtMemory.RegRoundTrip` | solutions/confidential-migvm/src/fdt.rs:380-446 | a base and a size encoded in zero, one or two cells each are read back as that region |
| `FdtMemory.NodeCells` | solutions/confidential-migvm/src/fdt.rs:245-265 | the counts after the node's own definitions, each the big-endian word of the last well-sized definition (`LastDefinitionCounts`), otherwise the inherited count |
| `FdtMemory.LastDefinitionCounts` | solutions/confidential-migvm/src/fdt.rs:245-265 | whatever comes before, and whatever other properties follow, a definition of the word `n` makes the count `n` |
| `FdtMemory.FirstValueIsFirst` | solutions/confidential-migvm/src/fdt.rs:371-378 | whatever follows, a lookup finds the value of the first property of the name, and nothing if there is none |
| `FdtMemory.TextEndsAtZero` | solutions/confidential-migvm/src/fdt.rs:456-466 | a text is read back whether a zero byte, and anything after it, follows or not |
| `FdtMemory.NodeRegion` | solutions/confidential-migvm/src/fdt.rs:267-275 | a node contributes a region exactly when its first device_type says memory and it has a readable reg |
| `FdtMemory.ProcessTree` | solutions/confidential-migvm/src/fdt.rs:238-360 | the pass appends the regions of the subtree in document order, with the counts threaded downwards |
| `FdtMemory.ThreadedIsNearest` | solutions/confidential-migvm/src/fdt.rs:238-360 | threading counts as parameters is the same as looking, for every node, for the nearest enclosing definition on its path, 2 if there is none |
| `FdtMemory.ParseMemory` | solutions/confidential-migvm/src/fdt.rs:158-360 | end to end: on every encoding of a device tree the RAM list is that of the tree, by the code's rule for counts |
| `FdtMemory.BanksAreFound` | solutions/confidential-migvm/src/fdt.rs:238-360 | a root that defines counts `a` and `b` over any number of memory nodes, each with a base in `a` cells and a size in `b`, yields exactly those banks, in order, by the code's rule and by the specification's |
| `FdtMemory.CountSpecifiedIff` | solutions/confidential-migvm/src/fdt.rs:238-265 | the code's count for a node is the specified one if and only if its own definition, if any, says the same, and otherwise its parent has one, or what lies above comes down to the default |
| `FdtMemory.FirstPairIff` | solutions/confidential-migvm/src/fdt.rs:269-275 | taking the first pair of a reg is enough if and only if there is no second one |
| `FdtMemory.CountsMatterIff` | solutions/confidential-migvm/src/fdt.rs:380-446 | for counts up to 2, a reg with at most one specified pair is read as specified, whatever it holds, if and only if both counts are the specified ones |
| `FdtMemory.RegionsAsSpecified` | solutions/confidential-migvm/src/fdt.rs:238-360 | on every tree whose memory nodes all meet these conditions the regions are those of the Devicetree Specification v0.4 (sections 2.3.5, 2.3.6 and 3.4): every pair, read with the parent's counts, by default 2 and 1 |
| `FdtMemory.DefaultSizeDiffers` | solutions/confidential-migvm/src/fdt.rs:158-183 | a root without counts over a memory node of one specified pair: the code finds no memory |
| `FdtMemory.SecondPairIsLost` | solutions/confidential-migvm/src/fdt.rs:269-275 | of a reg that lists two banks the code takes the first |
| `RealmMemory.RsiSetAddrRangeState` | solutions/confidential-migvm/src/rsi.rs:149-165 | terminates; Ok means adjacent non-empty steps changed exactly `[start, end)`; an error leaves a prefix changed and is the last answer's own status, 2 for a rejection or 1 for an end out of range; a monitor that always makes progress yields Ok |
| `RealmMemory.ChainCovers` | solutions/confidential-migvm/src/rsi.rs:149-165 | adjacent steps from `a` to `b` cover exactly the addresses between, none of them twice |
| `RealmMemory.AcceptedExactly` | solutions/confidential-migvm/src/mm/mod.rs:82-85 | on 64-bit words the aligned range is exactly the granules wholly inside the region if and only if neither the start nor the end wraps in the two ways below |
| `RealmMemory.StaysInsideIff` | solutions/confidential-migvm/src/mm/mod.rs:82-85 | on 64-bit words the aligned range stays inside the region if and only if it is not the case that rounding up the start wraps while the end does not, or wraps by a granule or more |
| `RealmMemory.StartWrapsWitness` | solutions/confidential-migvm/src/mm/mod.rs:82-85 | a zero-sized region at the top of the address space makes the pass take address 0 for RAM |
| `RealmMemory.CoversAllIff` | solutions/confidential-migvm/src/mm/mod.rs:82-85 | on 64-bit words the aligned range holds every granule wholly inside the region if and only if the end stays below 2^64 or the start rounds up to it |
| `RealmMemory.EndWrapsWitness` | solutions/confidential-migvm/src/mm/mod.rs:82-85 | of a region of two granules at the top of the address space nothing is accepted |
| `RealmMemory.GranuleSpelledOut` | solutions/confidential-migvm/src/mm/mod.rs:82-85 | of the region from 0x1800 to 0x3800 the granule at 0x2000 is accepted and nothing else |
| `RealmMemory.MemoryMap.InitFromFdt` | solutions/confidential-migvm/src/mm/mod.rs:63-73 | the map is the tree's memory as RAM, in order, then the device windows of 12 MiB at 0x08000000 and 4 KiB at 0x09000000 |
| `RealmMemory.MemoryMap.AcceptAllRam` | solutions/confidential-migvm/src/mm/mod.rs:75-96 | against any monitor that never passes the end it was given, only aligned parts of RAM regions change, and all of each but for as many regions as calls failed: a failure does not keep the pass from later regions; a monitor that always makes progress fails none; outside a realm nothing changes |
| `RealmMemory.AcceptDeviceTreeRam` | solutions/confidential-migvm/src/mm/mod.rs:63-96 | from the tree's regions to the monitor: if no region's start wraps, an address changes only if its granule is wholly inside a region; but for one region for each failed call, every such address does, in every region whose end does not wrap |
| `ReaddirPlus.Readdir` | solutions/secafs/cli/src/nfs.rs:473-526 | the entries after the first one carrying the cookie, at most `max_entries`, and `end` exactly when no entry is left out |
| `ReaddirPlus.CommitEntries` | solutions/secafs/cli/src/nfsserve/nfs_handlers.rs:986-1030 | exactly the entries that both budgets admit, encoded one after another after the header |
| `ReaddirPlus.Nfsproc3ReaddirPlus` | solutions/secafs/cli/src/nfsserve/nfs_handlers.rs:964-1046 | the reply is the header, the page's entries one after another, four zero bytes, and eof as the word 1 or 0, with `maxcount - 128` wrapping as the code computes it |
| `ReaddirPlus.PageIsNextRun` | solutions/secafs/cli/src/nfsserve/nfs_handlers.rs:964-1046 | a page is the longest run of the directory from the resume point for which 20 bytes an entry and the names stay below dircount and header, encoded entries and 128 bytes stay below maxcount; the estimate of dircount / 16 never cuts it shorter, and eof if and only if the run reaches the end |
| `ReaddirPlus.EncodedJoins` | solutions/secafs/cli/src/nfsserve/nfs_handlers.rs:1008-1030 | the bytes of a run are those of its parts in order, and of one entry its encoding |
| `ReaddirPlus.ResumeIff` | solutions/secafs/cli/src/nfs.rs:493-509 | an entry's cookie resumes just after it if and only if its id is not 0 and no earlier entry carries it |
| `ReaddirPlus.HardLinkRepeats` | solutions/secafs/cli/src/nfs.rs:493-509 | a directory with two names of one file, and page sizes for which the walk lists two of its entries twice |
| `ReaddirPlus.ReplyWithinMaxcount` | solutions/secafs/cli/src/nfsserve/nfs_handlers.rs:964-1040 | with `maxcount >= 128` a reply carrying entries stays more than 120 bytes below `maxcount` |
| `ReaddirPlus.NextPageContinues` | solutions/secafs/cli/src/nfsserve/nfs_handlers.rs:986-998 | where every entry but the last can be followed, the last cookie of a page without eof resumes where the page ended |
| `ReaddirPlus.WalkFrom` | solutions/secafs/cli/src/nfsserve/nfs_handlers.rs:964-1046 | where every entry but the last can be followed, from any cookie, a client choosing new sizes for every call lists a run of the directory, and sees eof if and only if that run reaches the end |
| `ReaddirPlus.ListsInOrderIff` | solutions/secafs/cli/src/nfsserve/nfs_handlers.rs:964-1046 | for every encoding, a client following cookies lists the directory in order and without repeats, whatever sizes it chooses, if and only if every entry but the last has an id that is not 0 and that no earlier entry carries |
| `ReaddirPlus.BadCookieRepeats` | solutions/secafs/cli/src/nfsserve/nfs_handlers.rs:964-1046 | at any other entry, a page that ends with it and a page to the end list more than the directory holds |
| `ReaddirPlus.WalkReachesEnd` | solutions/secafs/cli/src/nfsserve/nfs_handlers.rs:964-1046 | a walk whose pages each commit an entry reaches eof within as many calls as entries remain |
| `ReaddirPlus.WalkListsDirectory` | solutions/secafs/cli/src/nfsserve/nfs_handlers.rs:964-1046 | section 3.3.17 of RFC 1813 for such directories: following cookies lists every entry once, in order; pages that each commit an entry get to the end within as many calls as entries |
| `Tpm.WaitForStatus` | solutions/kunpeng_tpm/src/tpm_driver_cmd.c:48-67 | success if and only if the register, over a working bus, shows the wanted bits within the timeout; reading stops at the first read that shows them |
| `Tpm.CheckSendCmdStatus` | solutions/kunpeng_tpm/src/tpm_driver_cmd.c:69-86 | over a working bus, success if and only if the chip says it is ready in one of 2000 tries, and it is then idle; against a compliant chip success always leaves it idle with an empty FIFO |
| `Tpm.ReleaseLocality` | solutions/kunpeng_tpm/src/tpm_driver_cmd.c:106-116 | one write of the release, then only reads of that access register, up to the first that shows it valid and inactive or 750000 of them; over a working bus the owner's chip is free afterwards |
| `Tpm.ReleaseAllLocalities` | solutions/kunpeng_tpm/src/tpm_driver_cmd.c:118-129 | over a working bus a compliant chip is taken from its owner if and only if that is one of five localities and its register, read in turn, shows it as active; nothing else about the chip changes |
| `Tpm.RequestLocalityStart` | solutions/kunpeng_tpm/src/tpm_driver_cmd.c:148-170 | on success the last write to an access register was the request, and a compliant chip is owned by the locality; a chip that becomes active in one of any ten waits becomes ours if it is free, ours already, or shows which locality failed to give it back |
| `Tpm.GetBurstCount` | solutions/kunpeng_tpm/src/tpm_driver_cmd.c:172-199 | over a working bus, success if and only if bytes 1 and 2 of the status register give a non-zero count in one of 750000 polls; the result is that count, and its four reads are the last accesses of the call |
| `Tpm.WriteFifoBytes` | solutions/kunpeng_tpm/src/tpm_driver_cmd.c:7-21 | bytes go over the bus one after another and arrive in order; a failure leaves a prefix delivered |
| `Tpm.SendBurst` | solutions/kunpeng_tpm/src/tpm_driver_cmd.c:222-236 | one chunk: its status reads and its writes follow each other in the log; on success it is as large as the room, the count read and 64 allow, and never larger than the count and 64 |
| `Tpm.SendBursts` | solutions/kunpeng_tpm/src/tpm_driver_cmd.c:201-246 | whatever happens, the chunks tile the bytes that went over the bus in order, and the log shows each right after the four status reads whose burst count, given the bytes before, it fits; success means all but the last byte; never fails against a responsive chip |
| `Tpm.SendCmdData` | solutions/kunpeng_tpm/src/tpm_driver_cmd.c:201-258 | for every chip what arrived is a prefix of the buffer, and all but its last byte went out in such chunks; success ends with the start of the command and, against a compliant chip, means exactly the bytes of the declared length arrived, and the command that starts is that one |
| `Tpm.NothingMissing` | solutions/kunpeng_tpm/src/tpm_driver_cmd.c:248-254 | a compliant chip that has the header and no longer expects data has the whole command |
| `Tpm.ReadFifoBytes` | solutions/kunpeng_tpm/src/tpm_driver_cmd.c:23-38 | consecutive bytes of the response, nothing written outside the window |
| `Tpm.RecvBurst` | solutions/kunpeng_tpm/src/tpm_driver_cmd.c:274-292 | one burst: the four status reads and the FIFO reads follow each other as the last accesses of the call, on success exactly as many as the room, the count read and 64 allow |
| `Tpm.RecvData` | solutions/kunpeng_tpm/src/tpm_driver_cmd.c:260-294 | the window starts with consecutive response bytes, fewer than asked if the chip stalls, and nothing outside it changes |
| `Tpm.RecvCmdData` | solutions/kunpeng_tpm/src/tpm_driver_cmd.c:297-349 | success means the buffer holds exactly the response up to the length its header declares, in [10, 4096], and nothing new after it; a stall is an error |
| `Tpm.TransferCmdData` | solutions/kunpeng_tpm/src/tpm_driver_cmd.c:351-404 | one command, exactly the one at the front of the buffer, and exactly its response; on every path the last write to an access register gives the locality back, and on success the command was started between its request and its return with no such write in between; a responsive chip ends idle and free |
| `Tpm.TpmCmdTransmit` | solutions/kunpeng_tpm/src/tpm_driver_cmd.c:406-435 | for every compliant chip, bus and timing: success means the chip started exactly the declared command and the caller's buffer holds exactly its response; wrong lengths are refused before anything is touched; and it succeeds against every chip that gets on within the driver's own limits, however slowly: activity in one of ten waits of 750000 reads, readiness in 2000 tries, a burst count in 750000 polls, a response in 300000000 reads; whoever left the chip claimed, as long as it shows |
| `Tpm.PlainDeviceQualifies` | solutions/kunpeng_tpm/src/tpm_driver_cmd.c:406-435 | a chip that is compliant and responsive exists, so both promises can be relied on together |
| `Virtqueue.SlotsSeparateIff` | solutions/confidential-migvm/src/virtio/net.rs:178-198 | `num` consecutive elements always have different slots if and only if `num` divides 2^16 |
| `Virtqueue.QueueOfThreeCollides` | solutions/confidential-migvm/src/virtio/net.rs:178-198 | for a queue of three the elements around an index wrap share a slot |
| `Virtqueue.Ring.Put` | solutions/confidential-migvm/src/virtio/net.rs:178-186 | with at most `num` outstanding, publishing appends to an unbounded queue |
| `Virtqueue.Ring.Get` | solutions/confidential-migvm/src/virtio/net.rs:188-198 | taking gives the oldest element not yet taken, and none if and only if all were taken, across any number of wraps |
| `Virtqueue.VirtQueue.AvailAdd` | solutions/confidential-migvm/src/virtio/net.rs:178-186 | the driver's ring gains exactly the head; the used ring is untouched |
| `Virtqueue.VirtQueue.GetUsedBuf` | solutions/confidential-migvm/src/virtio/net.rs:188-198 | the driver gets the oldest returned buffer, once |
| `Virtqueue.DeliversAlikeIff` | solutions/confidential-migvm/src/virtio/net.rs:178-198 | a ring of `num` slots delivers what a plain queue does, in every run with at most `num` elements outstanding, if and only if `num` divides 2^16 |
| `Virtqueue.WrongElement` | solutions/confidential-migvm/src/virtio/net.rs:178-198 | for any other size there is a run across the index wrap that delivers a newer element for the oldest one |
| `Virtqueue.RunQueue` | solutions/confidential-migvm/src/virtio/net.rs:178-198 | every interleaving of driver and device steps, of any length, delivers what two plain queues would (section 2.6 of VIRTIO 1.1) |
| `Virtqueue.ModernLayoutSound` | solutions/confidential-migvm/src/virtio/net.rs:122-143 | for every queue size the three areas are aligned, and every descriptor, available entry `i` at 4 + 2i and used entry `i` at 4 + 8i ends before the next area or the end of the allocation, which is no larger than alignment and whole pages require |
| `Vsock.NeverTwiceIff` | solutions/confidential-migvm/src/virtio/vsock.rs:106-114 | the free chain never hands out a descriptor twice if and only if the queue has at least two, which is what device setup (lines 246-250) insists on |
| `Vsock.VsockVirtQueue.AllocDescHead` | solutions/confidential-migvm/src/virtio/vsock.rs:161-169 | a descriptor never handed out before, and none if and only if `num - 1` are gone |
| `Vsock.VsockVirtQueue.SetupDesc` | solutions/confidential-migvm/src/virtio/vsock.rs:171-180 | rewriting a handed-out descriptor's link touches no free one |
| `Vsock.VsockVirtQueue.AvailAdd` | solutions/confidential-migvm/src/virtio/vsock.rs:139-147 | publishing appends and overwrites no published slot |
| `Vsock.VsockDevice.SubmitRxBuf` | solutions/confidential-migvm/src/virtio/vsock.rs:295-306 | exactly one descriptor is added while there are any, none afterwards |
| `Vsock.VsockDevice.Connect` | solutions/confidential-migvm/src/virtio/vsock.rs:308-377 | one transmit descriptor is used if there is one, and for receiving one, or two once the peer has consumed the request, as far as there are any; success if and only if the peer consumed the request and answered with a response |
| `Vsock.VsockDevice.Send` | solutions/confidential-migvm/src/virtio/vsock.rs:379-438 | a packet goes out as header and payload linked in two new descriptors, or nothing is added to the ring |
| `Vsock.VsockDevice.Recv` | solutions/confidential-migvm/src/virtio/vsock.rs:440-475 | one descriptor is added while connected and available; the connection ends exactly on shutdown or reset |
| `Vsock.Run` | solutions/confidential-migvm/src/virtio/vsock.rs:295-475 | over any run of connect, send and recv: no descriptor twice, at most `num - 1` per queue, every published head still in its slot, nothing more once descriptors are gone |
| `Vsock.ValidIsSound` | solutions/confidential-migvm/src/virtio/vsock.rs:139-180 | what the queue's invariant means: distinct descriptors, bounded count, no slot overwritten |
| `DmaPool.RunKeeps` | solutions/confidential-migvm/src/virtio/mod.rs:50-63 | under any interleaving whose requests total less than 2^64 bytes, claims and grants never overlap and lie below the offset |
| `DmaPool.GrantsAreDisjoint` | solutions/confidential-migvm/src/virtio/mod.rs:43-63 | the ranges handed out in such a run are pairwise disjoint and inside the pool |
| `DmaPool.OffsetIsTaken` | solutions/confidential-migvm/src/virtio/mod.rs:50-56 | the offset is exactly the bytes claimed so far, granted or not |
| `DmaPool.GrantedIff` | solutions/confidential-migvm/src/virtio/mod.rs:50-63 | whatever other threads do between an allocation's two steps, it is granted if and only if the bytes claimed before it and its own fit the pool, and then gets the range right after them |
| `DmaPool.WrappedRequestIsGranted` | solutions/confidential-migvm/src/virtio/mod.rs:50-63 | two requests of 2^64 bytes in all wrap the offset, and a range running past the pool is granted |
| `DmaPool.GrantsSoundIff` | solutions/confidential-migvm/src/virtio/mod.rs:43-63 | callers asking for at most `budget` bytes in all get disjoint ranges inside every pool, in every interleaving, if and only if `budget` is below 2^64 |
| `DmaPool.FinishEffect` | solutions/confidential-migvm/src/virtio/mod.rs:53-63 | a claim within the pool becomes a grant of exactly that range, any other is dropped |
| `TransactionTracker.Tracker.Housekeeping` | solutions/secafs/cli/src/nfsserve/transaction_tracker.rs:52-58 | exactly the entries completed before the cutoff are dropped |
| `TransactionTracker.Tracker.IsRetransmission` | solutions/secafs/cli/src/nfsserve/transaction_tracker.rs:23-37 | true if and only if the call is still known after housekeeping; otherwise it is entered as in progress |
| `TransactionTracker.MarkedIsRemembered` | solutions/secafs/cli/src/nfsserve/transaction_tracker.rs:39-58 | a call marked as processed is recognised until the retention period after its completion is over, and not afterwards; an unknown call stays unknown, and no other call is affected |
| `TransactionTracker.RunKeeps` | solutions/secafs/cli/src/nfsserve/rpcwire.rs:50-91 | the invariant tying table, handlers and history together, in every interleaving of arrivals, completions, abandoned tasks and time |
| `TransactionTracker.NeverTwoHandlers` | solutions/secafs/cli/src/nfsserve/rpcwire.rs:50-91 | in every interleaving one (xid, client) never has two handlers |
| `TransactionTracker.SecondExecutionIsLate` | solutions/secafs/cli/src/nfsserve/transaction_tracker.rs:23-58 | between two executions of one (xid, client) the first finished, and the second started more than the retention period later |
| `TransactionTracker.ArrivalRunsIff` | solutions/secafs/cli/src/nfsserve/rpcwire.rs:50-91 | a call runs on arrival if and only if no handler has it and its last execution, if any, finished longer than the retention period ago |
| `RecordMarking.SocketMessageHandler.ReadExact` | solutions/secafs/cli/src/nfsserve/rpcwire.rs:116-135 | exactly `n` bytes, or failure if and only if fewer are left |
| `RecordMarking.SocketMessageHandler.Read` | solutions/secafs/cli/src/nfsserve/rpcwire.rs:189-217 | one fragment is appended; a last fragment hands on the whole record and clears the buffer |
| `RecordMarking.SocketMessageHandler.ReadLoop` | solutions/secafs/cli/src/nfsserve/rpcwire.rs:189-217 | reading until the stream ends delivers `ReadAll` of it |
| `RecordMarking.WriteFragment` | solutions/secafs/cli/src/nfsserve/rpcwire.rs:137-150 | output reads back as the one record given; refused if and only if the buffer has 2^31 bytes or more |
| `RecordMarking.FragmentSpelledOut` | solutions/secafs/cli/src/nfsserve/rpcwire.rs:116-150 | the bytes of a one-byte record, and of a one-byte fragment that is not the last |
| `RecordMarking.ReadsRecord` | solutions/secafs/cli/src/nfsserve/rpcwire.rs:116-135 | however a record is split into fragments, reading yields the joined record and goes on after it |
| `RecordMarking.ReadsStream` | solutions/secafs/cli/src/nfsserve/rpcwire.rs:189-217 | for any messages and any splits (section 11 of RFC 5531) exactly those messages are delivered, in order |
| `RecordMarking.CutRecordsDeliverPrefix` | solutions/secafs/cli/src/nfsserve/rpcwire.rs:189-217 | a stream cut anywhere delivers a prefix of the messages, never part of one, and all of them if the cut is at the end |
| `NfsPermissions.GrantedByDigit` | solutions/secafs/cli/src/nfsserve/permissions.rs:44-81 | access is granted to root, and otherwise if and only if the octal digit of the caller's one class contains the permission |
| `NfsPermissions.ChecksMean` | solutions/secafs/cli/src/nfsserve/permissions.rs:84-170 | writing takes the write bit of the caller's digit, modifying a directory write and execute, and sticky is the lowest bit of the top digit |
| `NfsSetattr.Vfs.SetattrSteps` | solutions/secafs/cli/src/nfs.rs:174-231 | mode, owner and group, size, times in this order, each with the times it touches, up to the first step that fails |
| `NfsSetattr.Vfs.Nfsproc3Setattr` | solutions/secafs/cli/src/nfsserve/nfs_handlers.rs:1672-1860 | checks, rewriting and update of one file; a guard that does not match adds a NOT_SYNC status but does not stop the update |
| `NfsSetattr.Vfs.Nfsproc3Write` | solutions/secafs/cli/src/nfsserve/nfs_handlers.rs:1296-1366 | `AfterWrite` on the file and nothing else; `WriteAnsweredIff` says who may write and what changes |
| `NfsSetattr.WriteAnsweredIff` | solutions/secafs/cli/src/nfsserve/nfs_handlers.rs:1296-1366 | where nothing fails below, WRITE is answered with OK if and only if the caller is root or its digit of the mode holds the write permission, otherwise with ACCES and nothing changes; it sets size and mtime if there is data and clears the set-id bits for callers other than root |
| `NfsSetattr.SetIdBitsAre` | solutions/secafs/cli/src/nfsserve/nfs_handlers.rs:1331-1343 | set-user-id and set-group-id are the upper two bits of the top digit of the mode |
| `NfsSetattr.FailedStepKeepsEarlier` | solutions/secafs/cli/src/nfs.rs:174-231 | a failing chmod, chown, truncate or utimens leaves the earlier steps done, with their times, and the later ones undone |
| `NfsSetattr.MismatchedGuardKeepsIff` | solutions/secafs/cli/src/nfsserve/nfs_handlers.rs:1829-1841 | where nothing fails below, a SETATTR whose guard does not match leaves the file, its times included, unchanged if and only if it is refused or asks for nothing; once the clock has moved on since the last change, that means an empty request |
| `NfsSetattr.MismatchedGuardWitness` | solutions/secafs/cli/src/nfsserve/nfs_handlers.rs:1829-1860 | root's chmod under a guard that does not match is answered with NOT_SYNC and OK, and changes the mode |
| `NfsSetattr.SetattrLawful` | solutions/secafs/cli/src/nfsserve/nfs_handlers.rs:1672-1841 | one SETATTR by a caller that is not root, whichever step fails: owner unchanged, group changed only by the owner to a group of its own, mode changed by others only by dropping set-id bits |
| `NfsSetattr.WriteLawful` | solutions/secafs/cli/src/nfsserve/nfs_handlers.rs:1331-1343 | the same for one WRITE |
| `NfsSetattr.WriteClearsSetId` | solutions/secafs/cli/src/nfsserve/nfs_handlers.rs:1331-1343 | after a WRITE by a caller that is not root and is answered with OK no set-id bit is left, if and only if there was none or the update clearing it did not fail; the answer does not tell |
| `NfsSetattr.SetGroupIdNeedsMembership` | solutions/secafs/cli/src/nfsserve/nfs_handlers.rs:1803-1816 | a caller that is not root sets the set-group-id bit anew only for a group it belongs to |
| `NfsSetattr.SetattrTakesEffect` | solutions/secafs/cli/src/nfsserve/nfs_handlers.rs:1672-1860 | a successful SETATTR leaves owner, group, size, times and mode as asked, with exactly the two exceptions for set-id bits |
| `NfsSetattr.SetattrRefusedIff` | solutions/secafs/cli/src/nfsserve/nfs_handlers.rs:1672-1801 | where nothing fails below, SETATTR is refused if and only if it asks for a new size without the write bit of the caller's digit (ACCES), or for another owner, a group the caller is not in, or mode, group or explicit times of a file it does not own (PERM); root never is |
| `NfsSetattr.RunLawful` | solutions/secafs/cli/src/nfsserve/nfs_handlers.rs:1264-1860 | in every serial run of WRITE and SETATTR by callers that are not root: no owner changes, a changed group was set by the owner from its credentials, and a file its owner did not touch only lost set-id bits |
| `NfsSetattr.EveryCallLawful` | solutions/secafs/cli/src/nfsserve/nfs_handlers.rs:1264-1860 | each call of such a run is lawful against the attributes it found and touches no other file |
| `NfsSticky.Server.VfsRemove` | solutions/secafs/cli/src/nfs.rs:409-431 | the store's two ways of deleting, with their refusals (roots, non-empty directories, kinds) |
| `NfsSticky.Server.VfsRename` | solutions/secafs/sdk/rust/src/filesystem/secafs.rs:3611-3781 | first the target row is deleted, then the source row moved, or nothing happens |
| `NfsSticky.Server.Nfsproc3Remove` | solutions/secafs/cli/src/nfsserve/nfs_handlers.rs:1918-2000 | sticky check on what lookup and getattr show, the plain directory check when they fail, then the removal |
| `NfsSticky.Server.Nfsproc3Rename` | solutions/secafs/cli/src/nfsserve/nfs_handlers.rs:2076-2257 | both checks, the rule for moving subdirectories, then the rename |
| `NfsSticky.RemoveLawfulIff` | solutions/secafs/cli/src/nfsserve/nfs_handlers.rs:1935-1951 | REMOVE respects sticky directories on every file system if and only if the caller is root, the store refuses, or the check looks at the entry or its directory: the stat succeeds and the name is not ".." outside the root |
| `NfsSticky.RenameLawfulIff` | solutions/secafs/cli/src/nfsserve/nfs_handlers.rs:2111-2217 | for all names RENAME keeps both laws on every file system if and only if the caller is root, the store refuses, or the checks protect both entries: within a directory one check of the directory (".", or ".." of the root) or one of each entry (either, for an entry renamed onto itself); between directories one of the source entry and one of the target entry or its directory |
| `NfsSticky.DotNameIsMisread` | solutions/secafs/cli/src/nfsserve/nfs_handlers.rs:2111-2138 | the name "." is checked against the directory, so its owner moves another user's subdirectory away |
| `NfsSticky.RenameArrivesIff` | solutions/secafs/sdk/rust/src/filesystem/secafs.rs:3640-3697 | a completed rename leaves the source under the new name if and only if the names differ; onto itself it deletes the entry |
| `NfsSticky.RemoveSucceedsIff` | solutions/secafs/cli/src/nfsserve/nfs_handlers.rs:1918-2000 | where nothing fails, an entry of any kind is removed if and only if the caller is root or its digit of the directory's mode holds write and execute, and, if that is sticky, is root or owns the directory or the entry, and a directory is empty and not the root; others are told ACCES; only the entry goes, and its inode if no other entry names it |
| `NfsSticky.RenameSucceedsIff` | solutions/secafs/cli/src/nfsserve/nfs_handlers.rs:2076-2257 | where nothing fails, an entry of any kind is renamed to another name, taken or not, if and only if both directories grant write and execute, the sticky rule holds for the entry and the one it replaces, a subdirectory leaves a sticky parent only with its owner, and the target is of the same kind and, as a directory, empty; others are told ACCES |
| `NfsSticky.AnswersMean` | solutions/secafs/cli/src/nfsserve/nfs_handlers.rs:1918-2257 | NOENT if and only if a directory is missing; a refusal changes nothing; a call that changed anything is answered with OK if and only if the store did not fail afterwards |
| `NfsSticky.EveryCallLawful` | solutions/secafs/cli/src/nfsserve/nfs_handlers.rs:1935-2217 | in every run each call guarded in that sense makes entries leave or be replaced in sticky directories only for root, the directory's owner or the entry's owner, and moves subdirectories out of sticky parents only for their owner |
| `NfsSticky.EntryStays` | solutions/secafs/cli/src/nfsserve/nfs_handlers.rs:1935-2217 | in every run an entry of a sticky directory stays, with its owners, as long as no caller is root or one of the two owners and the stats of calls naming it succeed |
| `FuseSession.ReplyRaw.Consume` | solutions/secafs/cli/src/fuser/reply.rs:67-99 | whatever use ends the object's life, answer, error, error 0 or drop, the kernel gets exactly one reply under its id; `ReplySays` says what it holds |
| `FuseSession.ReplyRaw.Destruct` | solutions/secafs/cli/src/fuser/reply.rs:89-99 | an unused object sends EIO, a used one nothing |
| `FuseSession.Session.DispatchReq` | solutions/secafs/cli/src/fuser/request.rs:68-608 | filter, phases and hand-over of one request |
| `FuseSession.Session.Dispatch` | solutions/secafs/cli/src/fuser/request.rs:52-67 | the response or error of a request is sent under its id, unless a reply object took over |
| `FuseSession.Session.Serve` | solutions/secafs/cli/src/fuser/session.rs:148-176 | the loop, with other threads using kept reply objects in between, follows the state machine |
| `FuseSession.RepliesBalance` | solutions/secafs/cli/src/fuser/request.rs:52-174 | in every run, counted with multiplicity: ids replied to plus ids of kept reply objects are exactly the ids owed a reply |
| `FuseSession.OneReplyEach` | solutions/secafs/cli/src/fuser/reply.rs:67-99 | with ids numbered apart each received request has one reply or one kept object, never both or two; a FORGET the file system got has neither |
| `FuseSession.ReplySays` | solutions/secafs/cli/src/fuser/reply.rs:67-99 | in every run with ids numbered apart: what the file system answers a request with, now or later, is what the kernel is told under its id, an error code as that code, a dropped object or code 0 as EIO (5), and nothing else under that id |
| `FuseSession.RunKeeps` | solutions/secafs/cli/src/fuser/request.rs:121-174 | in every run methods other than init and destroy run only after init and before destroy and only for admitted users, and destroy has run once the session is dropped |
| `FuseSession.MethodRunsIff` | solutions/secafs/cli/src/fuser/request.rs:68-174 | a request reaches a method if and only if the session is active and the request is admitted and supported |
| `FuseSession.AdmittedByUid` | solutions/secafs/cli/src/fuser/request.rs:68-120 | by user ids: everybody in an open session, the owner, root where it is let in, and anybody for the nine operations the kernel sends on its own account; nobody for the four unsupported ones |
| `FuseSession.RefusalsSay` | solutions/secafs/cli/src/fuser/request.rs:68-185 | unknown and unsupported operations are told 38, users not admitted 13, operations outside the active phase 5, versions before 7.6 71, and nothing else happens |
| `FuseSession.PanicEnds` | solutions/secafs/cli/src/fuser/reply.rs:67-99 | a request ends the session if and only if its method panics or answers with error 0; it leaves a reply object behind if and only if the method kept it |
| `FuseSession.InitSucceedsIff` | solutions/secafs/cli/src/fuser/request.rs:121-158 | INIT initialises the session if and only if the version is 7.6 or later and the file system agrees, whoever asks; its answer in every case |
| `FuseSession.DestroyRuns` | solutions/secafs/cli/src/fuser/request.rs:159-164 | in an initialised session DESTROY runs the method, whoever asks, and is answered without an error |
| `FuseReaddir.DbRoundTripIff` | solutions/secafs/cli/src/fuse.rs:1129-1148 | a listed inode leads back to its database inode if and only if it is not inode 1 under another root |
| `FuseReaddir.KernelRoundTripIff` | solutions/secafs/cli/src/fuse.rs:1129-1148 | a kernel inode survives the way there and back if and only if it is not the number of a root other than 1, and no listing hands that number out |
| `FuseReaddir.EntSize` | solutions/secafs/cli/src/fuser/ll/reply.rs:369-371 | an entry takes the fewest whole 64-bit words that hold header and name |
| `FuseReaddir.EntrySizesSpelledOut` | solutions/secafs/cli/src/fuser/ll/reply.rs:369-371 | eight bytes of name make 32 bytes, or 160 with attributes, and a ninth eight more |
| `FuseReaddir.EntListBuf.Push` | solutions/secafs/cli/src/fuser/ll/reply.rs:369-380 | an entry is added exactly when it fits after padding |
| `FuseReaddir.Readdir` | solutions/secafs/cli/src/fuse.rs:353-409 | the longest run of the whole list from the offset that fits the buffer; a negative offset wraps and lists nothing |
| `FuseReaddir.Readdirplus` | solutions/secafs/cli/src/fuse.rs:417-522 | the longest run that fits of what lies beyond the offset, dot entries only where attributes were found |
| `FuseReaddir.SameList` | solutions/secafs/cli/src/fuse.rs:353-522 | both calls page through the same list if and only if the directory is not addressed by the number of a root other than 1 |
| `FuseReaddir.PlusPageIsWalkPage` | solutions/secafs/cli/src/fuse.rs:473-522 | the entries beyond an offset are the rest of the list from that position |
| `FuseReaddir.WalkFrom` | solutions/secafs/cli/src/fuse.rs:353-522 | for all buffer sizes, resuming from the last offset lists a run of the list without gaps or repeats |
| `FuseReaddir.FillsOne` | solutions/secafs/cli/src/fuser/ll/reply.rs:369-380 | a page holds an entry if and only if the next one fits by itself |
| `FuseReaddir.WalkReachesEnd` | solutions/secafs/cli/src/fuse.rs:353-522 | when each page holds an entry, as many calls as entries reach the end |
| `FuseReaddir.WalksListDirectory` | solutions/secafs/cli/src/fuse.rs:353-522 | both calls list ".", ".." and every row by its name, once, in order and alike, each with an inode that leads back to it but for inode 1 under another root |
| `Trng.FinalizeIsBijective` | solutions/confidential-migvm/src/trng.rs:130-135 | the xor-shift and multiply finalizer has a two-sided inverse |
| `Trng.KnownOutputs` | solutions/confidential-migvm/src/trng.rs:130-135 | the first two outputs of splitmix64 as published |
| `Trng.SeedIsOdd` | solutions/confidential-migvm/src/trng.rs:120-129 | a zero state is replaced by the counter made odd, any other is kept |
| `Trng.CloserAllTheTime` | solutions/confidential-migvm/src/trng.rs:120-129 | while the stored state is not zero, every call brings it one step closer to zero, so no state comes twice |
| `Trng.OutputsDistinct` | solutions/confidential-migvm/src/trng.rs:120-136 | the outputs of any run are pairwise distinct if no stored state but perhaps the last is zero |
| `Trng.ZeroStateRepeats` | solutions/confidential-migvm/src/trng.rs:120-129 | after a zero state, a counter reading minus the step repeats the output |
| `Trng.DistinctIff` | solutions/confidential-migvm/src/trng.rs:120-136 | from a given state, any `n` calls give pairwise distinct outputs, whatever the counter reads, if and only if `n` is at most 1 or none of the first `n` states counted from it is zero |
| `Trng.Rng.FallbackRand` | solutions/confidential-migvm/src/trng.rs:120-136 | one step of the state, seeded from the counter when zero, and its finalized value |
| `Trng.Rng.RandU64` | solutions/confidential-migvm/src/trng.rs:142-157 | one word is drawn: the first of eight reseeding reads that answers, else the plain read, else the fallback's, and the stored state moves only for the fallback |
| `Trng.Rng.FillRandom` | solutions/confidential-migvm/src/trng.rs:159-171 | every byte of the buffer is the matching little-endian byte of the words drawn, in order, with as many words as needed |
| `Trng.LeBytesMakeWord` | solutions/confidential-migvm/src/trng.rs:159-171 | the eight little-endian bytes of a word make up the word |
| `DaemonPipe.SignalParent` | solutions/secafs/cli/src/daemon.rs:115-153 | for every schedule of partial, interrupted and failing writes: success means the whole message was written, failure a proper part of it; interruptions alone never fail it |
| `DaemonPipe.ReadExact` | solutions/secafs/cli/src/daemon.rs:191-217 | exactly `n` bytes in order, or nothing if and only if fewer ever arrive, for every schedule without failing reads |
| `DaemonPipe.WaitForSignal` | solutions/secafs/cli/src/daemon.rs:159-188 | what the whole stream says, however it is cut into reads; failing reads never turn into a start |
| `DaemonPipe.RoundTrip` | solutions/secafs/cli/src/daemon.rs:115-188 | a delivered message means what was signalled, cut to 4096 bytes, with the default text if empty |
| `DaemonPipe.MessagesSpelledOut` | solutions/secafs/cli/src/daemon.rs:115-188 | the bytes of the messages; a text of at most 4096 bytes arrives whole, a longer one as its first 4096 bytes, an empty one as the default text |
| `DaemonPipe.StreamMeans` | solutions/secafs/cli/src/daemon.rs:159-188 | for any bytes: only a zero status is a start; otherwise the text is as long as announced, 4096 bytes at most, and the default unless all of it arrives |
| `DaemonPipe.PartIsNoStart` | solutions/secafs/cli/src/daemon.rs:159-188 | any proper part of a message yields one of the two standard texts |
| `DaemonPipe.StartedIff` | solutions/secafs/cli/src/daemon.rs:115-188 | the parent reports a start if and only if the child signalled one and all of it arrived |
| `DaemonPipe.Handshake` | solutions/secafs/cli/src/daemon.rs:70-109 | child and parent over one pipe, with the child dying after any number of bytes |

## Left out

- Device tree: the header and `FdtParser::new`, the virtio, GIC, PCIe and timer fields that `process_tree` fills in besides memory, and the 32-bit overflow of cell sums. On malformed blocks the code may read outside them; the model answers `Fault` there and says nothing more.
- FdtMemory.ParseReg: cell counts above 2 read as 0, as in the code, and the sum of the two counts does not wrap in the model.
- Fdt.ParseUndoesEncode: for encodings that begin with the root; `LeadingNopsIff` says why.
- READDIRPLUS: the permission and error paths before the listing, and plain READDIR, which ignores its cookie and so has no paging property. Attributes and file handles are inside an opaque entry encoder.
- ReaddirPlus.WalkListsDirectory: for directories whose entries but the last can be followed; `ListsInOrderIff` says why. Page sizes are not bounded by 32 bits.
- FdtMemory.RegionsAsSpecified: one direction; two lists of regions may also agree by coincidence.
- FdtMemory.CountsMatterIff: for counts up to 2; larger ones read as 0 either way.
- TPM: seizing a locality, delays between polls, the chip id read, SPI and GPIO registers. A failing bus access may have had its effect all the same, which the model allows.
- Tpm.TpmCmdTransmit: for chips that keep the profile's rules on Expect, data-available and command-ready; for other chips only the unconditional clauses of `SendCmdData` and `RecvData` hold.
- Virtqueues: the legacy layout, MMIO and PCI transports, memory barriers (index and ring updates are atomic steps), packet contents and the network device's buffer recycling.
- Virtqueue.RunQueue: for queue sizes that divide 2^16; `DeliversAlikeIff` says why.
- Vsock: timeouts of the waiting loops and packet headers; the peer's answers are parameters.
- DmaPool: the page allocator used outside shared mode, and freeing, which does nothing in shared mode.
- DmaPool.GrantsAreDisjoint: for runs that ask for less than 2^64 bytes in all; `GrantsSoundIff` says why.
- Duplicate suppression: the replies themselves (the tracker does not keep them) and RPC authentication.
- Record marking: the channel between reader and worker tasks; messages are delivered in the order they are completed.
- ACCESS (`compute_access`): a bit-by-bit use of the same permission predicates.
- NfsSticky.EntryStays: for names other than "..".
- NFS handlers run one after another; check-then-act races between them are not modelled. SETATTR and WRITE see one reading of the clock per call. The times that REMOVE and RENAME touch, and names that are not UTF-8, which every operation refuses, are not modelled. CREATE, MKDIR, LINK and the other procedures are not part of this model.
- FUSE session: operations behind the abi-7-xx features, which this build does not enable (READDIRPLUS dispatch and COPY_FILE_RANGE among them), macOS operations, notifications, and a panic inside `init`, `destroy` or `forget`, which have no reply object. Payloads of replies are opaque.
- FUSE directory paging: errors of the underlying listing and the open-file table; `dir` and `parent` of `Readdirplus` are what the two getattr calls found.
- FuseReaddir.WalksListDirectory: for successful getattr calls and buffers that each hold the next entry.
- Random source: the probe of the hardware instructions and `init`; concurrent calls of the fallback, whose load and store are separate atomics.
- Trng.OutputsDistinct: for runs without a zero state before the last; `DistinctIff` says why.
- Daemon: forking, the readiness check and the conversion of the text to UTF-8; `Text` holds the bytes before it.
- Page tables, PCI probing, shared-buffer marking, timers, the SecAFS database, overlay and snapshots, the CLI, the MCP server and the RATS-TLS interface: not part of this model.
