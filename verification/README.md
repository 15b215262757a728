# A verified model of Hexabus

Hexabus is a home-automation system. The project models five of its parts in Dafny and proves what they promise:

- **Coffee**, the flash file system of the firmware. The lower layer is the page layout: the walk over the headers,
  garbage collection and allocation (`CoffeeLayout`, `CoffeeGc`, `CoffeeAlloc`, `CoffeeStorage`). The upper layer is
  files, micro logs and descriptors (`CoffeeLog`, `CoffeeSearch`, `CoffeeFiles`, `CoffeeUpdates`, `CoffeeFs`).
  `CoffeeDisk` reads the files off a flash and shows what the lower layer does to them.
- **The Hexabus compiler**, between its parser and its output: the graph of all state machines (`HbcGraph`,
  `HbcBuilder`), a copy of a machine for each device (`HbcTransformation`), the deletion of the writes to other devices
  (`HbcSlicing`), the splitting of OR conditions (`HbcConditions`) and of command blocks (`HbcWrites`), all together
  (`HbcSimplification`), and where every write of the program ends up (`HbcDelivery`).
- **Addresses** of the network configuration: networks, summaries, canonical lists, exclusion, subnets (`PowersOfTwo`,
  `Networks`, `Summarize`, `Collapse`, `Exclude`, `Subnetting`) and IPv6 text (`Text`, `Ipv6Text`, `Ipv6Print`).
- **Flashing** a device over a serial line: the sender, the boot loader, the flash and the CRC over the image
  (`Flashing`, `ImageCrc`).
- **The tunnel and the query queue**: SLIP framing (`Slip`), the checks on IP packets and the rewriting of their
  identification (`Checksum`), heaps (`Heaps`) and the queries of the device interrogator (`QueryQueue`).

What the code changes in place is a class with those fields, or an array: `CoffeeStorage.Storage`, `CoffeeFs.Coffee`,
`HbcGraph.Graph`, `HbcBuilder.GraphBuilder`, `HbcTransformation.GraphTransformation`,
`HbcSimplification.GraphSimplification`, `Flashing.Bootloader`, `Slip.Sender`, `Slip.Receiver`, `Checksum.Tunnel`,
`QueryQueue.DeviceInterrogator`. Large invariants are sometimes passed on behind a number that counts down
(`Wrappers.SEAL`), so that proofs treat them as a whole; lemmas whose names end in `Means` open them.

`dafny verify dfyconfig.toml` checks everything.

## Model

| member | source | states |
|---|---|---|
| `CoffeeStorage.Storage.GetSectorStatus` | firmware/contiki-2.x/core/cfs/cfs-coffee.c:246-340 | the streaming count with its carried `skip_pages` is the page-by-page count of who owns the pages of the sector, adds up to the size of a sector, and gives the number of pages to isolate |
| `CoffeeGc.GcIsSafe` | firmware/contiki-2.x/core/cfs/cfs-coffee.c:366-407 | after a pass, greedy or reluctant, the layout is tiled again, the walk over the headers visits the same active extents, and every page of them is unchanged |
| `CoffeeStorage.Storage.CollectGarbage` | firmware/contiki-2.x/core/cfs/cfs-coffee.c:345-407 | a greedy pass erases exactly the sectors with some obsolete page and no active one, a reluctant pass those with only obsolete pages up to the first after which pages were isolated; what is left of an extent cut in this way is isolated, every other page is unchanged, and the next free page goes to the first sector erased, if that is below it |
| `CoffeeStorage.PassReclaims` | firmware/contiki-2.x/core/cfs/cfs-coffee.c:345-407 | which pages a pass erases, isolates and leaves, from the kinds of the pages alone |
| `CoffeeGc.NextFreeStaysVisitedIff` | firmware/contiki-2.x/core/cfs/cfs-coffee.c:386-401 | the next free page stays on the walk unless the first sector erased below it is reached with pages to skip, that is, begins inside an extent from an earlier sector |
| `CoffeeGc.GcStrandsNextFree` | firmware/contiki-2.x/core/cfs/cfs-coffee.c:386-401 | a flash for which a greedy pass takes the next free page off the walk |
| `CoffeeGc.StrandedRejoins` | firmware/contiki-2.x/core/cfs/cfs-coffee.c:410-428 | from a stranded next free page the search meets free pages only, and then places on the walk |
| `CoffeeStorage.Storage.FindContiguousPages` | firmware/contiki-2.x/core/cfs/cfs-coffee.c:537-570 | the first place from the next free page on where the pages fit, or none exists; the next free page moves only when the run begins at it |
| `CoffeeAlloc.ReserveKeepsTiled` | firmware/contiki-2.x/core/cfs/cfs-coffee.c:629-668 | a header written at free pages on the walk keeps the layout tiled and adds exactly one active extent |
| `CoffeeAlloc.WriteInside` | firmware/contiki-2.x/core/cfs/cfs-coffee.c:629-668 | a header written inside another extent is invisible to the walk |
| `CoffeeAlloc.FoundOffWalkIff` | firmware/contiki-2.x/core/cfs/cfs-coffee.c:537-570 | from a place off the walk the search finds a place off the walk exactly if the pages fit at its start |
| `CoffeeStorage.Storage.Reserve` | firmware/contiki-2.x/core/cfs/cfs-coffee.c:629-668 | one attempt, one greedy collection, one more attempt; the layout stays tiled and all active extents stay; the new extent is one more that the walk visits if and only if the reservation is not blind |
| `CoffeeStorage.Storage.ReserveFromInside` | firmware/contiki-2.x/core/cfs/cfs-coffee.c:629-668 | from a next free page that an earlier pass has stranded, with room behind it, the new extent is one more that the walk visits if and only if there is no room at the stranded place itself |
| `CoffeeStorage.BlindReservationIsLost` | firmware/contiki-2.x/core/cfs/cfs-coffee.c:629-668 | a flash on which a reservation is blind: the new file is not found by the walk, and the next greedy pass erases it |
| `CoffeeDisk.CollectionKeepsDisk` | firmware/contiki-2.x/core/cfs/cfs-coffee.c:366-407 | garbage collection leaves every file and every log, bytes included, as it is |
| `CoffeeDisk.ReservationAdds` | firmware/contiki-2.x/core/cfs/cfs-coffee.c:629-668 | a reservation on the walk adds one empty extent to the files and changes no other |
| `CoffeeDisk.ReserveExtent` | firmware/contiki-2.x/core/cfs/cfs-coffee.c:629-668 | reserving on the storage is what reserving a file assumes, if and only if it is not blind |
| `CoffeeDisk.ObsoleteDrops` | firmware/contiki-2.x/core/cfs/cfs-coffee.c:573-619 | marking a header obsolete removes that extent and no other |
| `CoffeeDisk.RewriteChangesOne` | firmware/contiki-2.x/core/cfs/cfs-coffee.c:909-979 | writing to the pages of an extent changes that extent and no other |
| `CoffeeSearch.GetRecordIndex` | firmware/contiki-2.x/core/cfs/cfs-coffee.c:701-739 | the backward search in batches finds the newest record of a region |
| `CoffeeSearch.FindNextRecord` | firmware/contiki-2.x/core/cfs/cfs-coffee.c:870-905 | the first unused entry of the table, if and only if the table is one batch or the entry is in the last batch |
| `CoffeeSearch.EmptyTableMisread` | firmware/contiki-2.x/core/cfs/cfs-coffee.c:870-905 | an empty table of two batches for which the answer is wrong |
| `CoffeeLog.AppendChangesRange` | firmware/contiki-2.x/core/cfs/cfs-coffee.c:909-979 | a record appended to a log changes the content of the file on the range written and nowhere else |
| `CoffeeFs.Coffee.ReadLogPage` | firmware/contiki-2.x/core/cfs/cfs-coffee.c:743-769 | a region reads as its newest record, up to its end, or is left to the extent |
| `CoffeeFs.Coffee.CfsRead` | firmware/contiki-2.x/core/cfs/cfs-coffee.c:1093-1147 | a read returns the slice of the file from the offset of the descriptor, cut at the end of the file, and only this offset moves |
| `CoffeeFs.Coffee.CfsWrite` | firmware/contiki-2.x/core/cfs/cfs-coffee.c:1150-1242 | the bytes written appear at the offset for every descriptor of the file and nothing else changes, across first logs and merges; fewer are written only if no descriptor, file object or pages were left; an append to a file without a log that fits is written whole, and so is an append after an extension; for other writes how many follows from the regions touched, the records left and the logs created |
| `CoffeeUpdates.AllWritten` | firmware/contiki-2.x/core/cfs/cfs-coffee.c:1180-1233 | with free records for all regions touched every byte is written, and no log is created |
| `CoffeeUpdates.AllOrNothing` | firmware/contiki-2.x/core/cfs/cfs-coffee.c:1180-1233 | a first write, or one with a full log, is all or nothing if one log has records for all regions touched |
| `CoffeeUpdates.RegionsAre` | firmware/contiki-2.x/core/cfs/cfs-coffee.c:909-979 | the number of regions a write touches, from its offset and length alone |
| `CoffeeUpdates.ShortButFullIff` | firmware/contiki-2.x/core/cfs/cfs-coffee.c:1180-1242 | a write is cut short and reported in full if and only if there are some records, those left and those of the logs that could be created, but fewer than regions touched |
| `CoffeeUpdates.HalfWritten` | firmware/contiki-2.x/core/cfs/cfs-coffee.c:1180-1242 | two regions and one record left: half of it is written, all of it reported |
| `CoffeeUpdates.FirstLogTooSmall` | firmware/contiki-2.x/core/cfs/cfs-coffee.c:1180-1242 | a first write of one region more than a log has records: the last region is not written, all of it reported |
| `CoffeeFs.Coffee.WriteLogPage` | firmware/contiki-2.x/core/cfs/cfs-coffee.c:909-979 | a chunk goes into one record, or a full log is merged, or nothing changes; a record is used whenever one is left or a log can be created, and -1 means that a descriptor, a file object or pages were denied |
| `CoffeeFs.Coffee.CreateLog` | firmware/contiki-2.x/core/cfs/cfs-coffee.c:773-796 | an unmodified file gets an empty log and keeps its content; it fails exactly if the pages are refused or all file objects are taken |
| `CoffeeUpdates.LogPagesIff` | firmware/contiki-2.x/core/cfs/cfs-coffee.c:773-796 | the pages asked for are just enough for the index and the records of the log |
| `CoffeeFs.Coffee.MergeLog` | firmware/contiki-2.x/core/cfs/cfs-coffee.c:799-867 | succeeds exactly if a descriptor, pages and a file object are left for the copy; then the new extent has the content of the old, every descriptor moves with its offset and the old extent and its log are gone; no descriptor notices either way; the names stay unique unless an extent was left behind by a failure |
| `CoffeeUpdates.MergeKeepsNames` | firmware/contiki-2.x/core/cfs/cfs-coffee.c:799-867 | after a merge exactly one extent has the name of the file, and the same names exist |
| `CoffeeUpdates.NewNameIff` | firmware/contiki-2.x/core/cfs/cfs-coffee.c:629-668 | a new extent leaves names unique if and only if it is a log or its name is new |
| `CoffeeUpdates.NameTwice` | firmware/contiki-2.x/core/cfs/cfs-coffee.c:629-668 | a second extent of an existing name |
| `CoffeeUpdates.OrphanShadows` | firmware/contiki-2.x/core/cfs/cfs-coffee.c:473-500 | an extent left behind is empty and is found instead of the file if it comes first |
| `CoffeeFs.Coffee.Reserve` | firmware/contiki-2.x/core/cfs/cfs-coffee.c:629-668 | succeeds exactly if the pages are not refused and a slot is free; no descriptor notices the new extent, which is written even if no slot is free |
| `CoffeeFs.Coffee.FindFile` | firmware/contiki-2.x/core/cfs/cfs-coffee.c:473-500 | the slot of a cached file, or the first extent of this name on the flash; missing exactly if there is no such extent, or it is not cached and all slots are taken |
| `CoffeeFs.Coffee.LoadFile` | firmware/contiki-2.x/core/cfs/cfs-coffee.c:430-470 | a slot nobody refers to, unless all are taken, and no descriptor notices |
| `CoffeeFs.Coffee.RemoveByPage` | firmware/contiki-2.x/core/cfs/cfs-coffee.c:573-619 | the extent and, if asked, its log are dropped, their slots reset and the descriptors closed; -1 changes nothing |
| `CoffeeFs.Coffee.CfsOpen` | firmware/contiki-2.x/core/cfs/cfs-coffee.c:996-1029 | succeeds exactly if a descriptor is left and the file is found, or is not there and can be reserved; the new descriptor sees the file up to the end known to its slot, or else up to its last byte on the flash that is not zero, or an empty new file; no other descriptor notices; exactly when names stop being unique |
| `CoffeeUpdates.ReopenedIff` | firmware/contiki-2.x/core/cfs/cfs-coffee.c:503-534 | a file whose end no slot knows is opened with all its bytes if and only if the last of them is not zero on the flash, and none behind it |
| `CoffeeUpdates.ZerosForgotten` | firmware/contiki-2.x/core/cfs/cfs-coffee.c:503-534 | a file of zeros is empty when it is opened again |
| `CoffeeFs.Coffee.CfsClose` | firmware/contiki-2.x/core/cfs/cfs-coffee.c:1032-1039 | the descriptor is closed, the count of references follows, nothing else changes |
| `CoffeeFs.Coffee.CfsRemove` | firmware/contiki-2.x/core/cfs/cfs-coffee.c:1074-1090 | succeeds exactly if the file is found; then it, the first of its name if none is cached, and its log are gone, its descriptors are closed and all others see what they saw |
| `CoffeeFs.Coffee.CfsSeek` | firmware/contiki-2.x/core/cfs/cfs-coffee.c:1042-1071 | the target of each of the three ways to seek, when it is accepted, and that the state stays valid if and only if it is inside the extent without its header |
| `CoffeeFs.SeekBehind` | firmware/contiki-2.x/core/cfs/cfs-coffee.c:1057-1067 | every open descriptor can be moved behind its extent |
| `HbcBuilder.GraphBuilder.AddStateMachine` | hostsoftware/hbc/libhbc/graph_builder.cpp:13-136 | fails for a name already used, for a missing init state and for a state that does not exist, each exactly when, and enters the name otherwise; each `if` and `else if` block, in order, has a condition vertex of its own with its guard, writes, source and target, and there are as many new conditions as blocks |
| `HbcBuilder.StateIsFirst` | hostsoftware/hbc/libhbc/graph.cpp:6-19 | looking up the number of a state finds the state, not a condition or a command of that number |
| `HbcBuilder.BuiltMore` | hostsoftware/hbc/libhbc/graph_builder.cpp:54-136 | a guarded block adds its one transition and changes no other |
| `HbcTransformation.GenerateMachineMap` | hostsoftware/hbc/libhbc/graph_transformation.cpp:12-34 | every machine with all its vertices, in order |
| `HbcTransformation.FindDevices` | hostsoftware/hbc/libhbc/graph_transformation.cpp:36-67 | the devices a machine writes to, each once; an error exactly for a placeholder |
| `HbcTransformation.ReconstructGraph` | hostsoftware/hbc/libhbc/graph_transformation.cpp:77-98 | a copy of the machine, vertex by vertex and edge by edge |
| `HbcTransformation.CopiedBehaves` | hostsoftware/hbc/libhbc/graph_transformation.cpp:77-98 | a copy has exactly the runs of its machine |
| `HbcTransformation.GraphTransformation.Transform` | hostsoftware/hbc/libhbc/graph_transformation.cpp:100-135 | succeeds exactly if no placeholder is left and no device has two machines; then each device written to has a copy of its machine |
| `HbcSlicing.EraseOthers` | hostsoftware/hbc/libhbc/graph_simplification.cpp:275-292 | the writes to the device in their order; an error exactly for a placeholder |
| `HbcSlicing.DeleteOthersWrites` | hostsoftware/hbc/libhbc/graph_simplification.cpp:266-299 | every command block is cut to the device, nothing else changes |
| `HbcSlicing.SlicedBehaves` | hostsoftware/hbc/libhbc/graph_simplification.cpp:266-299 | the runs of the slice are those of the machine, with the trace projected to the device |
| `HbcConditions.SplitOrBehaves` | hostsoftware/hbc/libhbc/graph_simplification.cpp:213-257 | splitting one OR changes no behaviour |
| `HbcConditions.ExpandComplexConditions` | hostsoftware/hbc/libhbc/graph_simplification.cpp:136-264 | the pass changes no behaviour; each transition with an OR is two, of the same source, writes and target, at places of their own, and all others are as they were |
| `HbcConditions.RightPlaces` | hostsoftware/hbc/libhbc/graph_simplification.cpp:213-257 | different ORs have different new conditions |
| `HbcGraph.OrIs` | hostsoftware/hbc/libhbc/graph_simplification.cpp:213-257 | what counts as an OR |
| `HbcConditions.OrsLeft` | hostsoftware/hbc/libhbc/graph_simplification.cpp:136-264 | after the pass the guard of a condition is an OR if and only if an OR had an OR as operand |
| `HbcConditions.OrsBelowLeft` | hostsoftware/hbc/libhbc/graph_simplification.cpp:136-264 | after the pass an OR is anywhere in a guard if and only if one was an operand, or inside one, of an OR or an AND |
| `HbcConditions.NestedOrStays` | hostsoftware/hbc/libhbc/graph_simplification.cpp:136-264 | a state with a transition guarded by `(a or b) or c`: after the pass a guard is an OR |
| `HbcWrites.WriteSplitSame` | hostsoftware/hbc/libhbc/graph_simplification.cpp:28-73 | splitting off the first write changes nothing between the old states |
| `HbcWrites.ExpandMultipleWriteNode` | hostsoftware/hbc/libhbc/graph_simplification.cpp:75-104 | one transition becomes a chain of single writes in order, through new states entered and left once |
| `HbcWrites.ExpandMultipleWrites` | hostsoftware/hbc/libhbc/graph_simplification.cpp:106-134 | every transition is a chain in order, no command writes more than once, each write is made as often as before, numbers stay unique, and nothing changes between the old states |
| `HbcSimplification.GraphSimplification.Simplify` | hostsoftware/hbc/libhbc/graph_simplification.cpp:301-313 | fails exactly for a placeholder; else every graph went through the three passes and still has its shape and unique numbers |
| `HbcSimplification.CompiledBehaves` | hostsoftware/hbc/libhbc/graph_simplification.cpp:301-313 | between states of the machine the final graph of a device does what the program does, with the trace projected to the device |
| `HbcDelivery.WritesDelivered` | hostsoftware/hbc/libhbc/graph_simplification.cpp:301-313 | the final graph of a device makes each write to it as often as the program, once more for each OR leading to it, and no other write |
| `HbcDelivery.EveryWriteOnce` | hostsoftware/hbc/libhbc/graph_transformation.cpp:100-135 | every write of the program is made in the final graph of exactly one device, with the right multiplicity, by commands of one write each |
| `Networks.CanonicalUnique` | hostsoftware/network-autoconfig/ipaddress.py:357-411 | an address set has one canonical list |
| `Networks.CanonicalIsShortest` | hostsoftware/network-autoconfig/ipaddress.py:248-309 | no list of networks with these addresses is shorter |
| `Summarize.SummarizeAddressRange` | hostsoftware/network-autoconfig/ipaddress.py:248-309 | exactly the addresses of the range, as a canonical list; an error exactly for a reversed range |
| `Collapse.FindAddressRange` | hostsoftware/network-autoconfig/ipaddress.py:195-211 | the longest run of consecutive addresses |
| `Collapse.CollapseRecursive` | hostsoftware/network-autoconfig/ipaddress.py:311-354 | passes over a sorted list end in the canonical list of its addresses |
| `Collapse.CollapseAddresses` | hostsoftware/network-autoconfig/ipaddress.py:357-411 | addresses and networks in any order become the canonical list of their addresses |
| `Collapse.CollapseIsCanonicalForm` | hostsoftware/network-autoconfig/ipaddress.py:357-411 | equal address sets give equal lists, of least length |
| `Exclude.AddressExclude` | hostsoftware/network-autoconfig/ipaddress.py:781-861 | disjoint networks, one per prefix length, that cover the network without the other; an error exactly if that is not inside |
| `Exclude.ExcludeAll` | hostsoftware/network-autoconfig/hxb-net-autoconf.py:55-75 | the loops compute `Unused`, of which the next four rows speak |
| `Exclude.ExcludeAllPartitions` | hostsoftware/network-autoconfig/hxb-net-autoconf.py:55-75 | for disjoint prefixes, none strictly around fd00::/8, the result is a partition of fd00::/8 without them, and its networks are maximal |
| `Exclude.ExcludeAllCorrectIff` | hostsoftware/network-autoconfig/hxb-net-autoconf.py:55-75 | the returned list is right if and only if whatever a round puts back is excluded by a later round |
| `Exclude.EveryRoundCorrectIff` | hostsoftware/network-autoconfig/hxb-net-autoconf.py:55-75 | the list is right after every round if and only if each prefix is, at its turn, wholly unused, wholly used or outside |
| `Exclude.SupernetAfterSubnetFails` | hostsoftware/network-autoconfig/hxb-net-autoconf.py:55-75 | a prefix and then one strictly around it give a wrong list |
| `Exclude.WrongInBetween` | hostsoftware/network-autoconfig/hxb-net-autoconf.py:55-75 | a list that is wrong after a round and right at the end |
| `Subnetting.Subnets` | hostsoftware/network-autoconfig/ipaddress.py:921-981 | the subnets divide the network in order; each error exactly when |
| `Ipv6Text.IpIntFromString` | hostsoftware/network-autoconfig/ipaddress.py:1584-1684 | the parser accepts exactly the texts that denote an address, and returns it |
| `Ipv6Text.DenotesUnique` | hostsoftware/network-autoconfig/ipaddress.py:1584-1684 | no text denotes two addresses |
| `Ipv6Text.SuffixIsLow` | hostsoftware/network-autoconfig/ipaddress.py:1584-1684 | a dotted suffix is the low 32 bits of the address, its first number the highest eight of them |
| `Text.DigitsAre` | hostsoftware/network-autoconfig/ipaddress.py:1663-1684 | hexadecimal digits are read in either case and written in lower case |
| `Ipv6Print.CompressHextets` | hostsoftware/network-autoconfig/ipaddress.py:1686-1731 | the first longest run of at least two zero groups is elided, and nothing else (section 4.2 of RFC 5952) |
| `Ipv6Print.StringFromIpInt` | hostsoftware/network-autoconfig/ipaddress.py:1733-1758 | the text of an address; an error exactly out of range |
| `Ipv6Print.TextIsLower` | hostsoftware/network-autoconfig/ipaddress.py:1733-1758 | an address is written in lower case (section 4.3 of RFC 5952) |
| `Ipv6Print.PrintParseRoundTrip` | hostsoftware/network-autoconfig/ipaddress.py:1584-1758 | the text of an address denotes it and nothing else, and is its only text |
| `Flashing.OneByteDetected` | firmware/bootloader/USB/Bootloader.c:341-454 | a record with one byte changed behind its length is rejected |
| `Flashing.RecordIs` | firmware/bootloader/BootloaderFlasher/BootloaderFlasher.c:117-156 | what a record holds, with a sum of bytes of 0 modulo 256 as in the Intel hex format |
| `Flashing.AndBits` | firmware/bootloader/USB/Bootloader.c:341-454 | writing over the flash clears bits and sets none |
| `Flashing.Bootloader.ReceiveLine` | firmware/bootloader/USB/Bootloader.c:355-440 | an intact record extends what is in the page buffer and on the flash as it should, also across pages; a garbled one changes the page position only |
| `Flashing.ProgramFlash` | firmware/bootloader/BootloaderFlasher/BootloaderFlasher.c:67-174 | over every channel that garbles records: the sender reports success exactly if what the records leave of the channel lets the last line through; then every byte of the flash and the CRC are as the job says |
| `Flashing.ImageFlashed` | firmware/bootloader/USB/Bootloader.c:341-454 | the flash holds the image if and only if the first page was erased or its old bytes do not get in the way |
| `Flashing.FirstAccepted` | firmware/bootloader/BootloaderFlasher/BootloaderFlasher.c:117-156 | with the first record accepted at once, the first page is erased, whatever is rejected later |
| `Flashing.ProgramImage` | firmware/bootloader/BootloaderFlasher/BootloaderFlasher.c:67-174 | with the first record accepted at once, whatever is rejected later, and the last line let through, success is reported and the flash holds the image, with ones around it on its pages |
| `Flashing.FirstRejected` | firmware/bootloader/USB/Bootloader.c:341-454 | a rejected first record over a used flash: the image is lost |
| `ImageCrc.CalcCrc` | firmware/bootloader/USB/Bootloader.c:498-527 | the nested loops run the register over the bits of the image |
| `ImageCrc.CrcOfA` | firmware/bootloader/USB/Bootloader.c:498-527 | the CRC of the byte 65 is 0xB915 |
| `ImageCrc.StepBits` | firmware/bootloader/USB/Bootloader.c:498-527 | one step of the register, for the polynomial x^16 + x^12 + x^5 + 1 |
| `ImageCrc.ImageBurstDetected` | firmware/bootloader/USB/Bootloader.c:498-527 | different images that agree outside a burst of sixteen bits have different CRCs |
| `Slip.Sender.WriteToSerial` | firmware/contiki-2.x/tools/tunslip6.c:381-427 | the packet is queued in the encoding of RFC 1055, or does not fit |
| `Slip.EncodingOf` | firmware/contiki-2.x/tools/tunslip6.c:381-427 | the bytes of RFC 1055 for END, another byte and ESC |
| `Slip.Receiver.SerialToTun` | firmware/contiki-2.x/tools/tunslip6.c:158-318 | the decoder in place does, byte by byte, what `Decode` says |
| `Slip.DataIff` | firmware/contiki-2.x/tools/tunslip6.c:158-318 | which packets go to the tunnel: those with a byte behind the first that is no text, and that begin neither with `!` or `?` nor with a carriage return |
| `Slip.DecodeEncodeAll` | firmware/contiki-2.x/tools/tunslip6.c:158-318 | decoding what was encoded gives what each packet is delivered as, in order |
| `Slip.DeliveredIntactIff` | firmware/contiki-2.x/tools/tunslip6.c:158-318 | all packets are completed as they were sent if and only if each is non-empty, shorter than the buffer and, at verbosities that echo, has no line feed behind a printable text |
| `Slip.TextIsEchoed` | firmware/contiki-2.x/tools/tunslip6.c:158-318 | a line of text at verbosity 2: nothing of it is completed |
| `Slip.TunnelIntactIff` | firmware/contiki-2.x/tools/tunslip6.c:158-318 | all packets are written to the tunnel as they were sent if and only if, besides, each is data |
| `Slip.LongPacketKeepsTail` | firmware/contiki-2.x/tools/tunslip6.c:176-183 | of a longer packet the last bytes are left, the length modulo the size of the buffer |
| `Slip.RunDelivers` | firmware/contiki-2.x/tools/tunslip6.c:931-1000 | at any time of any run, which begins with a single END and has any split into writes and reads, what is completed is a prefix of what is to be delivered, and all of it once nothing is under way |
| `Slip.PacketsArrive` | firmware/contiki-2.x/tools/tunslip6.c:931-1000 | without the echo, non-empty packets are completed unchanged and in order |
| `Slip.TunnelGets` | firmware/contiki-2.x/tools/tunslip6.c:931-1000 | without the echo, data packets are written to the tunnel unchanged and in order: at any time a prefix, and in the end all |
| `Slip.MainLoop` | firmware/contiki-2.x/tools/tunslip6.c:931-1000 | the programs at both ends do what the run of the model does, and the tunnel has got the data packets completed |
| `Checksum.FoldMeans` | firmware/contiki-2.x/tools/tunslip.c:344-362 | the folded sum is the sum modulo 65535, and zero just for zero (section 2 of RFC 1071) |
| `Checksum.Ip4Sum` | firmware/contiki-2.x/tools/tunslip.c:344-362 | the loop with end-around carry gives the folded sum of the words |
| `Checksum.CheckIp` | firmware/contiki-2.x/tools/tunslip.c:365-413 | after version, length and header: a TCP segment is good if and only if the words of its pseudo header and its own sum up to 0 modulo 65535 (section 3.1 of RFC 793), a UDP segment if so or if its checksum is zero, an ICMP message if its own words do, and every other protocol is; each failure has its code |
| `Checksum.WordSumJoin` | firmware/contiki-2.x/tools/tunslip.c:344-362 | the sum of the words of a sequence, from one, two and more bytes |
| `Checksum.HugeRejected` | firmware/contiki-2.x/tools/tunslip.c:365-413 | a packet of 65535 bytes with a right TCP sum that is rejected, as the carry between protocol and length is lost |
| `Checksum.NoLostCarry` | firmware/contiki-2.x/tools/tunslip.c:365-413 | with a header of five words or more no carry is lost between protocol and length |
| `Checksum.FlagTestedIff` | firmware/contiki-2.x/tools/tunslip.c:643 | the comparison in host order looks at the don't-fragment flag if and only if the host is big-endian or two bits agree |
| `Checksum.FlagOverlooked` | firmware/contiki-2.x/tools/tunslip.c:643 | when a packet gets an identification, for hosts of both byte orders, and packets for which they decide differently |
| `Checksum.HeaderKeptIff` | firmware/contiki-2.x/tools/tunslip.c:643-656 | the incremental update (RFC 1141) keeps a good header good if and only if the header is not of two words, or the new identification is 0 modulo 65535 |
| `Checksum.ShortHeaderSpoiled` | firmware/contiki-2.x/tools/tunslip.c:628-681 | a packet with a header of two words that passes the checks, and fails with its new identification |
| `Checksum.CheckKept` | firmware/contiki-2.x/tools/tunslip.c:628-681 | with at least three words of header every check has the result it had before |
| `Checksum.Tunnel.WriteToSerial` | firmware/contiki-2.x/tools/tunslip.c:628-681 | a packet is sent if and only if it passed the checks as it came; a packet that passes, has no identification and the flag that the host sees gets the next one, and only identification and checksum change |
| `Heaps.PushHeap` | hostsoftware/libhexabus/libhexabus/device_interrogator.cpp:96-127 | the last element joins the heap |
| `Heaps.PopHeap` | hostsoftware/libhexabus/libhexabus/device_interrogator.cpp:50-86 | the first element leaves the heap |
| `QueryQueue.DeviceInterrogator.QueueQuery` | hostsoftware/libhexabus/libhexabus/device_interrogator.cpp:96-127 | a query is sent once and enters the queue, or ends at once; the timer stays right if and only if the queue was empty or some query waits no longer than the new one |
| `QueryQueue.DeviceInterrogator.Timeout` | hostsoftware/libhexabus/libhexabus/device_interrogator.cpp:50-86 | the earliest query is sent again or ends, and the timer is right |
| `QueryQueue.DeviceInterrogator.PacketReceived` | hostsoftware/libhexabus/libhexabus/device_interrogator.cpp:21-48 | a query runs on if and only if its filter rejects the packet, each other one has exactly one response, in order, nothing is sent, and the timer is right |
| `QueryQueue.RunAnswers` | hostsoftware/libhexabus/libhexabus/device_interrogator.cpp:21-48 | over every run a packet is the response of each running query whose filter accepts it, which then runs no more, and of no other |
| `QueryQueue.Run` | hostsoftware/libhexabus/libhexabus/device_interrogator.cpp:21-127 | for every list of events the queue goes through the states of a run of the model (`IsRun`, `Step`), of which the next six rows speak |
| `QueryQueue.RunHappens` | hostsoftware/libhexabus/libhexabus/device_interrogator.cpp:21-127 | what each event of a run does to the queries, to the filters, and to what is sent and ended |
| `QueryQueue.RunAccounted` | hostsoftware/libhexabus/libhexabus/device_interrogator.cpp:21-127 | at any time of any run each query is pending or has ended, once, and was sent no more often than its tries allow |
| `QueryQueue.RunFromAsks` | hostsoftware/libhexabus/libhexabus/device_interrogator.cpp:96-127 | at any time of any run the queries are those asked, with their tries and filters, and each running one waits for the second after its last transmission |
| `QueryQueue.RunCauses` | hostsoftware/libhexabus/libhexabus/device_interrogator.cpp:21-127 | every outcome has its cause among the events: a packet that the filter accepts, a timer at the last try, or a failure to send |
| `QueryQueue.RunTimerIff` | hostsoftware/libhexabus/libhexabus/device_interrogator.cpp:96-127 | the timer stands at the earliest deadline all through a run if and only if no query is added that is due before all others |
| `QueryQueue.RunTimer` | hostsoftware/libhexabus/libhexabus/device_interrogator.cpp:50-127 | with a monotone clock and a handler that is not called early, the timer is right all through the run |
| `QueryQueue.Unheard` | hostsoftware/libhexabus/libhexabus/device_interrogator.cpp:50-127 | an unanswered query is sent `max_tries` times and fails if and only if `max_tries` is positive, and else is sent for ever |
| `QueryQueue.NoTries` | hostsoftware/libhexabus/libhexabus/device_interrogator.cpp:50-127 | with `max_tries` 0 a query never fails, however often the timer expires |
| `QueryQueue.ClockSetBack` | hostsoftware/libhexabus/libhexabus/device_interrogator.cpp:96-127 | a query asked at 2 s and then one at 0 s: the timer is set for 3 s, and the second is due at 1 s |
| `QueryQueue.CalledEarly` | hostsoftware/libhexabus/libhexabus/device_interrogator.cpp:50-127 | a handler called before its time and then a second query: the timer is set for 2 s, and the second is due at 1 s |

## Findings

Properties that the code does not have, each with an input that shows it and with exactly when it holds:

| property | input | holds exactly when |
|---|---|---|
| Garbage collection leaves the next free page on the walk over the headers | `CoffeeGc.GcStrandsNextFree` | `CoffeeGc.NextFreeStaysVisitedIff` |
| A file that is reserved is found again and is safe from garbage collection | `CoffeeStorage.BlindReservationIsLost` | `CoffeeStorage.Storage.Reserve`, `CoffeeDisk.ReserveExtent` |
| `find_next_record` finds the first unused record of a table read in several batches | `CoffeeSearch.EmptyTableMisread` | `CoffeeSearch.FindNextRecord` |
| `cfs_seek` does not go behind the extent | `CoffeeFs.SeekBehind` | `CoffeeFs.Coffee.CfsSeek` |
| A write through the log that is reported in full is written in full | `CoffeeUpdates.HalfWritten`, `CoffeeUpdates.FirstLogTooSmall` | `CoffeeUpdates.ShortButFullIff` |
| A file opened again has the bytes that were written | `CoffeeUpdates.ZerosForgotten` | `CoffeeUpdates.ReopenedIff`, `CoffeeFs.Coffee.CfsOpen` |
| A name has one file after a failed operation | `CoffeeUpdates.NameTwice`, `CoffeeUpdates.OrphanShadows` | `CoffeeUpdates.NewNameIff`, `CoffeeFs.Coffee.MergeLog`, `CoffeeFs.Coffee.CfsOpen` |
| No guard is an OR after the pass that splits them | `HbcConditions.NestedOrStays` | `HbcConditions.OrsLeft`, `HbcConditions.OrsBelowLeft` |
| `exclude_all` returns fd00::/8 without the prefixes | `Exclude.SupernetAfterSubnetFails` | `Exclude.ExcludeAllCorrectIff` |
| A reported success means that the image is on the flash | `Flashing.FirstRejected` | `Flashing.ImageFlashed` |
| An identification is filled in if the don't-fragment flag is set | `Checksum.FlagOverlooked` | `Checksum.FlagTestedIff` |
| A TCP or UDP packet passes if its words sum up to 0 modulo 65535 | `Checksum.HugeRejected` | `Checksum.CheckIp` (`SegmentGood`) |
| Rewriting the identification keeps a good header good | `Checksum.ShortHeaderSpoiled` | `Checksum.HeaderKeptIff` |
| A query is sent at most `max_tries` times | `QueryQueue.NoTries` | `QueryQueue.Unheard` |
| The timer stands at the earliest deadline | `QueryQueue.ClockSetBack`, `QueryQueue.CalledEarly` | `QueryQueue.RunTimerIff` |
| Packets are completed unchanged at every verbosity | `Slip.TextIsEchoed` | `Slip.DeliveredIntactIff` |

Where code and documentation differ, the model follows the code: `net_contains` and `exclude_all` are described as
strict and are not (hostsoftware/network-autoconfig/hxb-net-autoconf.py:43-75), reluctant collection does not stop at
the first sector erased but at the first after which pages had to be isolated, and the last page of storage is never
allocated (firmware/contiki-2.x/core/cfs/cfs-coffee.c:366-407, 537-570).

## Left out

- Flash memory: a page is a header and bytes behind it, a header fits into a page, erased bytes are zero and a write
  overwrites (firmware/contiki-2.x/core/cfs/cfs-coffee.h:122); the configuration for EEPROM, whose pages are smaller
  than a header, is not modelled. The start of the next sector is computed by masking, for a power of two of pages.
- Coffee's tables: the file and descriptor tables are sequences that the methods update; C pointers into them are
  indices.
- `CoffeeFs.Coffee.Reserve`: which pages are found, if any, is an input of the model for each request, because
  `CoffeeStorage.Storage.Reserve` says it; that the walk visits them is the assumption that `CoffeeDisk.ReserveExtent`
  makes exact. Names are not cut to `COFFEE_NAME_LENGTH` - 1 characters, which matters for longer names only.
- `CoffeeStorage.Storage.ReserveFromInside`: when there is no room behind a stranded next free page, what the next
  greedy pass then does to that page is not modelled.
- `CoffeeDisk.RewriteChangesOne`: speaks of what pages can hold in this model, where a page is a header, with its byte
  8 zero and its flags below 64, and the bytes behind it.
- `CoffeeFs.Coffee.CfsSeek`: once the end of a file is behind its extent, nothing more is promised for this state.
- Log tables of files have at most one batch (`LOG_TABLE_LIMIT` records); for longer ones only the searches are modelled.
- `cfs_coffee_configure_log`, directories, I/O semantics flags, exporting the protected memory, and the widths of
  integers in Coffee.
- The compiler's parser, module instantiation, tables, printers and assembler; vertex names; AND conditions, which the
  code does not split; the order in which `std::map` visits machines and devices; graphs that an error leaves half
  changed.
- Mixed versions of addresses and their errors, IPv4 network texts, host masks and the classification of addresses; the
  generators of Python are lists.
- Discovery of prefixes, random choice and configuration texts of the network configuration.
- `Flashing.ProgramFlash`: images start and end at even addresses, because the boot loader writes words; a garbled
  colon or length, after which the boot loader stops or waits, is not modelled; a garbled last record is a failure of the
  sender.
- `Slip.Receiver.SerialToTun`: the effects of commands that start with `!` or `?`, and the answer with the prefix, are
  left out; errors of the operating system end both programs.
- `Checksum.CheckIp`: the packet and the memory behind it are one array, as the code reads behind short packets.
- `QueryQueue.DeviceInterrogator.Timeout`: callbacks do not call the queue again, and every exception in sending is of
  one of two kinds. When the handler of the timer is called is an input, and may be early.
- Signals, DHCP relay, interface setup, delays between packets, radio, USB and timers of the hardware.
