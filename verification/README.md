# Verified model of the switch control plane

A Dafny model of the hard core of the R5 firmware of an FPGA Ethernet switch, with proofs. Each module
follows one component. Code that updates state in place is a class or a method with loops, proved
against functions over values; what those functions promise is proved as lemmas over all inputs, all
runs and all interleavings. Hardware and media enter as environments that may do anything their
documentation allows between two accesses.

| file | component |
|---|---|
| `Common.dfy` | types and constants that several components share |
| `UsbMemory.dfy` | the USB DMA allocator, on blocks and on the words of the arena |
| `Bits.dfy`, `Config.dfy` | exclusive or and masks on numbers; the configuration record and its CRC |
| `CrcValues.dfy`, `ConfigRules.dfy` | the checksum by value; what the configuration rules, the record and a load mean |
| `ConfigStore.dfy` | the two-slot store under power cuts and failed operations |
| `Statistics.dfy` | the destructive-read counter banks and their collector |
| `Ber.dfy`, `SnmpWriter.dfy` | the BER reader and the in-place writer |
| `SnmpMib.dfy`, `SnmpAgent.dfy`, `SnmpRespond.dfy`, `SnmpReply.dfy` | the object table, the replies, the whole responder, and what a manager reads |
| `SnmpExchange.dfy` | whole exchanges, from the octets of a request to what is read in the reply |
| `MibBuild.dfy`, `MibValues.dfy` | the object table built from a snapshot, and what each name in it reads |
| `FabricDma.dfy` | the CPU DMA driver as interleaved steps of tasks, interrupt and engine |
| `IpDiscovery.dfy` | the passive IPv4 table |
| `Links.dfy` | the link service and its timers |
| `MacTable.dfy` | the MAC table dump, its cache protocol and the paged snapshot |
| `WebFraming.dfy`, `WebRequests.dfy` | HTTP request framing and the receive loop; what a request means by its parts |
| `Base64.dfy` | the strict base64 decoder |

`dafny verify dfyconfig.toml` checks everything.

Some results say where the code falls short of what one might expect, with the exact condition:

- An age in the object table is right for all timestamps if and only if the clock runs at no more than
  4294966592 Hz (`MibBuild.AgesRightIff`). Above that the 64-bit product can wrap first.
- A save cut after 1 to 11 bytes leaves a slot that a later load takes for foreign, so the store stops
  being writable; the saved value survives (`ConfigStore.WritableAfterCutIff`).
- An address lookup samples its clock before it enters the critical section. It lists every live binding
  if and only if none of them was made in between (`IpDiscovery.LookupIsCompleteIff`; a run that misses
  one is `IpDiscovery.LookupMisses`).
- The 250 ms that the link service gives the fabric are counted from the clock sample of the poll that
  removed a port. The removal itself waits for a lock and for an idle fabric, so it comes later, and the
  next poll can find the gate open too soon after it. The exact conditions are `Links.OldEnoughIff`,
  `Links.AlwaysOldEnoughIff` for the gate and `Links.WritesMeetIdleIff` for the writes behind it, over any
  number of polls, other tasks' flushes and the cut of all ports after a DMA fault included. Runs are
  `Links.ReadmittedEarly` and `Links.RestartedWhileFlushing`. What always holds is the precondition of
  each disruptive register write.
- The mode of a logic MAC is rewritten on every poll, also behind a shut gate. From the second poll on
  it changes there if and only if the poll before restarted the PHY of a MAC not in the slowest mode
  (`Links.ModeChangesBehindShutGate`); the first poll after start can do so during a flush
  (`Links.ModeWrittenWhileFlushing`).

## Model

| member | source | states |
|---|---|---|
| UsbMemory.RoundUpIsMask | software/r5/src/usb_memory.c:18 | masking with the complement of align-1 in 32 bits is rounding up |
| UsbMemory.WordUpIsMask | software/r5/src/usb_memory.c:19 | likewise for the size |
| UsbMemory.BadRequestIff | software/r5/src/usb_memory.c:11 | the test align&(align-1) accepts exactly the powers of two |
| UsbMemory.RoundUpIsLeast | software/r5/src/usb_memory.c:18 | rounding up gives the least aligned address not below |
| UsbMemory.AllocateEffect | software/r5/src/usb_memory.c:9-30 | an allocation keeps the arena tiled and coalesced, adds exactly one live block of the requested size and alignment that is no larger than called for, and a refusal changes nothing |
| UsbMemory.AllocateCost | software/r5/src/usb_memory.c:17-27 | a success takes its block from the lowest free block with room: all of it when less than 76 bytes would remain, otherwise the payload rounded up to a word with the rest left free, and the free bytes drop by just that |
| UsbMemory.FirstTwo | software/r5/src/usb_memory.c:9-30 | in the linked arena the first two requests for 64 bytes return 0x21e00010 and 0x21e00060 |
| UsbMemory.AllocateFailsIff | software/r5/src/usb_memory.c:11-29 | NULL exactly when the request is malformed or no free block has any aligned position with room |
| UsbMemory.NoWrap | software/r5/src/usb_memory.c:18-19 | no address or size computation wraps at 32 bits in the linked arena |
| UsbMemory.ProductFits | software/r5/src/usb_memory.c:34 | the calloc guard refuses exactly the products that do not fit in 32 bits |
| UsbMemory.CoalesceEffect | software/r5/src/usb_memory.c:41-44 | the sweep restores "no two adjacent free blocks" and keeps every live block |
| UsbMemory.ReleaseEffect | software/r5/src/usb_memory.c:37-45 | a free keeps the invariant and removes exactly the freed block |
| UsbMemory.ReleaseRefunds | software/r5/src/usb_memory.c:37-45 | a free gives back exactly the bytes of its block |
| UsbMemory.OwnerIsUnique | software/r5/src/usb_memory.c:40 | a live pointer names one block |
| UsbMemory.RunKeepsInvariant | software/r5/src/usb_memory.c:9-45 | every sequence of allocations and frees of live pointers keeps tiling, coalescing and alignment |
| UsbMemory.EveryRunIsSafe | software/r5/src/usb_memory.c:9-45 | from the untouched arena, every live payload is inside the arena and apart from every other payload, header and back-pointer, and the free and the taken bytes add up to the arena |
| UsbMemory.NothingLiveMeansWhole | software/r5/src/usb_memory.c:41-44 | with nothing live the arena is one free block |
| UsbMemory.FreeingAllRestoresTheArena | software/r5/src/usb_memory.c:37-45 | freeing all live pointers in any order gives back the whole arena |
| UsbMemory.CarveStored | software/r5/src/usb_memory.c:21-26 | the header and back-pointer words written by a split represent the split block list |
| UsbMemory.MergeStored | software/r5/src/usb_memory.c:42 | the two words written by a merge represent the merged block list |
| UsbMemory.UsbHeap.Search | software/r5/src/usb_memory.c:17-20 | the walk over headers in memory finds the first block that fits, or none |
| UsbMemory.UsbHeap.Take | software/r5/src/usb_memory.c:21-26 | splitting and marking in memory refine the block-list split |
| UsbMemory.UsbHeap.Memalign | software/r5/src/usb_memory.c:9-30 | the word-level allocator returns and does what the block-list allocator does |
| UsbMemory.UsbHeap.Calloc | software/r5/src/usb_memory.c:32-36 | overflow is refused exactly; otherwise an 8-aligned allocation with every byte of its payload zero |
| UsbMemory.UsbHeap.Free | software/r5/src/usb_memory.c:37-45 | found through its back-pointer, the block is released and the list swept |
| UsbMemory.UsbHeap.Sweep | software/r5/src/usb_memory.c:41-44 | the in-place merge loop computes the coalesced list |
| UsbMemory.UsbHeap.ClientWrite | software/r5/src/usb_memory.c:9-30 | whatever an owner writes inside its payload leaves the allocator intact |
| Config.ComputeCrc | software/r5/src/config.c:8-13 | the byte and bit loops compute the fold that the residue, the check value and the detection results are about |
| Config.BitStepInjective | software/r5/src/config.c:11 | one CRC shift is injective in the state |
| Config.FourBytesAreAWord | software/r5/src/config.c:11 | folding four bytes is 32 shifts of the state xored with their word |
| Config.BurstChangesFold | software/r5/src/config.c:8-13 | changing any bits within four consecutive bytes changes the CRC state, whatever surrounds them |
| Config.DecodeInvertsEncode | software/r5/src/config.c:68-90 | every valid configuration and sequence decodes back |
| Config.EncodeInjective | software/r5/src/config.c:68-78 | distinct valid configurations have distinct records |
| Config.OneByteCorruptionDetected | software/r5/src/config.c:79-90 | replacing any one byte of a record by any other value makes decoding fail |
| Config.BurstCorruptionDetected | software/r5/src/config.c:79-90 | so does any change confined to four consecutive bytes under the CRC |
| CrcValues.XorOfNum | software/r5/src/config.c:11 | exclusive or on numbers is the one on 32-bit vectors |
| CrcValues.CrcResidue | software/r5/src/config.c:8-13 | every string followed by its checksum has the checksum 0x2144df1c, the residue of CRC-32/ISO-HDLC |
| CrcValues.CheckValue | software/r5/src/config.c:8-13 | the digits 1 to 9 have its check value 0xcbf43926 |
| ConfigRules.StaticIff | software/r5/src/config.c:48-55 | the mask tests accept exactly a host of a subnet with 2 to 31 host bits and a gateway that is another host of it or absent |
| ConfigRules.ValidIff | software/r5/src/config.c:33-57 | a configuration is valid if and only if it has the board addresses, a name of 1 to 31 permitted characters, the fixed ranges and such an address unless it uses DHCP |
| ConfigRules.ConfigValid | software/r5/src/config.c:33-57 | the tests with the loop over the name compute that |
| ConfigRules.DefaultsAreValid | software/r5/src/config.c:14-28 | the factory settings are valid |
| ConfigRules.RecordLayout | software/r5/src/config.c:68-78 | where each field is in a record |
| ConfigRules.DecodeRequires | software/r5/src/config.c:79-90 | only a complete record of version 1 or 2 with its checksum decodes |
| ConfigRules.OldRecordMigrates | software/r5/src/config.c:85-86 | every version 1 record decodes with spanning tree off and its version 2 |
| ConfigRules.LoadTakes | software/r5/src/config.c:93-109 | with each slot readable or not, a load takes the newer readable record, the first on a tie, or the defaults, and the store is writable if and only if both were read and neither holds something foreign |
| ConfigStore.Card.Truncate | software/r5/include/settings_media.h:5-13 | truncation leaves the slot blank or untouched |
| ConfigStore.Card.Write | software/r5/include/settings_media.h:5-13 | a write leaves a prefix, and its report counts only on a card that never fails |
| ConfigStore.ConfigLoad | software/r5/src/config.c:93-109 | the scan of both slots computes the newest readable record, defaults otherwise, and the writable flag |
| ConfigStore.ConfigSave | software/r5/src/config.c:110-125 | an acknowledged save replaced the other slot whole; any other leaves a torn slot or nothing; on a card that never fails a valid save to a writable store is acknowledged |
| ConfigStore.Commit | software/r5/src/config.c:119-123 | truncate, body, marker with read-backs: the slot ends as a prefix of the record, whole if acknowledged, even when a write reports success wrongly |
| ConfigStore.Settings.Save | software/r5/src/settings.c:50-63 | reload then save; the cached store changes only on success |
| ConfigStore.TornIsUnreadable | software/r5/src/config.c:79-90 | a record cut at any byte does not decode |
| ConfigStore.PickAfterReplace | software/r5/src/config.c:99-102 | replacing the older slot by the next sequence makes it the pick; an unreadable replacement leaves the old pick |
| ConfigStore.ReplaceEffect | software/r5/src/config.c:110-125 | cutting a save at byte k shows the new value if complete and the old one otherwise |
| ConfigStore.AttemptEffect | software/r5/src/config.c:110-125 | each attempt, acknowledged or not, leaves the new value or (only if not acknowledged) the old |
| ConfigStore.RunIsDurable | software/r5/src/config.c:93-125 | after every prefix of every run of attempts the card shows the last acknowledged value or one asked for since |
| ConfigStore.SavedSettingsSurvive | software/r5/src/config.c:93-125 | from two blank slots, a load returns the last acknowledged configuration or one asked for since, and never defaults once a save was acknowledged |
| ConfigStore.WritableAfterCutIff | software/r5/src/config.c:105 | after a cut at byte k the store is still writable if and only if k is 0 or at least 12 |
| Statistics.AdvanceConserves | docs/statistics.md:179-202 | events and captures neither create nor lose counts, and no mailbox changes its slot |
| Statistics.ExactIsPublished | software/r5/src/statistics.c:20-40 | each published port, DDR and debug total is exact for its own hardware counter, by number, and the fourth DDR column is a maximum |
| Statistics.CellsAreDistinct | software/r5/src/statistics.c:20-40 | no two hardware indexes accumulate into one cell, and each stays inside its array |
| Statistics.ExactAsTimePasses | software/r5/src/statistics.c:20-40 | totals stay exact while the hardware runs |
| Statistics.ExactWhenTaken | software/r5/src/statistics.c:20-40 | adding a captured word, or comparing a maximum, keeps every total exact |
| Statistics.LossesWhenTaken | software/r5/src/statistics.c:20-40 | counts dropped by saturation stay marked until a saturated word is counted |
| Statistics.TotalsAccountForEveryEvent | software/r5/src/statistics.c:20-40 | total + residue + captured value = initial residue + all events, modulo 2^64, when nothing saturated |
| Statistics.AnsweredIsUpToDate | software/r5/src/statistics.c:52-83 | a read requested and answered leaves nothing from before the request outstanding |
| Statistics.TotalsAreCurrent | software/r5/src/statistics.c:52-83 | an up-to-date sum holds at least everything counted by then |
| Statistics.MaximaAreCurrent | software/r5/src/statistics.c:52-83 | an up-to-date maximum is at least the largest sample by then and at most the largest so far |
| Statistics.Registers.ReadData | docs/statistics.md:179-202 | only the pending slot may be read; a timeout retains the request |
| Statistics.Collector.Unavailable | software/r5/src/statistics.c:45-49 | a stopped clock is counted once per outage |
| Statistics.StaysBalanced | software/r5/src/statistics.c:62-79 | modulo 2^32 the time-out counters agree: all are the sum of the two classes, and each class is the sum of its table by index, through every wrap |
| Statistics.Collector.TimedOut | software/r5/src/statistics.c:62-79 | a time-out is a stopped clock, a release time-out or a response time-out, counted in its class, its table and its last index |
| Statistics.Collector.Accumulate | software/r5/src/statistics.c:20-40 | adds or maximises the payload and counts saturated words |
| Statistics.Collector.Fetch | software/r5/src/statistics.c:59-61 | the destructive read and its status |
| Statistics.Collector.ReadCounter | software/r5/src/statistics.c:52-83 | exactness survives success, stopped clocks and timeouts; a fresh read that succeeds is up to date; a failure marks the bank |
| Statistics.Collector.CollectBank | software/r5/src/statistics.c:84-100 | the retained slot is drained first; a bank marked current has every sum and maximum complete up to the start of the call |
| Statistics.Collector.Poll | software/r5/src/statistics.c:112-116 | one pass over the enabled banks; where the hardware answers, each is then current |
| Statistics.Collector.Task | software/r5/src/statistics.c:101-122 | over any number of polls every published total is exact for its own counter, and where the hardware answers nothing counted before is missing |
| Ber.LengthsAndIntegers | software/r5/src/snmp_protocol.c:80-102 | lengths and integers as their octets |
| Ber.EnterpriseName | software/r5/src/snmp_protocol.c:103-116 | the name 1.3.6.1.4.1.32473 as its octets |
| Ber.LongLength | software/r5/src/snmp_protocol.c:12-26 | the length loop reads the big-endian length |
| Ber.ReadElementOfPrint | software/r5/src/snmp_protocol.c:12-26 | every element the printer makes is read back, with what follows it |
| Ber.LengthOctetsMinimal | software/r5/src/snmp_protocol.c:80-89 | the printed length is the shortest the reader accepts |
| Ber.Int32Iff | software/r5/src/snmp_protocol.c:32-42 | an INTEGER is accepted if and only if its value fits 32 bits, however many sign octets it has |
| Ber.Integer | software/r5/src/snmp_protocol.c:32-42 | the loop over content octets computes that |
| Ber.IntegerOctetsSize | software/r5/src/snmp_protocol.c:90-102 | n octets suffice exactly for the values of 8n bits |
| Ber.NotRedundantIsPrinted | software/r5/src/snmp_protocol.c:90-102 | a two's complement string without redundant octets is the printed one |
| Ber.ReadIntegerOfPrint | software/r5/src/snmp_protocol.c:32-42 | every 32-bit integer round-trips |
| Ber.OidRead | software/r5/src/snmp_protocol.c:43-66 | the loop over subidentifiers computes the decoded name |
| Ber.ReadOidOfContent | software/r5/src/snmp_protocol.c:43-66 | every legal name of 2 to 24 arcs round-trips, 2.x up to the 32-bit limit included |
| Ber.ContentOfReadOid | software/r5/src/snmp_protocol.c:43-66 | every accepted encoding re-encodes to the same octets |
| SnmpWriter.Bracketed | software/r5/src/snmp_protocol.c:74-89 | opening, content and closing make one printed element, at the cost of a four-octet opening |
| SnmpWriter.ShortestOctets | software/r5/src/snmp_protocol.c:90-102 | the scratch buffer and skip loops give the shortest two's complement form of any 64-bit value |
| SnmpWriter.Digits | software/r5/src/snmp_protocol.c:103-108 | the subidentifier loop gives base-128 digits whose continuation form is the encoding, never more than its five-byte scratch holds |
| SnmpWriter.Writer.Put | software/r5/src/snmp_protocol.c:67-73 | appends or fails without touching what was written |
| SnmpWriter.Writer.Begin | software/r5/src/snmp_protocol.c:74-79 | opens an element with a three-octet length |
| SnmpWriter.Writer.End | software/r5/src/snmp_protocol.c:80-89 | closing collapses the length to its shortest form in place |
| SnmpWriter.Writer.Number | software/r5/src/snmp_protocol.c:90-102 | prints the shortest form of a number |
| SnmpWriter.Writer.PutSubId | software/r5/src/snmp_protocol.c:103-108 | prints one subidentifier |
| SnmpWriter.Writer.PutOid | software/r5/src/snmp_protocol.c:109-115 | prints a whole name |
| SnmpMib.LessIff | software/r5/src/snmp_protocol.c:116-122 | names are ordered by the first arcs that differ, and a name comes before its extensions |
| SnmpMib.Compare | software/r5/src/snmp_protocol.c:116-122 | the three-way comparison decides the lexicographic order |
| SnmpMib.Lookup | software/r5/src/snmp_protocol.c:123-131 | the scan returns the first match |
| SnmpMib.NextIsLeastGreater | software/r5/src/snmp_protocol.c:123-131 | in a sorted table the next lookup is the least greater object, or none exactly when there is none |
| SnmpMib.Missing | software/r5/src/snmp_protocol.c:132-141 | the exception is noSuchInstance when some object covers the name |
| SnmpMib.WalkVisitsTheRest | software/r5/src/snmp_protocol.c:123-131 | a walk by next visits every later object once, in order, and stops |
| SnmpAgent.PutValue | software/r5/src/snmp_protocol.c:142-155 | prints one value or exception |
| SnmpAgent.PutBinding | software/r5/src/snmp_protocol.c:142-155 | prints one binding whole or reports failure |
| SnmpAgent.Respond | software/r5/src/snmp_protocol.c:156-169 | prints the message exactly when its peak fits the capacity, else returns 0 |
| SnmpAgent.EnvelopeFits | software/r5/src/snmp_protocol.c:156-169 | the envelope takes at most 93 of the 112 octets reserved for it |
| SnmpAgent.ParseMessageOfMessage | software/r5/src/snmp_protocol.c:156-169 | the reader recovers version, community, request id, error, index and bindings of every reply |
| SnmpAgent.EndStays | software/r5/src/snmp_protocol.c:212 | a repeater at the end keeps its name |
| SnmpAgent.Entry | software/r5/src/snmp_protocol.c:211-219 | one binding is appended whole, or the count or size limit is reached and earlier bindings stay |
| SnmpAgent.Row | software/r5/src/snmp_protocol.c:207-221 | one round answers its names in order |
| SnmpAgent.RowOutcome | software/r5/src/snmp_protocol.c:206-222 | a round that stops short, or ends with every repeater at the end, explains where the list stops |
| SnmpAgent.Rows | software/r5/src/snmp_protocol.c:206-222 | the rounds produce a prefix of the iterated list |
| SnmpReply.ReadAnswerOfBinding | software/r5/src/snmp_protocol.c:142-155 | every binding printed is read back, name and value, with what follows it |
| SnmpReply.ReadAnswersOfParts | software/r5/src/snmp_protocol.c:142-155 | a binding list is read back as its answers, in order |
| SnmpReply.ReplyIsReadBack | software/r5/src/snmp_protocol.c:156-169 | from the octets of a reply back to its request id, error, index and bindings |
| SnmpReply.IteratedIsProper | software/r5/src/snmp_protocol.c:206-222 | every answer of iterated GETNEXT over a table without exception tags is one that is read back |
| SnmpReply.SentIsReadBack | software/r5/src/snmp_protocol.c:196-225 | every reply without an error is read back as its request id and a prefix of the answers of iterated GETNEXT, with every name and value |
| SnmpRespond.ReadBindings | software/r5/src/snmp_protocol.c:185-190 | the loop reads up to 32 names or refuses |
| SnmpRespond.ParsedRequest | software/r5/src/snmp_protocol.c:177-190 | an accepted request has 32-bit fields, legal names and bounded bindings |
| SnmpRespond.ClampedRows | software/r5/src/snmp_protocol.c:203-205 | clamping repetitions to 64 changes no reply |
| SnmpRespond.Collect | software/r5/src/snmp_protocol.c:196-222 | the bindings collected are the answered prefix |
| SnmpRespond.Repeat | software/r5/src/snmp_protocol.c:206-222 | the repeater rounds after the clamp |
| SnmpRespond.Refuse | software/r5/src/snmp_protocol.c:191-195 | SET is refused with its own bindings echoed, or tooBig |
| SnmpRespond.Serve | software/r5/src/snmp_protocol.c:196-225 | GET, GETNEXT and GETBULK answered |
| SnmpRespond.SnmpRespond | software/r5/src/snmp_protocol.c:170-225 | a reply is produced exactly for requests that parse with a capacity of at least 128; it fits, and for GETBULK is a whole-binding prefix of iterated GETNEXT that stops short only at 64 bindings, at the size limit, or at the end of every repeater |
| SnmpExchange.ParseDatagram | software/r5/src/snmp_protocol.c:177-190 | every printed request is parsed to its own operation, id, two integers, bindings and names |
| SnmpExchange.AnswerMeans | software/r5/src/snmp_protocol.c:212-214 | a name is answered with its object or the least greater one, else noSuchInstance, noSuchObject or endOfMibView as RFC 3416 says |
| SnmpExchange.IteratedAt | software/r5/src/snmp_protocol.c:206-222 | the answers asked for, by position: each non-repeater once, then rows that are one GETNEXT further each |
| SnmpExchange.Exchange | software/r5/src/snmp_protocol.c:170-225 | for every request a manager can print, the octets sent are read back as the answer: all bindings or tooBig for GET and GETNEXT; for GETBULK with non-repeaters and repetitions from the request a prefix that stops only at 64 bindings, at the size limit or at the end of every repeater; for SET its own bindings with notWritable |
| MibValues.BuildTable | software/r5/src/snmp_mib.c:41-125 | in every build each documented name below 1.3.6.1.4.1.32473.1 and the system group holds its value under its tag |
| MibBuild.AgesRightIff | software/r5/src/snmp_mib.c:32-40 | the age is right for all timestamps if and only if the clock is at most 4294966592 Hz |
| MibBuild.NamesOrdered | software/r5/src/snmp_mib.c:11-24 | group, column and row order is name order |
| MibBuild.Builder.Build | software/r5/src/snmp_mib.c:41-125 | for every snapshot and each of the four builds the table is strictly ascending, within 448 objects, of the stated size, and an object is in it if and only if it is one of the listed system, health, port, DDR, debug, sensor, timeout and bank objects, none with an exception tag |
| FabricDma.TxStepKeeps | software/r5/src/fabric_dma.c:41-142 | every step of any sender, the interrupt handler or the engine keeps the transmit invariant |
| FabricDma.RxStepKeeps | software/r5/src/fabric_dma.c:147-169 | every step of the receiver or the engine keeps the receive invariant |
| FabricDma.RunKeeps | software/r5/src/fabric_dma.c:41-169 | so does every interleaving |
| FabricDma.EveryRunIsSafe | software/r5/src/fabric_dma.c:103-169 | in every interleaving the CPU neither writes a transmit cell nor reads or writes a receive cell that the engine owns |
| FabricDma.TxTouchesCoverChanges | software/r5/src/fabric_dma.c:103-142 | a step of the CPU changes no transmit cell that it is not said to touch |
| FabricDma.RxTouchesCoverChanges | software/r5/src/fabric_dma.c:147-169 | nor a receive cell |
| FabricDma.EngineCellsUnchanged | software/r5/src/fabric_dma.c:103-169 | so in every interleaving it leaves every descriptor and buffer that the engine owns as it is |
| FabricDma.InterruptEffect | software/r5/src/fabric_dma.c:49-65 | no cause, no effect; an error of either channel fails closed; an error or a transmit completion wakes the sender |
| FabricDma.WakeIsNotLost | software/r5/src/fabric_dma.c:123-129 | in every continuation a waiting sender that was woken can still take the wake-up |
| FabricDma.SendersExclude | software/r5/src/fabric_dma.c:105-108 | at most one task is in the critical section |
| FabricDma.WireCarriesRequests | software/r5/src/fabric_dma.c:109-119 | the wire carries exactly the submitted frames in order, each as its flags and mask, the magic octet, the frame and zeros up to 62 octets with no stale byte, and tails alternate |
| FabricDma.SuccessMeansSent | software/r5/src/fabric_dma.c:131-136 | success is reported only when the caller's own frame is the last on the wire |
| FabricDma.AfterFailure | software/r5/src/fabric_dma.c:41-47 | after a failure only a task already past the recheck can submit, and only once |
| FabricDma.LateSenderSubmitsNothing | software/r5/src/fabric_dma.c:106-108 | once a task takes the lock after a failure nothing more is ever submitted |
| FabricDma.TagsNeverSlip | software/r5/src/fabric_dma.c:147-169 | the k-th return is the k-th frame when that has no error, start and end, 14 to 1514 bytes and room, and empty otherwise, with the k-th tag, and descriptors go in ring order |
| IpDiscovery.BindingsHold | software/r5/src/ip_discovery.c:6-7 | the map of a table holds its valid entries and nothing else |
| IpDiscovery.HoldsIsUnique | software/r5/src/ip_discovery.c:6-7 | the map does not depend on slots |
| IpDiscovery.ExpiryEffect | software/r5/src/ip_discovery.c:26 | expiry removes exactly the bindings that reached 600000 ms |
| IpDiscovery.KnownAddress | software/r5/src/ip_discovery.c:34-41 | an address already bound is refreshed or moved, its new owner giving up its oldest if it holds four others |
| IpDiscovery.NewAddress | software/r5/src/ip_discovery.c:27-41 | a new address takes the MAC's oldest slot, an unused one, or the oldest of a full table |
| IpDiscovery.WhoIsEvicted | software/r5/src/ip_discovery.c:25-41 | an observation loses at most one unexpired binding, and says which |
| IpDiscovery.FoundIsLive | software/r5/src/ip_discovery.c:44-56 | a lookup lists a binding if and only if it is live and of this MAC, with its age |
| IpDiscovery.FoundIsDistinct | software/r5/src/ip_discovery.c:44-56 | no address twice |
| IpDiscovery.ListedIff | software/r5/src/ip_discovery.c:44-56 | a lookup with any clock sample lists a binding if and only if it is unexpired at the sample, or from almost 2^64 ms after it |
| IpDiscovery.LookupIsCompleteIff | software/r5/src/ip_discovery.c:44-56 | a lookup that sampled its clock before it read the table lists every live binding of the MAC if and only if none of them was made after the sample |
| IpDiscovery.LookupMisses | software/r5/src/ip_discovery.c:44-56 | a run in which an address observed at 5 is missing from a lookup that sampled 4 |
| IpDiscovery.ParseOfArpFrame | software/r5/src/ip_discovery.c:15-21 | an ARP request or reply is taken from every unicast sender |
| IpDiscovery.OnlyArpFrames | software/r5/src/ip_discovery.c:15-21 | and every frame that is not ignored begins with such a packet |
| IpDiscovery.Table.Scan | software/r5/src/ip_discovery.c:24-32 | the first loop expires entries and finds the spare slot, the MAC's share and its oldest entry |
| IpDiscovery.Table.Record | software/r5/src/ip_discovery.c:33-41 | storing a sender is one map update |
| IpDiscovery.Table.Observe | software/r5/src/ip_discovery.c:13-43 | addresses stay distinct, no MAC has more than four, and a frame is ignored or is one map update of the live bindings |
| IpDiscovery.Table.Lookup | software/r5/src/ip_discovery.c:44-56 | stopping after four answers loses none |
| Links.ElapsedOfWrapped | software/r5/src/policy.c:19 | 32-bit subtraction gives elapsed time modulo 2^32 after any number of wraps |
| Links.NeverEarly | software/r5/src/policy.c:19 | two samples never make a timer fire early; it fires exactly when the elapsed time modulo 2^32 has reached the limit |
| Links.OldEnoughIff | software/r5/src/policy.c:17-20 | after a removal that took effect late milliseconds after its poll sampled the clock, an open gate at a sample t within the first counter period means 250 ms since the removal if and only if t is less than 250 or at least 250 + late after the first sample |
| Links.AlwaysOldEnoughIff | software/r5/src/policy.c:17-20 | the gate gives a removal its 250 ms, whenever the later poll comes, if and only if the removal was not late (or late by whole counter periods) |
| Links.WritesMeetIdleIff | software/r5/src/links.c:189-283 | any number of polls after one that removes a port: the writes of the last meet an idle fabric, 250 ms past every removal, if and only if no flush is under way by then and what passed since the removal, counted anew from every cut by another task, adds up to 250 ms; without a cut it is enough behind an open gate that the last poll takes as long to its writes as the removal took |
| Links.ReadmittedEarly | software/r5/src/links.c:189-283 | a run in which a port removed at 1001 is let back in by the poll at 1250 |
| Links.RestartedWhileFlushing | software/r5/src/links.c:238-272 | a run in which a PHY is restarted during a flush that began after the sample |
| Links.Board.Clear | software/r5/src/pstate.c:24-35 | a removal takes effect late or gives up; either way the ports no longer forward |
| Links.Board.Set | software/r5/src/links.c:234 | ports are added only through the gate |
| Links.Board.MacControl | software/r5/src/links.c:226 | a logic MAC changes its mode only while its port does not forward and its last removal was sampled 250 ms before |
| Links.Board.GemSpeed | software/r5/src/links.c:247-251 | a GEM clock or speed is written only through the gate, with the port not forwarding and its MAC off |
| Links.Board.PhyRestart | software/r5/src/links.c:62-112 | so is a PHY restart |
| Links.Board.SfpSwitch | software/r5/src/links.c:274-279 | an SFP rate switch only through the gate, with the port not forwarding |
| Links.Service.Observe | software/r5/src/links.c:157-187 | resolved speeds and readiness from the PHY reports |
| Links.Service.PlanSfp | software/r5/src/links.c:196-213 | the SFP rate plan; a probe needs four seconds without link |
| Links.Service.QuiesceGems | software/r5/src/links.c:214-220 | a GEM that must change is turned off first |
| Links.Service.QuiesceMacs | software/r5/src/links.c:221-227 | likewise a logic MAC |
| Links.Service.Admit | software/r5/src/policy.c:12-23 | ports leave at once and join only through the open gate |
| Links.Service.RetuneGem | software/r5/src/links.c:239-255 | out of service, a GEM follows the request and the resolved speed |
| Links.Service.RetuneMac | software/r5/src/links.c:258-272 | likewise a logic MAC, kept off while its mode settles |
| Links.Service.Prepare | software/r5/src/links.c:191-231 | the ports wanted are exactly the fit ones |
| Links.Service.Finish | software/r5/src/links.c:238-280 | forwarding ports are left alone and pending work is done, through the gate |
| Links.Service.Poll | software/r5/src/links.c:189-283 | the new forwarding set, fabric, ports and MAC modes are exact, whatever other tasks do meanwhile, and every forwarding copper port has the requested abilities applied in its PHY and its MAC on at the resolved nonzero speed |
| Links.PollForwards | software/r5/src/links.c:157-238 | a forwarding port is enabled and has its link up, a copper port at a rate that was asked for |
| Links.SfpPlanIs | software/r5/src/links.c:196-213 | which rate the SFP cage is to use, and exactly when the other one is tried |
| Links.FixedRateStays | software/r5/src/links.c:196-213 | a requested rate is kept over any number of polls |
| Links.ModeLeftBehindIff | software/r5/src/links.c:240-272 | a poll leaves a mode register to be written later if and only if it restarted the PHY of a MAC not in the slowest mode |
| Links.ModeChangesBehindShutGate | software/r5/src/links.c:226 | so a mode changes behind a shut gate if and only if the poll before did that |
| Links.ModeWrittenWhileFlushing | software/r5/src/links.c:226 | a run in which it happens during a flush |
| Links.NetworkLink.Update | software/r5/src/policy.c:2-11 | never ready before the settling time, and ready exactly when settled while calls keep coming |
| MacTable.Engine.Burst | docs/mac-table-dump.md:62-75 | bursts land in order; a failed one may have written part |
| MacTable.Engine.Pass | docs/mac-table-dump.md:93-101 | any interleaving of these keeps acknowledged records in memory when no line is dirty |
| MacTable.Engine.Read | software/r5/src/mac_table_web.c:40 | the CPU reads staging only while the engine does not own it |
| MacTable.Driver.Start | software/r5/src/mac_dump.c:17-36 | exactly when a dump starts, and that a refusal changes nothing |
| MacTable.Driver.Poll | software/r5/src/mac_dump.c:38-50 | the buffer comes back coherent; DONE means the whole dump is in memory |
| MacTable.ListingIsExact | software/r5/src/mac_table_web.c:60-80 | a listing has each valid record as often as the table |
| MacTable.PagesJoin | software/r5/src/mac_table_web.c:60-80 | pages join to a prefix of the listing |
| MacTable.SameGeneration | software/r5/src/mac_table_web.c:43 | a generation comes back only after a whole counter period |
| MacTable.AnsweredLater | software/r5/src/mac_table_web.c:60-80 | later publications leave an answer as it was |
| MacTable.CollectedIsOneSnapshot | software/r5/src/mac_table_web.c:60-80 | collected pages are the whole of one snapshot |
| MacTable.PagesOfOneGeneration | software/r5/src/mac_table_web.c:60-80 | sixteen pages of one generation list the valid records of one snapshot exactly |
| MacTable.Service.Publish | software/r5/src/mac_table_web.c:39-44 | the snapshot, its count and its generation change together |
| MacTable.Service.Settle | software/r5/src/mac_table_web.c:35-47 | only a complete dump without error is published; any other end leaves the snapshot and sets an error |
| MacTable.Service.Refresh | software/r5/src/mac_table_web.c:48-52 | starts a dump or reports why not |
| MacTable.Service.ListPage | software/r5/src/mac_table_web.c:60-80 | the entries of one page |
| MacTable.Service.Serve | software/r5/src/mac_table_web.c:35-83 | one request: the snapshot changes only to the dump the engine last completed without error, under a new nonzero generation, and a page answers for the current one |
| MacTable.Service.ServeAll | software/r5/src/mac_table_web.c:35-83 | over any run of requests sixteen pages of one generation join into the valid records of one dump the engine completed, and no dump is published twice |
| WebFraming.ComputeHead | software/r5/src/web_protocol.c:16-39 | the header loops read the request line and the fields |
| WebFraming.WebParse | software/r5/src/web_protocol.c:8-77 | the verdict on a received prefix: incomplete, invalid or accepted |
| WebFraming.AcceptedStandsAlone | software/r5/src/web_protocol.c:8-77 | every strict prefix of an accepted request is incomplete and every extension invalid |
| WebFraming.BadStaysBad | software/r5/src/web_protocol.c:8-77 | an invalid beginning stays invalid |
| WebFraming.Receive | software/r5/src/web_task.c:36-40 | the receive loop parses after every piece and stops at the first verdict |
| WebFraming.AcceptedInPieces | software/r5/src/web_task.c:36-40 | one request is accepted alike however it is cut into pieces |
| WebFraming.StreamOutcome | software/r5/src/web_task.c:36-40 | of a longer stream that begins with a request, the request is accepted if and only if a piece ends where it ends; otherwise it is refused |
| WebRequests.NamedIff | software/r5/src/web_protocol.c:24-33 | field names are compared without case |
| WebRequests.DecimalOfNumeral | software/r5/src/web_protocol.c:34-37 | an announced length is read as the number written |
| WebRequests.ParseOfText | software/r5/src/web_protocol.c:8-77 | every request printed from a verb, path, version, fields and body is judged by just these: its length and body, its fields by name with their limits, the marker and body of a POST; a verb over 7 or a path over 63 characters is refused |
| Base64.Alphabet | software/r5/src/auth.c:27-35 | the characters are those of table 1 of RFC 4648 |
| Base64.QuadBits | software/r5/src/auth.c:40-47 | four characters carry three bytes as one number of 24 bits |
| Base64.DecodeOfEncode | software/r5/src/auth.c:36-49 | canonical encodings of section 4 of RFC 4648 decode to their bytes |
| Base64.EncodeOfDecode | software/r5/src/auth.c:36-49 | every accepted string re-encodes to itself, so padding bits are zero as section 3.5 of RFC 4648 allows to demand |
| Base64.Bijection | software/r5/src/auth.c:36-49 | accepted strings are exactly the encodings of 1 to 162 bytes |
| Base64.Append | software/r5/src/auth.c:40-47 | one group is checked and its bytes stored |
| Base64.Decode | software/r5/src/auth.c:36-49 | the loop computes that and never runs past the 162-byte buffer |

## Left out

- Statistics.Collector.Task: poll and lateness counters and timestamps are not modelled, because they are read directly off the loop.
- Links.Service.Observe: PHY and MDIO register contents are abstracted to the rate they resolve to, because bus time-outs then appear as invalid reports and failed restarts.
- Links.Service.Poll: receive-enable writes and the published physical mask are not modelled, because nothing else depends on them.
- DMA initialisation: its reset and register sequence is not modelled, only the rings it leaves.
- FabricDma.TagsNeverSlip: that the engine pushes one tag per completed descriptor is an assumption about the hardware.
- MacTable.Service.Serve: path parsing, JSON text, its capacity and the age field are not modelled.
- IpDiscovery.Table.Observe: requires that time does not run backwards between observations.
- ConfigStore.Card.Write: the medium is two slots with the documented failure behaviour; the FAT file system below it is not modelled.
- MibBuild.Builder.Build: texts are the fixed strings of the source; the bound on text length is not modelled.
- WebFraming.WebParse: what a configuration or port form in the body must look like is a parameter.
- WebFraming.Receive: the two-second limit of the loop and the 2047-byte room of its buffer are not modelled, because reaching either is answered like an invalid request.
- DHCP retry policy, port policy tables, IPv4 and decimal text parsing: settled by reading one branch.
- SHA-256 and PBKDF2 password checking: the hash is an external library.
- STP/RSTP, board bring-up, sensors, console, xHCI and mass storage, sockets and tasks: vendor code or plumbing.
- The RTL fabric: only its documented register and DMA contracts are used.
