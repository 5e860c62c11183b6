# Verified model of the wiznet firmware's stores and protocols

A Dafny model of the parts of a W5500-based controller's firmware that keep state or decode bytes, with
proofs of what they promise. `dafny verify dfyconfig.toml` checks everything.

| file | what it models |
|---|---|
| `Bytes.dfy` | bytes, 16-bit values in network order, buffers written through a cursor |
| `Flash.dfy` | the W25Q16 flash chip and its driver: AND-programming with in-page wrap, linear reads, sector erase, streams |
| `VarFormat.dfy`, `VarStore.dfy`, `StoreModel.dfy` | the wear-levelled variable store: the layout of a sector, the driver on it, and the store on values over whole runs |
| `Config.dfy`, `FlashSharing.dfy` | the eleven settings in sector 0, and the two users of one chip |
| `SizeRegister.dfy` | reading a 16-bit register byte by byte while it grows |
| `Ring.dfy`, `Datagrams.dfy`, `TcpSend.dfy` | the W5500's socket buffers, `recvfrom` for UDP and MACRAW, TCP `send` |
| `DnsName.dfy`, `DnsQuery.dfy`, `DnsMessage.dfy` | compressed names, the query builder, the response walker |
| `DhcpOptions.dfy`, `DhcpClient.dfy` | the option reader and writers, the timed client |
| `Topics.dfy` | MQTT topic filters and message dispatch |

## How it is built

Code that changes state is a class or a method with the source's own loops and branches, proved against a
specification on values; what is promised over whole runs is proved on those values. Members keep the
source's names, in Dafny's capitalisation.

- **The store.** `VarFormat.Represents` says when a flash image stores a list of variables: one sector each,
  contiguous from sector 2, no key twice, headers, a unary table and a log of slots byte for byte, everything
  behind erased. The methods of `VarStore.VarStore` are specified on any flash contents; on a store they keep
  it and act on the list as `StoreModel` says, and `VarStore.VarStore.RunCalls` carries that over to every
  sequence of calls. `StoreModel.RunRefinesMap` then makes every run a run on a plain map.
- **The sockets.** The class invariants are the safety properties: in `Datagrams`, what was handed out plus
  what is pending is the payloads opened so far, and the read pointer is at a header exactly when nothing
  remains; in `TcpSend`, the wire carries a prefix of the concatenated buffers taken, no byte not yet released is
  overwritten, and SEND commands and consumed SENDOK flags differ by at most the one in progress. The
  constructors establish them and every method keeps them; `Datagrams.DatagramSocket.ReceiveAll` and
  `TcpSend.TcpSocket.Session` state them over any sequence of calls. What chip and network do while a call
  polls is a parameter, a list of steps of any length and content; packets may arrive between the two bytes
  of the size register.
- **The flash driver.** Every command requires the SPI driver to run; it is started and stopped as the source
  does. Nothing in the repository starts it for the variable store, whose methods require it too.
- **The DHCP client.** `DhcpClient.DhcpMachine` is the client with its globals; `DhcpClient.Run` is one run
  on values, on which the invariant over all event sequences and the exact countdown are proved.

Bytes are integers below 256; bitwise AND is defined on them bit by bit. Reads behind the end of a DNS
message and writes behind a name buffer, undefined in the source, are outcomes of their own (`ReadFault`,
`Outside`, `ReadOutside`; `Overrun`, `Beyond`, `WriteBeyond`). The theorems on well-formed messages show that
such a read does not occur and, for names within the limit of the parser, exactly when such a write does. The
DHCP reader may look six bytes behind the
message; that memory is arbitrary.

## Where the code and its promises differ

- With all 128 table bits used, a read returns the oldest slot, not the last (`StoreModel.ReadsLastWritten`,
  `StoreModel.StaleReadExists`); the file comments promise the last.
- From its 81st slot to its 129th a 50-byte variable is written over its sector's end, into the next sector
  (`StoreModel.WriteFitsExactly`, `VarFormat.SlotsBeyond`, `VarStore.OverrunGoesOn`). A blank next sector is
  left with a broken header, a used one survives only by chance (`VarFormat.SpillIntoBlank`,
  `VarFormat.SpillKeepsNeighbour`, `VarFormat.SpillDestroysNeighbour`).
- After a skip-if-equal write on a used-up table a read returns the value, but it may not be the last one
  written (`StoreModel.SkipWriteRefines`).
- A load of the settings from a chip without the key initialises the chip, but the procedures it calls stop
  the SPI driver, and the load's own reads then find it stopped (`Config.Variables.LeeVariables`).
- A 16-bit write in a page's last column does not read back (`Flash.U16ReadsBack`); the firmware never makes one.
- The comments call the name checksum an XOR; it is a sum. They also call type 0 unoccupied; only 0xFF is.
- A first reading of zero of the received size is not repeated, and it can be torn: a non-blocking
  `recvfrom` then reports busy with a packet waiting (`SizeRegister.ZeroReadExactly`,
  `Datagrams.SeesNothingExactly`, `Datagrams.WaitingOverlooked`).
- The W5500's `send` looks at its sending mark a second time; it is always clear there.
- `#` in a topic filter does not match the parent level (section 4.7.1 of MQTT 3.1.1), and `+` and `#` do not
  match an empty level; these are the only differences (`Topics.MatchesStandard`, with
  `Topics.ParentNotMatched` and `Topics.EmptyLevelNotMatched`).
- A name whose dotted form has exactly 192 bytes passes the parser's length check, and its terminator is
  written one byte behind the walker's 192-byte buffers (`DnsName.TextFits`, `DnsMessage.ParseMessage`,
  `DnsQuery.LongestNameOverruns`).
- Longer names, which RFC 1035 allows up to 255 bytes, make the walker refuse a well-formed response with -1
  (`DnsMessage.ParseMessage`), and the query builder copies a name of 192 bytes or more past its local array
  (`DnsQuery.QueryBuilder.MakeQuery`).
- The DNS walker does not skip the data of types it does not know (`DnsMessage.Answer`,
  `DnsMessage.TextRecordLosesPlace`) and refuses a pointer that leads straight to another pointer (section
  4.1.4 of RFC 1035).
- A DHCP client gives a lease up before it has expired only from 47 seconds on (`DhcpClient.LeaseGivenUp`).

## Model

| member | source | states |
|---|---|---|
| Flash.AndBits | w25q16/w25q16.cpp:96-111 | programming clears bits and never sets one: a bit of the result is set if and only if it is set in the cell and in the byte |
| Flash.BitHasWeight | w25q16/w25q16.cpp:96-111 | the bit that programming is said by is the binary digit of weight 2^i |
| Flash.AndErased | w25q16/w25q16.cpp:96-111 | programming an erased cell stores the byte itself |
| Flash.W25Q16.Start | w25q16/w25q16.cpp:486-498 | the driver runs, and the chip's identity is reported, 0 without a chip |
| Flash.W25Q16.Exchange | w25q16/w25q16.cpp:187-199 | one byte clocked over the bus advances the command the chip is in: reads run on linearly, a page program ANDs and wraps in its page |
| Flash.W25Q16.Write | w25q16/w25q16.cpp:96-111 | exactly the addressed cell is ANDed with the value |
| Flash.W25Q16.WriteU16 | w25q16/w25q16.cpp:120-136 | two cells are programmed, high byte first, the second at the next column of the same page |
| Flash.W25Q16.Read | w25q16/w25q16.cpp:23-37 | the addressed cell, and the chip unchanged |
| Flash.W25Q16.ReadU16 | w25q16/w25q16.cpp:47-62 | two linearly consecutive cells, high byte first |
| Flash.U16ReadsBack | w25q16/w25q16.cpp:47-136 | when the two cells that are read were erased, a 16-bit write reads back if and only if it does not start in the last column (or its low byte is 0xFF) |
| Flash.W25Q16.StreamWrite | w25q16/w25q16.cpp:187-199 | one byte programmed at the cursor; the cursor's linear address grows by one, across page ends too and up to the chip's end |
| Flash.W25Q16.StreamOut | variables/varsGestion.cpp:168-179 | a stream of any length is byte-by-byte programming of consecutive linear addresses |
| Flash.W25Q16.StreamRead | w25q16/w25q16.cpp:239-250 | the byte at the cursor, whose linear address grows by one |
| Flash.W25Q16.StreamIn | variables/volcarFlash.cpp:145-179 | a stream read of any length returns the consecutive linear addresses |
| Flash.BurstInPage | w25q16/w25q16.cpp:169-199 | a page-program command that stays in its page is linear programming |
| Flash.BurstCrossingPage | w25q16/w25q16.cpp:187-199 | one byte beyond the page end it is not, unless that byte is 0xFF: why the stream closes and reopens the command |
| Flash.ProgramErasedStores | w25q16/w25q16.cpp:187-199 | programming erased cells stores exactly the data and nothing else |
| Flash.W25Q16.SectorErase | w25q16/w25q16.cpp:313-327 | the page's 4 KiB sector becomes 0xFF, every other cell stays, one erase is counted |
| VarFormat.LongParam | variables/varsGestion.cpp:19 | slot widths between 1 and 50 |
| VarFormat.WidthTable | variables/varsGestion.cpp:19 | the widths are the driver's table |
| VarFormat.ChecksumSum | variables/varsGestion.cpp:83-89 | the checksum is the 16-bit sum of the bytes: it adds over concatenation |
| VarFormat.ShortNamesDistinct | variables/varsGestion.cpp:47-105 | names of at most 31 bytes have equal keys if and only if type and name are equal |
| VarFormat.CtzMask | variables/varsGestion.cpp:198-214 | in a table byte with i cleared low bits the lowest set bit has number i |
| VarFormat.CtzLowest | variables/varsGestion.cpp:198-214 | the number taken from a nonzero table byte is that of its lowest set bit: that bit is set and none below it is |
| VarFormat.FatStep | variables/varsGestion.cpp:317-319 | shifting the table byte and ANDing it in clears exactly the next bit |
| VarFormat.SlotsFitExactly | variables/varsGestion.cpp:322-336 | 129 slots fit a sector for every type but the 50-byte one, which has room for 80 |
| VarFormat.FlatSlot | variables/varsGestion.cpp:322-324 | slot j of the log stands right behind the slots before it |
| VarFormat.InitHolds | variables/varsGestion.cpp:158-180 | initialising a blank sector makes it hold the variable with a one-entry log, and touches no other sector |
| VarFormat.AppendHolds | variables/varsGestion.cpp:316-336 | clearing one table bit and programming one slot makes the sector hold the log with one entry more, and touches no other sector |
| VarFormat.SlotRead | variables/varsGestion.cpp:357-369 | the slot at a table position holds that entry of the log |
| VarFormat.RepresentsUpdate | variables/varsGestion.cpp:290-337 | changing one variable's sector keeps the whole store: contiguous used sectors, distinct keys, blanks erased |
| VarFormat.RepresentsAppend | variables/varsGestion.cpp:233-239 | so does storing a new key in the first blank sector |
| VarFormat.SlotsBeyond | variables/varsGestion.cpp:322-336 | slot 80 of a 50-byte variable runs over its sector's end, slots 81 to 128 lie inside the next sector |
| VarFormat.OverrunImage | variables/varsGestion.cpp:322-336 | on any contents each of them is ANDed into the next sector, and no third sector changes |
| VarFormat.SpillHitsNextSector | variables/varsGestion.cpp:322-336 | slot 80 ANDs the value's last five bytes into the first five of the next sector |
| VarFormat.SpillIntoBlank | variables/varsGestion.cpp:322-336 | a blank next sector gets them as its header: it stays blank if and only if all are 0xFF, and counts as used if and only if the first is not |
| VarFormat.SpillKeepsNeighbour | variables/varsGestion.cpp:322-336 | the next variable survives that if and only if the AND changes none of its five header bytes |
| VarFormat.SpillDestroysNeighbour | variables/varsGestion.cpp:322-336 | a value that ends in zeros destroys the next variable's type byte |
| VarStore.NamesAgree | variables/varsGestion.cpp:47-78 | the character loop decides equality of the names' first 31 bytes |
| VarStore.HeaderDecides | variables/varsGestion.cpp:117-130 | type, checksum and name comparison together decide equality of keys |
| VarStore.HeaderFinds | variables/varsGestion.cpp:296-303 | at any sector, hinted stale or right, the comparison succeeds if and only if that is the key's sector |
| VarStore.FirstSetIs | variables/varsGestion.cpp:183-221 | the position the table scan takes is the first set bit of the table: no earlier bit is set, and that one is |
| VarStore.ScanResult | variables/varsGestion.cpp:183-221 | in a sector that stores a variable the table scan finds the number of bits in use |
| VarStore.ScanInStore | variables/varsGestion.cpp:225-245 | the sector scan of a store ends at the key, or at the first blank sector |
| VarStore.LocatedInStore | variables/varsGestion.cpp:290-355 | any hint, stale or right, leads to the key's own sector, and creating a missing key keeps the store |
| VarStore.VarStore.constructor | variables/varsGestion.cpp:225-245 | an erased chip is the empty store |
| VarStore.VarStore.NombreVarEnFlashOk | variables/varsGestion.cpp:47-78 | the loop compares up to 31 characters and the terminator when it comes earlier |
| VarStore.VarStore.StrChecksum | variables/varsGestion.cpp:83-89 | the 16-bit sum of the characters |
| VarStore.VarStore.CoincidenciaDatosVar | variables/varsGestion.cpp:117-130 | whether the sector's header matches, on any flash contents |
| VarStore.VarStore.InitVarFlash | variables/varsGestion.cpp:158-180 | the image after writing type, checksum, name and first slot |
| VarStore.VarStore.LeePosEnFAT | variables/varsGestion.cpp:183-221 | on any table: the number of the first set bit and its byte, or an error when there is none |
| VarStore.VarStore.EncuentraVariable | variables/varsGestion.cpp:225-245 | on any contents: the first sector that matches or is free, initialised when it is free; a full chip is reported |
| VarStore.VarStore.LeeVariable | variables/varsGestion.cpp:340-371 | on any contents, the slot the located table points to; in a store the visible value of the key's log, whatever the hint, with a missing key created |
| VarStore.VarStore.EscribeVar | variables/varsGestion.cpp:290-337 | on any contents, the image and the erase counters after the write, inside its sector or not; in a store, when the slot fits, one entry more in the key's log or a fresh one after 129, whatever the hint |
| VarStore.VarStore.LeeVariableU8 | variables/varsGestion.cpp:373-392 | the stored byte clamped to the range, with the two error codes; an arbitrary byte clamped on a full chip |
| VarStore.VarStore.EscribeVarU8 | variables/varsGestion.cpp:394-405 | writes, and erases when the table is used up, unless a read already returns the value |
| VarStore.VarStore.LeeVariableU16 | variables/varsGestion.cpp:442-461 | the stored 16-bit value, low byte first, clamped to the range; an arbitrary one on a full chip |
| VarStore.VarStore.EscribeVarU16 | variables/varsGestion.cpp:463-475 | writes, and erases when the table is used up, unless a read already returns the value |
| VarStore.VarStore.RunCalls | variables/varsGestion.cpp:290-475 | any sequence of reads, writes and skip-if-equal writes leaves flash and erase counters as the run of their operations on the model does |
| VarStore.EscribeInStore | variables/varsGestion.cpp:290-337 | one write whose slot fits takes a store to the store the model says |
| VarStore.ReadInStore | variables/varsGestion.cpp:340-371 | in a store the slot that a read reaches holds the visible value of the key's log |
| VarStore.OverrunInStore | variables/varsGestion.cpp:322-336 | the first write of a store that does not fit is slot 80 of a 50-byte variable, programmed all the same |
| VarStore.OverrunGoesOn | variables/varsGestion.cpp:308-336 | from then to the 129th write each takes one table bit, ANDs its value into the next sector and changes no third one |
| VarStore.InitRepresents | variables/varsGestion.cpp:233-239 | initialising the first blank sector adds the key to the store and keeps sectors 0 and 1 |
| VarStore.AppendRepresents | variables/varsGestion.cpp:316-336 | one more slot keeps the store and sectors 0 and 1 |
| VarStore.FreshSector | variables/varsGestion.cpp:308-312 | erase and initialise keeps the store, with a one-entry log |
| StoreModel.ReadsLastWritten | variables/varsGestion.cpp:340-371 | a read returns the last value written if and only if a table bit is left or the oldest slot equals it |
| StoreModel.StaleReadExists | variables/varsGestion.cpp:183-221 | with all 128 bits cleared a read can return the first value instead of the last |
| StoreModel.SkipWriteReadsBack | variables/varsGestion.cpp:394-405 | after a skip-if-equal write a read returns the value, except exactly when the write used the last bit and the oldest slot differs |
| StoreModel.StepRefines | variables/varsGestion.cpp:290-371 | one read or write on the store is one on the map of keys to last values |
| StoreModel.RunRefinesMap | variables/varsGestion.cpp:290-371 | over every run of reads and writes on any keys the store is the map |
| StoreModel.RunReads | variables/varsGestion.cpp:340-371 | a read after any run returns the map's value, with the exact exception |
| StoreModel.SkipWriteRefines | variables/varsGestion.cpp:394-405 | a skip-if-equal write is a write of the map, except exactly when the table is used up and the value equals the oldest slot but not the last |
| StoreModel.StepTurns | variables/varsGestion.cpp:308-322 | each write advances its key's odometer (129 per erase, plus table bits) by one and no other key's |
| StoreModel.RunTurns | variables/varsGestion.cpp:308-322 | conservation of the odometer over every run |
| StoreModel.WearLaw | variables/varsGestion.cpp:308-322 | n writes erase a freshly initialised sector exactly n / 129 times and leave n mod 129 bits in use |
| StoreModel.WriteFitsExactly | variables/varsGestion.cpp:322-336 | the next slot fits if and only if the type is not the 50-byte one, or fewer than 80 slots are used, or the sector is erased first |
| StoreModel.FirstMisfit | variables/varsGestion.cpp:322-336 | in a store that has not overrun the only slot that does not fit is the 81st |
| Config.SavedDecodes | variables/variables.cpp:119-144 | a save stores the key and exactly the eleven settings, and nothing outside sector 0 |
| Config.SavedLayout | variables/variables.cpp:119-144 | where each setting and the key 0x7851 stand on the page |
| Config.PutAllReads | variables/variables.cpp:64-86 | every field reads back, whatever is stored after it |
| Config.PutStep | variables/variables.cpp:125-140 | each 16-bit write stores its field on the erased page |
| Config.Variables.LeeVariables | variables/variables.cpp:58-109 | terminates from every image; loads the settings when the key is stored, uses the defaults without a chip; initialises a chip without the key with the values in memory, and exactly then goes on reading through a stopped driver |
| Config.Variables.ReseteaEeprom | variables/variables.cpp:111-117 | the settings in memory survive the reset and are what the flash holds; the driver that ran before is stopped |
| Config.Variables.EscribeVariables | variables/variables.cpp:119-144 | with a chip the settings are unchanged and stored with their key; without one they become the defaults |
| FlashSharing.SaveKeepsStore | variables/variables.cpp:119-144 | saving the settings keeps every stored variable |
| FlashSharing.StoreKeepsSettings | variables/varsGestion.cpp:225-337 | what keeps sectors 0 and 1 keeps the settings |
| SizeRegister.ReadSize | Ethernet_W5500/W5500/w5500.c:176-203 | ends for every growing register; a nonzero result was really held, no result exceeds the register at the end, and zero is returned if and only if the first two bytes read are zero |
| SizeRegister.ZeroReadExactly | Ethernet_W5500/W5500/w5500.c:190-203 | a register that is not zero is taken for zero if and only if it grows from below 256 to a whole multiple of 256 between the two bytes |
| SizeRegister.EqualReadsHeld | Ethernet_W5500/W5500/w5500.c:176-203 | two torn readings that agree are one value the register held |
| Ring.WrapKeepsCell | Ethernet_W5500/W5500/w5500.h:608-660 | wrapping a pointer at 2^16 does not change the buffer cell |
| Ring.CellOfFirstRound | Ethernet_W5500/W5500/w5500.h:594-603 | the first round of the memory is in order |
| Ring.CellsDiffer | Ethernet_W5500/W5500/w5500.h:594-603 | bytes less than a buffer apart use different cells |
| Ring.PointerDistance | Ethernet_W5500/W5500/w5500.h:633-660 | the wrapped pointer difference is the distance run |
| Ring.StoreKeeps | Ethernet_W5500/W5500/w5500.c:205-221 | storing the next byte overwrites nothing that is still kept |
| Ring.RxRing.Store | Ethernet_W5500/W5500/w5500.h:633-662 | the chip stores data whole when it fits and not at all otherwise |
| Ring.RxRing.RecvData | Ethernet_W5500/W5500/w5500.c:223-240 | exactly the next n bytes of the received stream |
| Ring.RxRing.Recv | Ethernet_W5500/W5500/w5500.h:642-653 | what has been read is released |
| Ring.TxRing.SendData | Ethernet_W5500/W5500/w5500.c:205-221 | the bytes join the accepted stream, over no byte not yet released |
| Ring.TxRing.Send | Ethernet_W5500/W5500/w5500.h:606-614 | hands over everything up to the write pointer, and only after the previous command is done |
| Ring.TxRing.Transmit | Ethernet_W5500/W5500/w5500.h:606-614 | the byte put on the wire is the next accepted one, read from the memory |
| Datagrams.HeaderDecodes | Ethernet_W5500/socket.c:1047-1115 | the header's two length bytes give the payload's length back, in both modes |
| Datagrams.FrameAt | Ethernet_W5500/socket.c:1047-1115 | header and payload of each packet stand right behind the ones before |
| Datagrams.DatagramSocket.OpenPacket | Ethernet_W5500/socket.c:1047-1115 | reads the next packet's header: remaining size, peer, or the fatal length of MACRAW |
| Datagrams.DatagramSocket.CopyOut | Ethernet_W5500/socket.c:1076-1205 | hands out what fits, keeps count of the rest, sets the remained flag exactly when something is left |
| Datagrams.SeesNothingExactly | Ethernet_W5500/W5500/w5500.c:190-203 | exactly when a look at the received size sees nothing although packets may wait |
| Datagrams.SeesWaiting | Ethernet_W5500/W5500/w5500.c:190-203 | it sees what waits when nothing arrives between the two bytes, and always when 256 bytes wait |
| Datagrams.WaitingOverlooked | Ethernet_W5500/W5500/w5500.c:190-203 | a waiting packet of 255 bytes is overlooked when one of 257 arrives between the two bytes |
| Datagrams.DatagramSocket.PollSize | Ethernet_W5500/socket.c:982 | one look, byte by byte, with packets arriving before, between and behind the bytes |
| Datagrams.DatagramSocket.AwaitPacket | Ethernet_W5500/socket.c:980-1003 | the polling loop ends with a packet, busy, closed, or nothing; busy, and waiting on, exactly when the looks see nothing |
| Datagrams.DatagramSocket.RecvFrom | Ethernet_W5500/socket.c:944-1222 | one call hands out as much of the packet in hand, or else of the next one, as the buffer takes, and keeps the rest, with both flags; every outcome is decided by the first look that sees a packet or a closed socket |
| Datagrams.DatagramSocket.ReceiveAll | Ethernet_W5500/socket.c:944-1222 | over any sequence of calls with any traffic between and during them the chunks concatenate to the received payloads in order, up to what is pending |
| Datagrams.ChunksAreThePayloads | Ethernet_W5500/socket.c:944-1222 | any sequence of successful calls on a backlog with any lengths: the chunks and the rest are the payloads |
| Datagrams.CallsDrain | Ethernet_W5500/socket.c:944-1222 | enough calls with nonempty buffers deliver everything |
| TcpSend.TcpSocket.Environment | Ethernet_W5500/W5500/w5500.h:606-614 | whatever chip and network do, what was accepted stays and the wire only grows; counters and flags after any steps |
| TcpSend.LookPlainly | Ethernet_W5500/socket.c:552-569 | what a look at status and free size says, without traffic, behind a release, and on a closed socket |
| TcpSend.DecidedBy | Ethernet_W5500/socket.c:552-569 | which look ends the waiting: the first one of a non-blocking call, else the first that finds room or the connection down |
| TcpSend.TcpSocket.AwaitRoom | Ethernet_W5500/socket.c:552-569 | leaves the loop with room only when the request fits the real free size; which look decides, and how: enough room, busy, or down, closing the socket exactly when the status is CLOSED |
| TcpSend.TcpSocket.Send | Ethernet_W5500/socket.c:514-603 | on success the buffer, cut to the chip's size, joins the buffers taken before and one SEND is given, after the SENDOK of every earlier one was consumed; else nothing is taken; every error is answered exactly in its case, a timed-out SEND by closing |
| TcpSend.TcpSocket.Session | Ethernet_W5500/socket.c:514-603 | over any sequence of calls and chip steps the wire carries a prefix of the concatenated buffers taken, and at most one SEND is without its SENDOK |
| TcpSend.TcpSocket.Close | Ethernet_W5500/socket.c:356-395 | clears the sending mark, the interrupt flag and the blocking mode |
| DnsName.ResolvesNames | Ethernet_W5500/DNS/dns.c:154-211 | the walk succeeds exactly on well-formed names that fit, and finds their labels |
| DnsName.ExtentLocal | Ethernet_W5500/DNS/dns.c:160-207 | the length returned depends on nothing but the bytes of the name where it stands, so on no pointer's target |
| DnsName.TextFits | Ethernet_W5500/DNS/dns.c:186-207 | the string fits a buffer with its terminator if and only if the dotted form alone is shorter than the buffer (two bytes for the root) |
| DnsName.LongNamesRefused | Ethernet_W5500/DNS/dns.c:184-188 | a well-formed name that does not fit is refused |
| DnsName.PointerLeads | Ethernet_W5500/DNS/dns.c:174-178 | a pointer with 14 bits of offset q leads to the name at q, and takes two bytes |
| DnsName.LabelsThenRest | Ethernet_W5500/DNS/dns.c:160-201 | labels in front of the rest of a name, which may be a pointer, spell the whole name |
| DnsName.LabelsLead | Ethernet_W5500/DNS/dns.c:160-201 | behind each label of a name there is the place of the next, and behind the last it ends |
| DnsName.ReadsThroughPointer | Ethernet_W5500/DNS/dns.c:154-211 | a name read through a pointer to offset 12 |
| DnsName.PointerToPointerRefused | Ethernet_W5500/DNS/dns.c:171-184 | a pointer straight to a pointer is refused at MAXCNAME |
| DnsName.CyclesRefused | Ethernet_W5500/DNS/dns.c:171-184 | a name that leads back to its beginning behind any number of labels is spelled by no labels |
| DnsName.EndlessRefused | Ethernet_W5500/DNS/dns.c:171-188 | a name with more labels than room is refused |
| DnsName.CyclesTooLong | Ethernet_W5500/DNS/dns.c:171-188 | so every cycle is refused with -1 |
| DnsName.Dotted | Ethernet_W5500/DNS/dns.c:194-198 | the dotted form is as long as the labels and a dot each |
| DnsName.ParseName | Ethernet_W5500/DNS/dns.c:154-211 | terminates on every buffer; reads every name that fits, whatever pointers it goes through, leaves its dotted labels and the terminator, or overruns the buffer exactly when they do not fit; returns the length at the original position |
| DnsQuery.SplitsComponents | Ethernet_W5500/DNS/dns.c:455-487 | the builder takes a dotted name apart into exactly its components, final dot or not |
| DnsQuery.StopsAtEmpty | Ethernet_W5500/DNS/dns.c:462-481 | and stops at the first empty component, whatever follows |
| DnsQuery.WireIsName | Ethernet_W5500/DNS/dns.c:465-481 | the wire form of labels is a name that spells them, wherever it stands |
| DnsQuery.QueryBuilder.MakeQuery | Ethernet_W5500/DNS/dns.c:441-493 | the buffer holds id, flags, one question, the name, type A and class IN, for every name below 192 bytes; any other is copied past the local array |
| DnsQuery.QueryBuilder.PutName | Ethernet_W5500/DNS/dns.c:460-487 | the component loop writes the wire form of the name |
| DnsQuery.QueryRoundTrip | Ethernet_W5500/DNS/dns.c:221-493 | parsing a built query gives the name back with a final dot, and the question ends at the query's last byte; the walker's buffer holds it if and only if the name has fewer than 191 bytes |
| DnsQuery.QuerySays | Ethernet_W5500/DNS/dns.c:441-493 | the query's fields read back by position: number, operation code, recursion desired, one question, type A and class IN at the end |
| DnsQuery.LongestNameOverruns | Ethernet_W5500/DNS/dns.c:221-225 | three labels of 63 bytes make a query that is built and whose reading back overruns the buffer |
| DnsMessage.NamedResolves | Ethernet_W5500/DNS/dns.c:154-211 | a readable name of a given length is one the walk accepts |
| DnsMessage.NamedInside | Ethernet_W5500/DNS/dns.c:154-211 | a name of any length is read without leaving the message |
| DnsMessage.Question | Ethernet_W5500/DNS/dns.c:221-237 | lands exactly behind the question, null for a name too long, a write behind the buffer exactly for names that fill the limit |
| DnsMessage.Answer | Ethernet_W5500/DNS/dns.c:248-338 | takes an A record's address over, and lands on the next record if and only if the type is one it knows or the data is empty; gets through a record if and only if the buffers hold all its names, whatever their lengths |
| DnsMessage.TextRecordLosesPlace | Ethernet_W5500/DNS/dns.c:329-334 | a TXT record on which the walker stops short |
| DnsMessage.ParseMessage | Ethernet_W5500/DNS/dns.c:351-428 | of the well-formed responses with names of any length, those whose names the buffers hold give 1 or, with another response code, 0, and the last A record's address; every other is refused with -1 or overruns a buffer, the latter always when no name exceeds the parser's limit |
| DnsMessage.HeaderReads | Ethernet_W5500/DNS/dns.c:357-385 | the header decodes to what its twelve bytes were made of, field by field |
| DnsMessage.RecordReads | Ethernet_W5500/DNS/dns.c:248-338 | a record of each type, laid out by its parts with plain or compressed names, is got through to its end, and its address taken over |
| DnsMessage.RecordsRead | Ethernet_W5500/DNS/dns.c:402-411 | of any list of such records the last address is taken |
| DnsMessage.ParseResponse | Ethernet_W5500/DNS/dns.c:351-428 | a response made of header, questions and records is parsed to that header and the last address among the records |
| DhcpOptions.ReadOne | Ethernet_W5500/DHCP/dhcp.c:711-782 | one well-formed option is read whole |
| DhcpOptions.OptionFormat | Ethernet_W5500/DHCP/dhcp.c:715-782 | the bytes of an option: one of padding, or code, length and data |
| DhcpOptions.ReadsList | Ethernet_W5500/DHCP/dhcp.c:706-783 | for every well-formed list, in any order and with padding and unknown options, the loop learns what the list says |
| DhcpOptions.LastWins | Ethernet_W5500/DHCP/dhcp.c:711-782 | the last option of each kind decides |
| DhcpOptions.ReadOptions | Ethernet_W5500/DHCP/dhcp.c:706-783 | the cursor loop, which advances strictly on any bytes |
| DhcpOptions.PutHost | Ethernet_W5500/DHCP/dhcp.c:433-445 | the back-patched length is the host name's |
| DhcpOptions.BuildDiscover | Ethernet_W5500/DHCP/dhcp.c:414-472 | the option area is the list of a DISCOVER, for every host name that fits |
| DhcpOptions.BuildRequest | Ethernet_W5500/DHCP/dhcp.c:513-569 | the option area is the list of a REQUEST, with address and server named when broadcast |
| DhcpOptions.BuildDecline | Ethernet_W5500/DHCP/dhcp.c:598-636 | the option area is the list of a DECLINE |
| DhcpOptions.SentListsOk | Ethernet_W5500/DHCP/dhcp.c:400-636 | the three lists are well formed |
| DhcpOptions.AreaReadsBack | Ethernet_W5500/DHCP/dhcp.c:706-783 | what a sender wrote, the reading loop finds again |
| DhcpOptions.AreaFrame | Ethernet_W5500/DHCP/dhcp.c:392-396 | the area begins with the magic cookie and its list ends with 255 |
| DhcpOptions.DiscoverSays | Ethernet_W5500/DHCP/dhcp.c:414-472 | what each option of a DISCOVER holds |
| DhcpOptions.RequestSays | Ethernet_W5500/DHCP/dhcp.c:513-569 | what each option of a REQUEST holds; address and server exactly when broadcast |
| DhcpOptions.DeclineSays | Ethernet_W5500/DHCP/dhcp.c:598-636 | what each option of a DECLINE holds |
| DhcpOptions.SuffixDigits | Ethernet_W5500/DHCP/dhcp.c:433-445 | the name ends in the last three bytes of the hardware address in hexadecimal |
| DhcpOptions.BigEndianNumeral | Ethernet_W5500/DHCP/dhcp.c:756-762 | the lease time is a numeral of four bytes, high byte first |
| DhcpClient.DhcpMachine.ParseMessage | Ethernet_W5500/DHCP/dhcp.c:660-788 | type and effects of a message for this client from its server, nothing otherwise |
| DhcpClient.DhcpMachine.CheckTimeout | Ethernet_W5500/DHCP/dhcp.c:934-984 | resend, give up, or wait, per phase |
| DhcpClient.DhcpMachine.DhcpRun | Ethernet_W5500/DHCP/dhcp.c:790-927 | one run of the state machine, its return value and what it sends |
| DhcpClient.ReplyLearned | Ethernet_W5500/DHCP/dhcp.c:691-783 | what the client learns from a message for it, by option number |
| DhcpClient.OthersIgnored | Ethernet_W5500/DHCP/dhcp.c:691-710 | a message from another port, for another address or from another server is as good as none |
| DhcpClient.InitDiscovers | Ethernet_W5500/DHCP/dhcp.c:806-813 | from INIT a DISCOVER is sent |
| DhcpClient.OfferRequested | Ethernet_W5500/DHCP/dhcp.c:814-829 | the address of an OFFER is requested from everyone |
| DhcpClient.AckAnswered | Ethernet_W5500/DHCP/dhcp.c:831-848 | an ACK leases the address, or has it declined when the probe is answered; in renewal it extends the lease |
| DhcpClient.NakAnswered | Ethernet_W5500/DHCP/dhcp.c:849-857 | a NAK leads back to DISCOVER |
| DhcpClient.LeaseRenewed | Ethernet_W5500/DHCP/dhcp.c:863-885 | after half of a finite lease the server is asked for the same address again |
| DhcpClient.SilenceAnswered | Ethernet_W5500/DHCP/dhcp.c:934-984 | without an answer the last message is repeated twice, each time after ten seconds, and then the client starts again |
| DhcpClient.TickWraps | Ethernet_W5500/DHCP/dhcp.c:1074-1076 | the second counter has 32 bits |
| DhcpClient.ExchangeLeases | Ethernet_W5500/DHCP/dhcp.c:790-861 | over a run: from INIT, an OFFER and an ACK for this client, after any number of seconds each, lease the address offered |
| DhcpClient.DhcpMachine.Initialize | Ethernet_W5500/DHCP/dhcp.c:1029-1065 | timers reset, phase INIT |
| DhcpClient.HappenSafe | Ethernet_W5500/DHCP/dhcp.c:790-927 | every event keeps the safety invariant, and no run reports a changed address |
| DhcpClient.AlwaysSafe | Ethernet_W5500/DHCP/dhcp.c:790-984 | the safety invariant over every sequence of events |
| DhcpClient.ReachableSafe | Ethernet_W5500/DHCP/dhcp.c:863-898 | in every reachable state: retries at most 2, the address held is the last one offered and probed since, and renewal never finds it changed |
| DhcpClient.QuietRound | Ethernet_W5500/DHCP/dhcp.c:934-984 | each round without an accepted reply takes exactly one off the countdown; the last one reports failure |
| DhcpClient.QuietRounds | Ethernet_W5500/DHCP/dhcp.c:934-984 | over any stretch of silence failure comes in exactly the round the countdown says |
| DhcpClient.CountdownBounds | Ethernet_W5500/DHCP/dhcp.c:863-984 | 23 rounds from DISCOVER, 46 from REQUEST and REREQUEST, half the lease and 47 from a fresh lease |
| DhcpClient.LeaseGivenUp | Ethernet_W5500/DHCP/dhcp.c:863-924 | the lease is kept for less than lease / 2 + 24 silent rounds and given up in that one; in time exactly for leases of 47 seconds or more |
| Topics.LevelsSplit | Ethernet_W5500/MQTT/MQTTClient.c:128-157 | splitting into levels is the inverse of joining with slashes |
| Topics.MovesMatch | Ethernet_W5500/MQTT/MQTTClient.c:131-157 | the two-pointer moves decide the level relation for every well-formed filter and every name |
| Topics.IsTopicMatched | Ethernet_W5500/MQTT/MQTTClient.c:131-157 | the matcher equals the level relation, for all names |
| Topics.MatchesStandard | Ethernet_W5500/MQTT/MQTTClient.c:131-157 | for every name that is the standard's relation, except that # does not match the parent level and neither wildcard an empty level |
| Topics.MatchesStandardFully | Ethernet_W5500/MQTT/MQTTClient.c:131-157 | on names without empty levels only the parent level makes a difference |
| Topics.EmptyLevelNotMatched | Ethernet_W5500/MQTT/MQTTClient.c:131-157 | the empty level is a real difference |
| Topics.ParentNotMatched | Ethernet_W5500/MQTT/MQTTClient.c:131-157 | the parent level is a real difference |
| Topics.DeliverMessage | Ethernet_W5500/MQTT/MQTTClient.c:160-185 | the handlers called, in order, and the default handler exactly when none was |
| Topics.ReceiversExactly | Ethernet_W5500/MQTT/MQTTClient.c:164-175 | a handler is called if and only if its filter equals or matches the topic and it has a function |

## Left out

- VarStore.VarStore.EscribeVar: requires, without a hint, the key or a free sector, because the source then goes on with sector 512; and that the slot lies on the chip, which one behind its last sector does not.
- VarStore.VarStore.LeeVariable: requires that the slot read lies on the chip, as it does in every store.
- VarStore.VarStore.EscribeVarU8: requires a place for the key, because on a full chip the source goes on with sector 512 as the hint.
- VarStore.VarStore.EscribeVarU16: requires a place for the key, for the same reason.
- VarStore.VarStore.RunCalls: requires of each call in the run a place and, to write, a slot that fits; overruns are stated for single writes, on any contents.
- VarStore.VarStore.StrChecksum: requires a name of at most 255 bytes, because the source's 8-bit counter never reaches a longer one's end.
- Flash.W25Q16.StreamWrite: what the chip does with a command opened behind its last page, as a stream that ends on the last byte leaves one, is not modelled.
- Topics.IsTopicMatched: requires a well-formed filter, as the source's comment does.
- DhcpClient.QuietRound: one second passes per run, and the 32-bit counter is below 2^31, which it is unless seconds pass without runs.
- Bus transfers, chip select, write enable and busy polling of the flash; every command is one step. What a command to a stopped driver does, beyond the assertions that halt it, is not modelled.
- Power loss in the middle of a flash write: the table bit is cleared before the slot is written.
- The 8-bit signed, 32-bit and text wrappers of the store, which have the shape of the two modelled ones, and the dump routines.
- `_WIZCHIP_` other than W5500, IPv6, IPRAW, TCP `recv` (whose non-blocking form always reports busy on an established socket), `sendto`, `connect`, `listen`, and socket options.
- That the W5500 drops a packet which does not fit as a whole, and stores one as a whole, is taken from its behaviour; retransmission inside the chip is not modelled.
- DNS_run's waiting and retransmission, and the fixed part of DHCP messages apart from the fields the client reads.
- DHCP callbacks, the reopening of the socket, and the wait after a DECLINE, whose seconds are forgotten by the reset that follows.
- MQTT packets, keep-alive and the connection; the rule for topics that begin with a dollar sign (section 4.7.2 of MQTT 3.1.1), which the client does not have.
- Threads, pins, serial menus and board files.
