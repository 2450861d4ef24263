# Verified model of the DAG stream protocol and its neighbours

The project models six algorithmic cores in Dafny and proves what they promise. `dafny verify dfyconfig.toml`
checks all of it.

**Streams** (`dag/dagapi.c`). A stream is a ring of memory between a card and a program. One side owns the record
register, the other the limit register; the ring is mapped a second time behind its end. `Ring` has the arithmetic and
the memory, `Pbm` the two registers, which swap roles in reverse mode. `TxStream` and `RxStream` hold the calls as
methods of a stream object, each proved against a function. Three state machines are built from these functions:

- `SoftDag`: both ends are this library. Producer and consumer interleave freely and read stale registers; the ring
  refines a queue of bytes, and the calls are shown to be runs of the machine.
- `RecordReader`: the card writes records, the program calls for them one by one. `RecordRuns` shows that its calls are
  runs of the machine, and when a header is looked for outside the mapping.
- `Inline`: one hole is captured into, processed and transmitted from.

In all three the sides see nothing of each other but the registers. What they have done in all is counted beside, for
the theorems only: that the writer never reaches a byte which is still wanted follows from the value that the code last
wrote to the limit register.

**Checks** (`dag/dagcrc.c`). `Crc` divides bit by bit and by table, `CrcDivision` relates that to schoolbook division
of polynomials, `CrcBurst`, `CrcResidue` and `CrcMirror` hold the algebra, `CrcTables` and `PppFcs32` the table
builders, the literal table and the byte loops.

**Flash memory** (`dag/dag_romutil.c`). `Flash` has a NOR chip that takes commands, and both ways of programming it;
`Erase` erasing with read-back and retry; `Swid` the package in the last bytes of an image; `Sectors` regions with
sectors of different sizes.

**Descriptions** (`camio_descr.c`): `Descr`. **Command lines** (`dag/dagclarg.c`): `ClArg`. **IP headers**
(`dag/dag_platform_linux.c`): `IpSum`.

What lies outside comes in as a parameter: the readings of a register that the other side writes (`polls`), whether the
stream is paused, what an erase leaves in its sector, whether `sscanf` accepts a number. A call that waits gives up when
its list of readings ends. The machines assume of the card that it writes forward, that it stops at the place which the
limit register shows, and, for inline forwarding, that it moves by whole records and sends no further than the limit
register of the transmit stream. Sizes, offsets and registers are unsigned 32-bit values, and where the source casts to
a signed value, the model does. Words in memory are read on a little-endian host.

## Where the code differs from its own documentation

- A request for 2^31 bytes or more is granted whatever the space (`TxStream.LargeIsGranted`, `TxStream.GrantMeansRoom`).
- A copy on a paused stream reports the full length and stores nothing (`TxStream.Stream.CopyBytes`).
- A program that asks for space again between reserving and committing ends up with a cached space that is too large
  (`SoftDag.LateCommit`, `SoftDag.CommitNeedsReservation`), and unread bytes can be overwritten
  (`SoftDag.LateCommitOverwrites`).
- After an EAGAIN the kept offset may be a lap too far up, and a header may be looked for outside the mapping
  (`RecordRuns.UnmappedExactly`, `RecordRuns.UnmappedHappens`).
- A record longer than what is mapped behind the place where it begins is answered with EAGAIN for ever
  (`RecordReader.LookDelivers`, `RecordReader.RecordsInOrder`).
- A paused stream in reverse mode ends a call with a null pointer and leaves errno as it was
  (`RxStream.Stream.NextRecordOf`).
- With mindata 0, inline forwarding reads a header although nothing was captured (`Inline.NothingCapturedIsNotRead`).
- The two-buffer check goes on reading behind an empty first buffer (`CrcTables.IcrcIsEthernet`).
- The retry limit of an erase is reset by every good byte (`Erase.GivesUpExactly`, `Erase.LimitMissed`).
- Fast programming answers 0 when it refuses an unaligned start (`Flash.Program`).
- Checking a key never answers -2, and without a stored key compares with an uninitialised variable
  (`Swid.DagswidCheckKey`); reading a SWID that is not there answers 0 (`Swid.DagswidRead`).
- An unknown letter in a bunch of letters is reported but not kept as unprocessed (`ClArg.KeptExactly`), and a long
  option without argument that is followed by more text fails an assert (`ClArg.AbortsExactly`).

## Model

| member | source | states |
|---|---|---|
| `TxStream.Stream.Recompute` | dag/dagapi.c:3473-3480 | one turn of the waiting loops leaves the state that `Look`, with its 32-bit arithmetic, gives for the reading; nothing else changes |
| `TxStream.Stream.GetStreamSpace` | dag/dagapi.c:3426-3523 | the call is `GetSpace` over the readings it makes: the new state, the offset handed out, EAGAIN when it gives up, ENOMEM when paused at the start or found paused while it waits; a call that looks also notes the limit register |
| `TxStream.Stream.CommitBytes` | dag/dagapi.c:3248-3316 | a commit moves offset and limit register together, around the ring once at most; each error leaves everything as it was |
| `TxStream.Stream.CopyBytes` | dag/dagapi.c:3325-3418 | the whole effect of a copy: reserved space, the ring with the bytes laid around its end, the published limit; a call that finds the stream paused stores nothing and still reports the full length |
| `TxStream.CopySpaceIs` | dag/dagapi.c:3372-3386 | its waiting loop takes space as the other one does, except that of a look after which it finds the stream paused |
| `TxStream.RingCopy` | dag/dagapi.c:3392-3402 | one or two straight copies leave the ring as laying the bytes around it one by one does |
| `TxStream.RingWriteReadsBack` | dag/dagapi.c:3392-3402 | bytes laid around the ring are read back through the double mapping, and no other byte of it changes |
| `TxStream.LookExact` | dag/dagapi.c:3476-3480 | the "subtract, add the size if negative" formula is the room less the safety window, or exactly one lap too large: which, for every distance |
| `TxStream.LevelAndSpace` | dag/dagapi.c:3642-3655 | reported level, recomputed space and the safety window add up to the size of the hole, for every position |
| `TxStream.GrantFits` | dag/dagapi.c:3472-3519 | a grant below 2^31 fits the space cached or seen at one of the looks, and what is left is the difference |
| `TxStream.LargeIsGranted` | dag/dagapi.c:3472-3502 | a request for 2^31 bytes or more is always granted, at once: the comparison is signed |
| `TxStream.GrantMeansRoom` | dag/dagapi.c:3472-3519 | a grant means that the request fits some space cached or seen at one of the looks exactly when it is below 2^31 |
| `RxStream.Stream.AdvanceStream` | dag/dagapi.c:2750-2921 | the call frees up to the bottom, waits by an unsigned comparison, and returns the window that the readings give; EIO, ENOMEM and the paused reverse-mode return included |
| `RxStream.Stream.NextRecordOf` | dag/dagapi.c:2964-3057 | the call is `NextRecord` over the readings of its two loops: state, pointer, length, error and limit register; a paused reverse-mode stream ends it before the first or the second advance, with the state of that moment |
| `RxStream.Stream.EnsureReadable` | dag/dagapi.c:3006-3021 | the refill before and after the header: state, new place, early end, limit register, and nothing done when paused |
| `RxStream.TopShows` | dag/dagapi.c:2904-2920 | with the writer less than a lap ahead, a look shows exactly the bytes ahead, cut to what is mapped |
| `RxStream.AvailableExact` | dag/dagapi.c:2817-2817 | the bytes that the waiting loop compares with mindata are exactly those by which the writer is ahead |
| `RxStream.AwaitStops` | dag/dagapi.c:2817-2868 | over the places that a writer shows at successive looks, the loop stops at the first that is at least mindata ahead, and at the last only if none is |
| `RxStream.HeaderDigits` | dag/dagapi.c:3023-3032 | the type is in the low seven bits of byte 8 of the header, the length is the number with the digits 10 and 11 in base 256, wherever the header lies in the two mappings |
| `RxStream.BadTypeExactly` | dag/dagapi.c:3023-3029 | a header is refused exactly when its type is none of 1 to 48 |
| `RxStream.AboveIsInsane` | dag/dagapi.c:2898-2903 | a register that shows a place above the hole ends an advance with EIO, the limit being written |
| `RxStream.RestoredStart` | dag/dagapi.c:2764-2768 | a reverse-mode stream without a bottom pointer finds in the limit register the bottom that was freed last |
| `RxStream.NextRecordReads` | dag/dagapi.c:2817-2858 | a call depends on one reading in each of its waiting loops |
| `SoftDag.RecomputeExact` | dag/dagapi.c:3472-3480 | in every reachable state the recomputed space is the true room, so that 1 to 7 free bytes never show |
| `SoftDag.NextInv` | dag/dagapi.c:2750-2921 | every step of either side keeps the invariant that ties offsets, registers and memory to byte counts |
| `SoftDag.WindowIsNext` | dag/dagapi.c:2750-2921 | what the consumer sees between bottom and top is the next stretch of the committed bytes |
| `SoftDag.ReadingExact` | dag/dagapi.c:2817-2817 | in every reachable state the reading of the consumer shows exactly the committed bytes that it has not taken |
| `SoftDag.StepRefinesQueue` | dag/dagapi.c:2297-2309 | each step of producer or consumer is a step of a queue of bytes, or shows nothing |
| `SoftDag.WindowIsStable` | dag/dagapi.c:2297-2309 | the producer never changes a byte of the consumer's window, and the consumer never writes |
| `SoftDag.Fifo` | dag/dagapi.c:2297-2309 | over all interleavings, with stale readings: received plus window is a prefix of the committed bytes, and the bytes in flight and granted leave two safety windows free |
| `SoftDag.DrainedRingIsFree` | dag/dagapi.c:3472-3480 | when all is taken and released, the whole hole less two windows is free again |
| `SoftDag.LateCommit` | dag/dagapi.c:3472-3502 | a program that looks again between reserving and committing: over all runs of the consumer, the cached space is honest after the commit exactly when the consumer has freed that many bytes since the last look |
| `SoftDag.CommitNeedsReservation` | dag/dagapi.c:3472-3502 | so a commit keeps the cached space honest, whatever the consumer does, exactly when the program has not looked again since it reserved, or commits nothing |
| `SoftDag.LateCommitOverwrites` | dag/dagapi.c:3472-3502 | a run on 64 bytes (reserve, look, commit, reserve, write) after which a committed byte that nobody has read is overwritten |
| `SoftDag.GetSpaceIsRun` | dag/dagapi.c:3426-3523 | a call over the readings along a run, with any steps of the consumer before each of its looks, ends in the state of that run, and reserves if there is enough by then |
| `SoftDag.CopyIsRun` | dag/dagapi.c:3373-3414 | a copy, with any steps of the consumer before each byte and before the commit, is a run that commits exactly the caller's bytes and leaves the ring as the straight copies do |
| `SoftDag.CopyCallIsRun` | dag/dagapi.c:3325-3418 | so the whole call, asking for space included, is one run |
| `SoftDag.AdvanceIsRun` | dag/dagapi.c:2750-2921 | an advance over the readings along a run, with any steps of the producer before each of them, ends in the state of that run: window, bytes freed, register; it looks again as long as fewer than mindata bytes are committed and not taken |
| `RecordReader.NextInv` | dag/dagapi.c:2991-3056 | capture, beginning of a call, looks and header keep limit register, card and the reader's books in step, also after an EAGAIN that re-bases the free space but not the offset; a step hands out nothing, or the wanted record |
| `RecordReader.CardHasRoom` | dag/dagapi.c:97-112 | a card that is not at the place of the limit register has room for a byte without touching what is not freed: this is what the register is written for |
| `RecordRuns.CallIsRun` | dag/dagapi.c:2964-3057 | every run that begins a call and sees it end, with the card writing anywhere in between, leaves the state, reply and limit register of one call over the memory and the readings along that run |
| `RecordReader.RecordsInOrder` | dag/dagapi.c:2964-3057 | over all runs the calls hand out exactly the records that the card wrote, whole, one by one, in order; a record that does not fit what is mapped behind the place where it begins is never handed out, nor is any after it |
| `RecordReader.HeaderDelivers` | dag/dagapi.c:3027-3056 | a header leads to the record without another advance exactly when it is mapped, the record is known whole and ends near enough |
| `RecordReader.LookDelivers` | dag/dagapi.c:3039-3056 | the look before the record leads to it exactly when the reading shows all of it and it fits what is mapped; otherwise the call says EAGAIN |
| `RecordReader.RecordIsReadable` | dag/dagapi.c:3004-3056 | the record behind the returned pointer lies whole and contiguous inside the mapping |
| `RecordReader.DeliveredStays` | dag/dagapi.c:3050-3056 | after a delivery the record is in that place and not yet freed |
| `RecordReader.CaptureLeavesRecord` | dag/dagapi.c:97-112 | no byte that the card writes, up to the limit register, changes it |
| `RecordReader.RecordStays` | dag/dagapi.c:2964-3057 | over every run up to the beginning of the next call the record stays whole behind its pointer |
| `RecordRuns.UnmappedExactly` | dag/dagapi.c:2998-3024 | in any state and over any readings, a header is looked for outside the mapping exactly when the stale offset is that far up and the counters skip the advance |
| `RecordRuns.UnmappedHappens` | dag/dagapi.c:2998-3024 | a run of the machine with four calls, three good records and a hole of 64 bytes with 16 mapped twice reaches that case |
| `RecordRuns.AlignedRunStaysMapped` | dag/dagapi.c:2998-3024 | with the whole hole mapped twice and sizes in multiples of 8 no run reaches it |
| `Inline.Stream.NextRecordInline` | dag/dagapi.c:3065-3235 | the call is `NextInline` over the pairs of readings: state, pointer, length, errors, limit register; its second loop is never entered |
| `Inline.NextInv` | dag/dagapi.c:3115-3234 | card and call keep the four stations, both offsets and the limit register in step |
| `Inline.RoomOfCard` | dag/dagapi.c:3133-3141 | a card that stops at the limit register stays a safety window short of the oldest byte not sent |
| `Inline.ForwardingSafe` | dag/dagapi.c:3115-3234 | over all runs of a card that only looks at its registers, transmitted <= committed <= processed <= captured <= transmitted + size - 8, and the receive offset is the transmit offset plus the record that is out |
| `Inline.NothingUnsentIsOverwritten` | dag/dagapi.c:3133-3141 | no place of a record being captured holds a byte that was not sent |
| `Inline.HandOutIsCaptured` | dag/dagapi.c:3121-3124 | a record is handed out only when it was captured whole |
| `Inline.NeverUnmapped` | dag/dagapi.c:3121-3124 | in any state with the offset inside the hole, and over any readings, the call never looks for a header outside the mapping |
| `Inline.NothingCapturedIsNotRead` | dag/dagapi.c:3121-3124 | with nothing captured a call that looks once says EAGAIN exactly when mindata is not 0 |
| `Inline.WaitIsRun` | dag/dagapi.c:3115-3152 | the waiting loop over the pairs of readings along a run, with the card working before each of them, ends in the state of that run |
| `Inline.GuardIsShort` | dag/dagapi.c:3121-3122 | in every reachable state the guard of the loop is: fewer captured bytes known than mindata, or no room for another header behind what was handed out since the last look |
| `Inline.CallIsRun` | dag/dagapi.c:3065-3235 | a call over the readings along a run leaves the limit register and the state of the machine; it says EAGAIN exactly when at the end fewer captured bytes are known than mindata, or those handed out since the last look and a header exceed what is mapped twice, and else returns the oldest record not yet handed out |
| `Crc.RunIsDivision` | dag/dagcrc.c:202-215 | table form equals bit-at-a-time division, for every message, register and generator |
| `CrcDivision.DivideIsRemainder` | dag/dagcrc.c:177-199 | the bit-at-a-time register is the remainder of schoolbook polynomial division, for every generator of the register's width |
| `CrcDivision.RunIsRemainder` | dag/dagcrc.c:202-279 | the byte loops compute that remainder, for 16-bit and 32-bit checks |
| `CrcTables.Tables.MakeEthernetTable` | dag/dagcrc.c:177-199 | the builder leaves, for every byte, its eight-step remainder |
| `CrcTables.Tables.MakeFcs16Table` | dag/dagcrc.c:221-247 | the same for FCS-16, with 32-bit arithmetic cut to 16 bits |
| `CrcTables.Tables.MakeAal5Table` | dag/dagcrc.c:285-307 | the same for AAL5, highest bit first |
| `CrcTables.Tables.MakeVcrcTable` | dag/dagcrc.c:325-347 | the same for the VCRC, with 16-bit arithmetic |
| `CrcTables.Tables.EthernetCrc32` | dag/dagcrc.c:202-215 | with a built table, the loop returns the complemented division from the complemented register |
| `CrcTables.Tables.PppFcs16` | dag/dagcrc.c:251-263 | with a built table, the 16-bit loop is the division |
| `PppFcs32.PppFcs32` | dag/dagcrc.c:267-279 | the loop over the literal table is the division by the Ethernet generator |
| `PppFcs32.LiteralIsEntry` | dag/dagcrc.c:28-94 | each of the 256 literal entries is the one that the Ethernet builder computes |
| `CrcTables.Tables.Aal5Crc` | dag/dagcrc.c:311-323 | with a built table, the loop is `RunLeft` |
| `CrcMirror.Aal5IsDivision` | dag/dagcrc.c:285-323 | and that is division with the highest bit of every byte first |
| `CrcTables.Tables.InfinibandVcrc16` | dag/dagcrc.c:350-363 | with a built table, the loop returns `Vcrc`, the division with the register complemented at both ends |
| `CrcTables.Tables.InfinibandIcrc32` | dag/dagcrc.c:374-389 | what the two-buffer loop returns, also when the first buffer is empty and it goes on reading behind that pointer |
| `CrcMirror.Mirror` | dag/dagcrc.c:267-323 | AAL5 of a message is the bit reversal of the PPP check of the bytes reversed, from the reversed register |
| `CrcBurst.DivideInjective` | dag/dagcrc.c:202-279 | different registers stay different, whatever follows |
| `CrcBurst.ByteBurstDetected` | dag/dagcrc.c:202-279 | two messages of equal length that differ only within 32 consecutive bits (16 for the 16-bit checks) have different checks, at any bit position |
| `CrcTables.EthernetBurst` | dag/dagcrc.c:202-215 | the same for the Ethernet check with its complements |
| `CrcTables.EthernetResidue` | dag/dagcrc.c:202-215 | the Ethernet check of a message and four more bytes is 0x2144df1c exactly when these are its own check, low byte first |
| `CrcTables.VcrcResidue` | dag/dagcrc.c:350-363 | the VCRC of a message and two more bytes is 0xaa90 exactly when these are its own check, low byte first |
| `CrcTables.VcrcConcat` | dag/dagcrc.c:350-363 | a VCRC started from that of A gives that of A followed by B |
| `CrcResidue.ResidueExactly` | dag/dagcrc.c:251-279 | a message with a tail leaves the good constant exactly when the tail is its complemented check, low byte first |
| `CrcResidue.PppFcs32Residue` | dag/dagcrc.h:42-43 | 0xdebb20e3 for FCS-32 (section C.3 of RFC 1662), exactly then |
| `CrcResidue.PppFcs16Residue` | dag/dagcrc.h:39-40 | 0xf0b8 for FCS-16 (section C.2 of RFC 1662), exactly then |
| `CrcMirror.Aal5Residue` | dag/dagcrc.h:53-54 | 0xC704DD7B for AAL5, high byte first, exactly then |
| `Crc.RunConcat` | dag/dagcrc.c:202-279 | messages can be checked piece by piece |
| `CrcTables.EthernetConcat` | dag/dagcrc.c:202-215 | an Ethernet check started from the check of A gives that of A followed by B |
| `CrcTables.PppIsEthernet` | dag/dagcrc.c:202-279 | the PPP check is the Ethernet check complemented at both ends |
| `CrcTables.IcrcIsEthernet` | dag/dagcrc.c:374-389 | the two-buffer check is the Ethernet check of both buffers in a row exactly when the first is not empty or the second is |
| `Flash.ProgramBytes` | dag/dag_romutil.c:1457-1483 | byte by byte, the cells at the range become old AND data, nothing else changes, and the chip is back in array mode |
| `Flash.ProgramBuffer` | dag/dag_romutil.c:1612-1638 | one buffered command of up to 32 bytes stays in its aligned block (a chip told otherwise would be at fault) and has the effect of the byte writes |
| `Flash.ProgramBuffered` | dag/dag_romutil.c:1587-1646 | -1 and no write at an unaligned start; else whole buffers are written, the last one past `eaddr` if data is left |
| `Flash.Program` | dag/dag_romutil.c:1450-1485 | either form, answering 0 in any case: in fast mode an unaligned start writes nothing |
| `Flash.FastIsSimple` | dag/dag_romutil.c:1450-1485 | fast and simple form store the same, whatever the cells and the data, exactly when, at an aligned start, no data is left at `eaddr` or the range is whole buffers, and, at an unaligned one, when there is nothing to store |
| `Erase.Erase` | dag/dag_romutil.c:2206-2262 | 0 means that every byte of every sector covered reads 0xFF; cells outside never change; how it ends is `Erasing` of what the attempts leave |
| `Erase.SectorsFill` | dag/dag_romutil.c:2220-2220 | the loop goes over exactly the sectors that lie between the start and the first boundary at or behind the end |
| `Erase.ReadBack` | dag/dag_romutil.c:2240-2257 | the read-back loop stops at the first bad byte, with the failure counter that the good bytes before have reset |
| `Erase.GivesUpExactly` | dag/dag_romutil.c:2206-2262 | -1 exactly when, before enough attempts were good, an attempt failed anywhere and three more in a row failed in their first byte |
| `Erase.WaitsExactly` | dag/dag_romutil.c:2206-2262 | it goes on exactly when it has not given up and too few attempts were good |
| `Erase.LimitMissed` | dag/dag_romutil.c:2240-2257 | the limit of four failures bounds nothing for a chip whose first byte is good and a later one bad |
| `Swid.DagromRead` | dag/dag_romutil.c:1302-1337 | the buffer receives the bytes read, in order, and no other byte of it changes |
| `Swid.DagswidWrite` | dag/dag_romutil.c:2095-2157 | the sector becomes, on what the second erase left, the old sector with the new package; -1 and no change on other cards; an erase's answer is not looked at |
| `Swid.DagswidErase` | dag/dag_romutil.c:1810-1850 | the sector becomes, on what the erase left, the old sector with the package cleared |
| `Swid.DagswidIsSwid` | dag/dag_romutil.c:1859-1893 | 0 exactly on a supported card with the marker in its place |
| `Swid.DagswidReadKey` | dag/dag_romutil.c:1953-2014 | -3, -2 or the stored key; otherwise the key variable stays |
| `Swid.DagswidCheckKey` | dag/dag_romutil.c:1907-1942 | accepts exactly the stored key, or, without one, whatever the uninitialised variable held: -2 is never answered |
| `Swid.DagswidRead` | dag/dag_romutil.c:2026-2075 | the stored SWID of any length asked for, 0 included, or an untouched buffer and 0 all the same |
| `Swid.WriteThenRead` | dag/dag_romutil.c:2095-2157 | after a write on an erased sector: the same key, the same SWID up to 128 bytes, and the bytes before the package unchanged |
| `Swid.EraseThenIsSwid` | dag/dag_romutil.c:1810-1893 | after an erase there is no SWID, and the bytes before the package are unchanged |
| `Swid.ErasedTakesAll` | dag/dag_romutil.c:2138-2143 | programming stores any data whatever exactly on erased cells, so that a failed erase spoils the write |
| `Sectors.Blocks.ReadBlocks` | dag/dag_romutil.c:1127-1155 | the table as described by the chip, with offsets that are the sizes of all regions before, as an `int` holds them; it is well-formed exactly when no region is empty and all fits |
| `Sectors.Blocks.SectorRangeCalc` | dag/dag_romutil.c:2264-2318 | the two walks find `Holding` and `Ending`, or panic |
| `Sectors.Blocks.SectorToAddress` | dag/dag_romutil.c:2321-2344 | the walk with `<=` finds `First`, or panics |
| `Sectors.Blocks.SectorToEndAddress` | dag/dag_romutil.c:2347-2371 | the walk with `<` finds `Behind`, or panics |
| `Sectors.AddressInSector` | dag/dag_romutil.c:2264-2371 | every address on the chip lies between the start and the end of the sector computed for it |
| `Sectors.BehindIsNext` | dag/dag_romutil.c:2321-2371 | the end of a sector is the start of the next, across regions too: the `<=` and `<` tests agree |
| `Sectors.HoldingOrder` | dag/dag_romutil.c:2264-2295 | sector numbers and addresses are in the same order |
| `Sectors.RangeIsStretch` | dag/dag_romutil.c:2296-2318 | the sectors from start to end-1 are one stretch of addresses, which reaches `eaddr` exactly when that is a sector boundary |
| `Sectors.CoveredExactly` | dag/dag_romutil.c:2434-2494 | the sectors visited cover the range exactly when it ends at a boundary or in the sector where it begins |
| `Descr.Descriptor.Parse` | camio_descr.c:20-128 | accepts what `Read` accepts, with the same protocol, query and linked options, last `next` NULL; options read into a used record are lost |
| `Descr.Descriptor.ParseOptions` | camio_descr.c:68-125 | the loop over options links the nodes in the order of the text |
| `Descr.LinkedIsFollowed` | camio_descr.c:68-125 | a program that starts at the head and follows the links meets exactly these nodes in this order, and then NULL |
| `Descr.RoundTripExactly` | camio_descr.c:20-128 | a description survives printing and parsing exactly when no part holds what ends it and the text is not empty |
| `Descr.AcceptedPrintsBack` | camio_descr.c:20-128 | every accepted text prints again as it was |
| `Descr.AcceptedExactly` | camio_descr.c:20-128 | the accepted texts are the printed forms of well-formed descriptions |
| `ClArg.Best` | dag/dagclarg.c:634-659 | the option taken is the first of those whose matching name is longest |
| `ClArg.Header.BestLong` | dag/dagclarg.c:634-659 | the loop over options finds it |
| `ClArg.Header.ReadBunch` | dag/dagclarg.c:702-770 | the loop over run-together letters, with its argument that may be joined, may fail and be read as letters, or come next |
| `ClArg.Header.Parse` | dag/dagclarg.c:602-813 | a call does what `Parsed` says, keeps the positions valid, and never writes outside the slots for unprocessed arguments |
| `ClArg.Header.ResetParser` | dag/dagclarg.c:967-995 | a reset gives the first state and fresh slots, and keeps the options |
| `ClArg.NamedLength` | dag/dagclarg.c:236-256 | as much of an argument is taken for a long name as the first name that begins it has letters |
| `ClArg.NextAnswered` | dag/dagclarg.c:772-790 | an option that wants an argument and is named alone answers 1 with its code and goes on behind the next argument if it accepts it, and -1 otherwise |
| `ClArg.FlagAnswered` | dag/dagclarg.c:772-812 | one that wants none answers 1 with its code |
| `ClArg.LongJoinedAnswered` | dag/dagclarg.c:660-676 | text joined to a long name is the argument if the option accepts it; else the next argument is |
| `ClArg.LetterJoinedAnswered` | dag/dagclarg.c:702-770 | text joined to a letter is the argument if the option accepts it; else it is read as more letters |
| `ClArg.UnknownAnswered` | dag/dagclarg.c:755-812 | what names no option is answered 1 with code -1, and kept unless it is in a bunch of letters |
| `ClArg.CallProgress` | dag/dagclarg.c:602-813 | every 1 or -1 gets ahead, 0 is said exactly at the end and at "--", and a position is 0 or that of a letter |
| `ClArg.CallsBounded` | dag/dagclarg.c:602-813 | there are no more calls that say 1 than characters and arguments left |
| `ClArg.KeptExactly` | dag/dagclarg.c:602-813 | an argument is kept as unprocessed exactly when its option is unknown and it is not a bunch of letters |
| `ClArg.RunInv` | dag/dagclarg.c:602-995 | over all calls and resets the unprocessed arguments are some of those passed, in order, and fit their slots |
| `ClArg.TogetherIsSeparate` | dag/dagclarg.c:702-770 | flags run together give the codes they give one by one |
| `ClArg.AbortsExactly` | dag/dagclarg.c:192-244 | the "internal error" assert fails exactly when the best long match takes no argument and the argument goes on behind its name |
| `IpSum.IpSumCalc` | dag/dag_platform_linux.c:8-35 | the two loops return the complement of the folded sum of the header's words |
| `IpSum.FoldKeeps` | dag/dag_platform_linux.c:25-29 | a turn of the folding loop makes the sum smaller and keeps it modulo 65535 |
| `IpSum.FoldedKeeps` | dag/dag_platform_linux.c:25-29 | so does the whole loop, and it makes 0 of 0 only |
| `IpSum.StoredGivesZero` | dag/dag_platform_linux.c:8-35 | storing the value computed with the field 0 makes the function return 0 (section 3.1 of RFC 791), wherever the field is |
| `IpSum.AcceptedExactly` | dag/dag_platform_linux.c:8-35 | 0 is returned exactly when the words add up to a multiple of 65535 other than 0 |
| `IpSum.AcceptedNumbers` | dag/dag_platform_linux.c:8-35 | that is, when the header, read as one number with the highest byte first, is such a multiple |

## Left out

- Opening, mapping, register enumeration, locking, the ARM path, the DSMU flush and the Windows branches of
  `dag/dagapi.c`: foreign calls and hardware registers. `dag_get_stream_buffer_level` is modelled for transmit streams.
- Timeouts and sleeping: a waiting loop ends when its list of readings does. Termination of a wait is not modelled.
- The synchronisation thread of soft DAG, and starting a stream from other than its initial pointers.
- Holes whose size is within 8 bytes of 2^31 or less than two safety windows.
- RxStream.Stream.AdvanceStream: only the receive branch of `dag_advance_stream`; a bottom pointer below the buffer is
  not modelled.
- SoftDag.Fifo: states reached by a commit whose reservation a later look has undone are no runs of the machine;
  `SoftDag.LateCommit` says what goes wrong there.
- Inline.ForwardingSafe: the machine counts bytes and knows lengths; that a good header lies where a record begins is an
  assumption on the card (`Inline.CallIsRun`). Like the call, it does not ask whether a record is longer than what is
  mapped twice. With mindata 0 there are no runs; `Inline.NothingCapturedIsNotRead` says what a call does then.
- CrcTables.Tables.Aal5Crc: bytes are unsigned; the source's `char` pointer makes no difference after its mask.
- The HEC and CRC-10 checks: their table loop depends on the sign of `char`, and CRC-10 is not used.
- Flash.Program: the ready bit shows at the first poll after a write, or, for an erase that the chip never finishes,
  not at all; delays are not modelled.
- ROM controllers of version 2 and their functions (`cfi_erase_v2` only by its loop bounds), the AMD commands,
  identification, reload, image selection.
- Erase.Erase: ranges that begin inside a sector are erased as if a sector began there.
- Swid.DagswidRead: for a length of 0 the source's scratch buffer is one byte short; the byte behind it is a place of
  its own here. Failing `malloc` is not modelled.
- Descr.Descriptor.Parse: failing `calloc`, and freeing; an error ends the program, so that nothing is said of the
  record after one.
- ClArg.Header.Parse: the list of options is a sequence; at most four aliases, usage text, storing the converted values
  and messages are not modelled.
- `dag_protocol_decode.c`, `dagerf.c`, `dagimg.c`, `dagname.c`, `dag_smbus.c`, `dagload.c`, `camio_cat.c`,
  `camio_errors.c`, `camio_types.c`: printing, table lookup, device plumbing or easy containers.
