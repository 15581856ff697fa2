# A verified model of the CH582 sensor node firmware

The project models the parts of the firmware that carry hard guarantees, and proves them for all
inputs, all runs and all interleavings in which interrupts do not nest:

- **1-Wire ROM enumeration.** Two independent search algorithms walk a binary trie of 64-bit ROM
  codes over a shared bus. `RomOrder` describes the answer (the devices in increasing order, least
  significant bit first) without reference to either algorithm; `RomSearch` (the incremental
  `LastDiscrepancy` search) and `RomEnumeration` (the explicit stack of discrepancies) are proved
  to produce it, bit slot by bit slot on the bus of `OneWireBus`.
- **Log-structured flash store.** `StoreLog` is the byte level (a write can only clear bits, an
  erase sets them) and `StoreMap` the key-to-content map that the logs stand for. `StoreView` is the
  store as a value, with every step of the driver as a function of it, so that what a write will do
  can be told before it starts. `StoreFind` and `StoreLookup` prove what a lookup finds, deletes and
  when it fails; `StoreCollect` and `StoreCounts` what garbage collection does to the map and to the
  number of records of each key; `StoreWrites` and `StoreOutcomes` what a write as a whole does to
  both. `FlashStore` is the driver
  itself, with its RAM page table, tombstones and garbage collection, proved to take exactly those
  steps; a ghost history keeps every flash image between two EEPROM operations, which is what the
  power-loss statements are about. `StoreRun` has four runs of the driver from blank flash that go
  wrong.
- **Modbus RTU reception.** `RtuLine` is a state machine over byte interrupts, timer interrupts and
  single main-loop statements; `RtuReceiver` is the code's own form of it, proved to refine it.
- **CRC family and framing.** One CRC-16 in three implementations (`Crc16`, `Crc16Table`,
  `CrcCheck`), one CRC-8 in two, and the error detection of RTU frames (`RtuFrame`): bursts of 16
  bits, odd numbers of bits, and any two bits, the last by how long the register takes to come back
  (`Crc16Order`).
- **Modbus requests and responses.** `ModbusService` describes what a slave owes for each request,
  and `ModbusBytes` tells the same byte by byte and bit by bit. `ModbusSlave` and `ModbusMaster` are
  the two sides of the library, and `ModbusWire` joins them: what the application answers is what
  the master is told. `ModbusRoundTrip` writes and reads back over the line.
- **Streaming MD5** (`Md5Spec`, `Md5`), **calendar conversion** (`Calendar`, `RealTimeClock`) and
  the **capacitor codes** of the sensor (`Capacitance`).

Code that changes things step by step is modelled by classes and methods that do the same steps;
each is proved against a specification function or predicate, and what the firmware is for is
proved about that specification.

Conventions: ROM codes are 64 booleans in the order the bus carries them; flash bytes are integers
0..255 with AND defined bit by bit; 16-bit register values and addresses are integers below 65536;
CRC registers are bit vectors; capacitances are real numbers. Wrap-around is written out wherever
the code can reach it.

Results a caller may not expect:

- The search that starts with `onewire_first` finds **no device at all** when some device on the
  bus has family byte 0, because that device sorts first and its family byte reads as a failure.
- The incremental table-driven CRC answers 0 whenever the number of bytes fed is a multiple of
  65536, because it takes the wrapped count for an empty message.
- A write that collects a page deletes the old record of its key at the place where that record
  was before the collection. When that place was on the collected page and the collection went
  through, the page is empty by then: nothing is deleted, and the key ends up with the new content
  **and** the old one, if that was moved. If the new record opens that very page, the deletion lands in the new
  record: at the start of the page it takes the write back; further on it fails, except when the
  two bytes that stand where a header has its index happen to be the key.
- In that last case the page table no longer agrees with the flash, and **no other write of a key
  with one record** breaks it. Six legal writes on blank flash get there (`StoreRun.CorruptingRun`).
- A key with two records **loses both** at the next lookup: the first read may still return a
  content, and afterwards the key is gone. A write that returns 0 leaves a key with two records
  exactly when its collection copied a record of that key and either stopped before it could erase
  the page, or the key is the one written and its new record stands beside the copy
  (`StoreOutcomes.Doubles`). A collection stops midway when a record to be moved no longer fits, so
  that **keys nobody wrote are lost as well**. `StoreRun.InterruptedRun`, `StoreRun.BystanderRun` and
  `StoreRun.MovedRun` lose a key in each of these ways, by successful writes on blank flash and one
  lookup.

## Model

| member | source | states |
|---|---|---|
| RomOrder.LessTotal | src/onewire.c:1191-1253 | the bit order in which devices are found is total; with LessTransitive and LessIrreflexive it is a strict order |
| RomOrder.FoundIsSuccessor | src/onewire.c:1191-1253 | resuming at the last zero branch finds exactly the next larger device on the bus |
| RomOrder.FirstIsMinimum | src/onewire.c:954-962 | a search without discrepancy finds the smallest device |
| RomOrder.MaximumHasNoZeros | src/onewire.c:1091-1100 | no zero branch is left exactly when the device just found is the largest |
| RomOrder.ListsUnique | src/onewire.c:1191-1253 | an in-order listing is determined by its length, so both algorithms give the same sequence |
| RomOrder.ListsDone | src/onewire.c:1151-1166 | a listing whose last device has no zero branch left is complete |
| OneWireBus.Bus.ReadBit | src/onewire.c:193-218 | a read slot gives the wired AND of the participants' bits, then of their complements |
| OneWireBus.Bus.WriteBit | src/onewire.c:152-170 | a write slot keeps exactly the participants whose bit agrees |
| OneWireBus.Bus.Slots | src/onewire.c:1010-1030 | the two read slots tell which of the two branches has a device |
| RomSearch.Searcher.Search | src/onewire.c:996-1121 | one search: the device found, the saved discrepancies and last-device flag, and when it reports failure and resets |
| RomSearch.Searcher.First | src/onewire.c:954-962 | finds the smallest device; succeeds exactly when its family byte is not 0 |
| RomSearch.Searcher.Next | src/onewire.c:970-974 | resumes the walk; nothing is found after the last device |
| RomSearch.Searcher.FindDevices | src/onewire.c:1151-1166 | lists every device once, in order, if no family byte is 0, and none otherwise |
| RomSearch.Searcher.Verify | src/onewire.c:1262-1303 | true exactly when the ROM is on the bus, its family byte is not 0, and its last bit is 1 or no device shares its first 63 bits with last bit 1; search state and ROM buffer are restored |
| RomSearch.VerifyFinds | src/onewire.c:1262-1303 | the search that verify runs retraces the ROM exactly under that condition |
| RomSearch.ZeroFamilyFirst | src/onewire.c:1101-1112 | the first device found has family byte 0 exactly when some device has |
| RomEnumeration.SearchRom | src/onewire.c:1191-1253 | terminates with the first 100, or all, of the devices in increasing order in the rows of romID |
| RomEnumeration.Pass | src/onewire.c:1196-1252 | one pass writes the device found into its row, leaves the other rows, and leaves in the stack that device's zero branches |
| RomEnumeration.StackStep | src/onewire.c:1205-1235 | the stack stays the list of open discrepancies of the path walked so far, at every bit |
| RomEnumeration.BufferIncreases | src/onewire.c:1205-1235 | at any bit of any pass the stack is strictly increasing and within 1..64, so it fits the buffer |
| RomEnumeration.ResumeAfter | src/onewire.c:1191-1253 | the passes list the devices in order, and the stack runs empty exactly at the last one |
| StoreLog.AndClears | src/storage.c:53-75 | programming can only clear bits |
| StoreLog.ProgramClears | src/storage.c:53-75 | programming a page sets no bit anywhere in it |
| StoreLog.ProgramAppend | src/storage.c:265-319 | programming a record onto the erased end of a page turns its image into the image of the longer log |
| StoreLog.ProgramTombstone | src/storage.c:482-533 | programming a header with index 0 turns the image into that of the log with the record dead |
| StoreLog.ReadRecord | src/storage.c:77-94 | the bytes at a record's offset are its header and content |
| StoreLog.RecordBytes | src/storage.c:77-94 | the layout of a page: the status byte, then of each record length, CRC, index low byte, index high byte and content, then 0xFF |
| StoreMap.WriteOver | src/storage.c:890-941 | appending a record and killing the key's old one updates the map at that key only and keeps it a map |
| StoreMap.MovedErase | src/storage.c:321-381 | copying the live records with a nonzero CRC byte off a page and erasing it keeps exactly the other pages' records and those |
| StoreMap.MovedCollected | src/storage.c:321-381 | also when it stops midway, collection invents nothing, loses at most zero-CRC records, and leaves unique records elsewhere unique |
| StoreFind.FindOne | src/storage.c:777-824 | a key with at most one record is found at its place without any change, and not found if it has none |
| StoreFind.FindSeveral | src/storage.c:777-824 | of several records of a key a lookup deletes at least two, and all of them unless it fails; of exactly two, both are always lost |
| StoreLookup.FindFails | src/storage.c:777-824 | a lookup fails exactly when, with two or more matches behind, it comes to a further page that is not erased while the page of the match seen last holds live records of other keys; the pages told by their distance below the active one |
| StoreLookup.LookupKeeps | src/storage.c:777-824 | of a key with at most two records a lookup keeps the record exactly if there is one; two are both lost |
| StoreFind.FoundFirst | src/storage.c:777-824 | the content returned is that of the last record of the key on the active page or, if that has none, on the first page that has one of active - 1, active - 2 and so on modulo 4, counting from page 0 when no page is active |
| StoreCollect.FirstIsNearest | src/storage.c:238-252 | the page found is the one with the status at the least distance above the start, modulo 4, and none is found only if there is none |
| StoreCollect.VictimIsFewest | src/storage.c:384-411 | the page picked for collection is FULL with the fewest live records, every FULL page nearer above the active one having more; one is picked whenever some page is FULL |
| StoreCollect.OneFewest | src/storage.c:384-411 | there is only one such page |
| StoreCollect.VictimExists | src/storage.c:846-851 | with an active page and at most two erased ones some page is FULL, so the guard of collection always finds a victim |
| StoreCollect.TargetIsNearest | src/storage.c:357-366 | a moved record stays on the active page if it fits there, and else goes to the nearest erased page above it |
| StoreCollect.CollectsWhen | src/storage.c:833-851 | collection is called for exactly when the active page has no room for a legal length and at least two pages are in use |
| StoreCollect.PlaceIsChosen | src/storage.c:826-880 | the page for a new record: the active one if it has room, after the collection if there is one, else the nearest erased page above it, or none |
| StoreCollect.RelocatedMoved | src/storage.c:332-371 | after any number of records of the collected page the other pages hold what they held and copies of the movable ones so far |
| StoreCollect.SweptIsCollected | src/storage.c:321-381 | what collecting a page leaves of the map, whether it goes through or stops midway |
| StoreCounts.LiveAtMostOne | src/storage.c:534-610 | a key has at most one record exactly if the number of its live records is at most one |
| StoreCounts.RelocatedCounts | src/storage.c:332-371 | after any number of records of the collected page each key has as many more records as it had movable ones among those copied |
| StoreCounts.SweptCounts | src/storage.c:321-381 | the number of records of every key after a collection: the copies in addition, and less those of the page if it was erased |
| StoreWrites.PlainWrite | src/storage.c:890-941 | a write that collects nothing succeeds exactly when there is room, and then updates the map at its key only |
| StoreWrites.CollectElsewhere | src/storage.c:890-941 | a write that collects a page without a record of its key: succeeds exactly when it finds room, and the key then holds just the new content |
| StoreWrites.CollectHere | src/storage.c:890-941 | a write that collects the page of its key's record: both contents, only the old one, or a stale deletion, and when each of them |
| StoreWrites.StaleWhen | src/storage.c:907-933 | from the state before: a write deletes through a stale location exactly when its key's page is emptied and the new record opens it again, the old record not having been the page's first; it tears the page exactly when the bytes there read as the key, and otherwise fails |
| StoreWrites.TornWhen | src/storage.c:907-933 | a write tears a page exactly when its location is stale, the bytes there read as the key, and deleting does not erase the page; the rest of the store is then as after the append |
| StoreWrites.StagesPreserve | src/storage.c:920-933 | neither the append nor the deletion loses a content that the collection kept, but for the key's old one once the new one is there |
| StoreOutcomes.WriteDoubles | src/storage.c:890-941 | exactly which keys have two records after a write that tears nothing, of all keys that had at most one, and that none has more: told from the state before, for the key written and for every other |
| StoreOutcomes.LookupAfterWrite | src/storage.c:777-941 | after such a write a lookup keeps a key it had exactly if the write did not double it |
| StoreOutcomes.CollectMidway | src/storage.c:890-941 | a write whose collection stopped midway on the page of its key's record: the key holds the new content, and the copy if one was made; and exactly the keys with a copied record, the written one included, have two records |
| StoreOutcomes.WriteMeans | src/storage.c:890-941 | the result, the map, and which keys have two records, after a write that tears nothing, in all these cases |
| StoreOutcomes.WriteSeveral | src/storage.c:890-941 | a write of a key with several records, unless it deletes through a stale location: fails exactly when its lookup does, as FindFails tells, and of exactly two records both are then gone; otherwise the key holds at most the new content, the other keys hold what the collection keeps, and exactly those copied by an interrupted collection have two records |
| StoreOutcomes.StaleSeveral | src/storage.c:890-941 | the same write through a stale location: once the new record is there, the key holds just that and the others are as WriteSeveral tells; the deletion then fails, or erases the page, or tears it, each with its condition and, unless torn, the map |
| FlashStore.Store.constructor | src/storage.c:762-775 | a store on blank flash has an agreeing page table and holds no key |
| FlashStore.Store.EepromWrite | src/storage.c:53-75 | every EEPROM write ANDs into the flash, so it sets no bit; each image is recorded |
| FlashStore.Store.PageWrite | src/storage.c:53-75 | bounds checks, and the flash after the write |
| FlashStore.Store.PageErase | src/storage.c:111-128 | the page and its table row are blank afterwards, and the erased count is right |
| FlashStore.Store.StatusUpdate | src/storage.c:153-182 | status byte, table row, active page and erased count change together; a move from ERASED to ACTIVE to FULL keeps the table agreeing |
| FlashStore.Store.FirstPage | src/storage.c:238-252 | the page with the status at the least distance above the start, 4 if there is none, or -1 |
| FlashStore.Store.PageWriteItem | src/storage.c:265-319 | succeeds exactly for a valid index and a page that is not FULL when used bytes, header and content stay below 255; appends the record, updates the table and closes the page when fewer than 4 bytes are left; otherwise nothing changes |
| FlashStore.Store.DeleteWithLoc | src/storage.c:482-533 | for every location: the record that starts there is killed, and a full page with no live record left erased; where no record starts, the exact bytes cleared or nothing; a failure changes nothing |
| FlashStore.Store.PageFindItem | src/storage.c:534-610 | scans a page record by record, deleting every match but the last one seen |
| FlashStore.Store.FindItem | src/storage.c:777-824 | finds the only record of a key, changing nothing; of a key with two records loses both, of one with more all unless it fails, exactly when FindFails tells; says whose content is returned; only records of that key are ever touched |
| FlashStore.Store.PageRealign | src/storage.c:321-381 | on success the page is erased and a key holds a content exactly if it did elsewhere or in a movable record of the page, unique records staying unique; on failure every key holds what it held, but exactly the keys with a record already copied have two; every intermediate image keeps all of it |
| FlashStore.Store.ChooseVictim | src/storage.c:384-411 | picks the full page with the fewest live records, the nearest above the active page among equals, and none only if no page is full |
| FlashStore.Store.Realign | src/storage.c:384-419 | collects exactly that page, whenever some page is full, and changes nothing otherwise |
| FlashStore.Store.GetAvailablePage | src/storage.c:826-880 | the page that results, as PlaceIsChosen tells, and the whole new state, from the state before; a page returned is the active one; every image on the way keeps what the collection keeps |
| FlashStore.Store.WriteItem | src/storage.c:890-941 | result and new state are those of `Write`; for a key with at most one record they mean what WriteMeans says, of the map and of the number of records of every key; every flash image on the way keeps each content that collection keeps or, for the key, the new one; and the page table disagrees with the flash afterwards exactly when StaleWhen's condition holds of the state before; in every state, exactly when `Corrupts` does, a condition on the state before |
| FlashStore.Store.TornConsistent | src/storage.c:482-533 | with one page torn, the table fits some reading of the flash exactly when that page reads as a log of the same size with one live record less |
| FlashStore.Store.TornBreaks | src/storage.c:907-933 | which never happens when the key had at most one record |
| FlashStore.Store.ReadItem | src/storage.c:950-975 | of a key with at most one record returns the content cut to the buffer, or nothing for a missing key, and changes nothing; -1 exactly for bad arguments or a lookup that fails, as FindFails tells; a key with several records is gone afterwards and its first content returned, if the lookup does not fail; with exactly two it is gone in any case |
| FlashStore.WriteThenRead | src/storage.c:890-975 | unless the write collects the page of its key's record, the key reads as written; if it collects nothing, every other key reads as before |
| FlashStore.WriteThenLookUp | src/storage.c:890-975 | a write and then a lookup of any key that had at most one record: the key is there exactly if it was after the write and the write did not double it |
| StoreRun.Write6 | src/storage.c:890-941 | a store and a content for which the condition of StaleWhen holds and the bytes read as the key |
| StoreRun.CorruptingRun | src/storage.c:890-941 | six writes from blank flash, with the CRC-8 of the firmware, all returning 0, that end with a page table no reading of the flash agrees with |
| StoreRun.HalfDoubles | src/storage.c:826-880 | a store whose collection stops midway, and two writes, of its key 1 and of a new key, that both leave key 1 with two records |
| StoreRun.InterruptedRun | src/storage.c:890-975 | five successful writes from blank flash, the last rewriting key 1, and one lookup, after which key 1 is gone: the collection stopped midway |
| StoreRun.BystanderRun | src/storage.c:890-975 | the same with the last write to a new key: key 1, which that write did not name, is gone after one lookup |
| StoreRun.FullDoubles | src/storage.c:826-941 | a store whose collection goes through and moves the written key's old record, so that the key has two |
| StoreRun.MovedRun | src/storage.c:890-975 | four successful writes from blank flash that get there, and one lookup, after which the key is gone |
| Crc16.ModbusCRC | src/liblightmodbus-3.0/include/lightmodbus/base.impl.h:126-146 | the bit-serial loop computes the CRC specification |
| Crc16.CrcFeeds | src/liblightmodbus-3.0/include/lightmodbus/base.impl.h:126-146 | bytes enter the register bit by bit, low bit first |
| Crc16.FeedLinear | src/liblightmodbus-3.0/include/lightmodbus/base.impl.h:126-146 | the CRC is linear over exclusive-or |
| Crc16.BurstIsSeen | src/liblightmodbus-3.0/include/lightmodbus/base.impl.h:126-146 | an error pattern confined to 16 consecutive bits never has residue 0 |
| Crc16.FeedParity | src/liblightmodbus-3.0/include/lightmodbus/base.impl.h:126-146 | feeding keeps the parity of the register but for the bits set in the message, the polynomial having the factor x + 1 |
| Crc16Order.NoReturn | src/liblightmodbus-3.0/include/lightmodbus/base.impl.h:126-146 | stepping the register from 1 it is not 1 again within 2048 steps, the bits of the longest frame |
| Crc16.CrcConcat | src/utils/crc16.c:87-100 | the CRC of a concatenation continues from the CRC of its first part |
| Crc16Table.EntryIsCrc | src/utils/crc16.c:4-76 | every entry of the two 256-byte tables is the CRC of its index |
| Crc16Table.LookupIsUpdate | src/utils/crc16.c:87-100 | one table step equals eight bit-serial steps |
| Crc16Table.Context.Update | src/utils/crc16.c:87-100 | the context holds the bit-serial CRC of everything fed, however it was cut up |
| Crc16Table.Context.Value | src/utils/crc16.c:102-107 | that CRC, except 0 when the byte count is a multiple of 65536 |
| Crc16Table.CrcOf | src/utils/crc16.c:114-119 | equals modbusCRC for every nonempty string shorter than 65536 bytes |
| CrcCheck.CheckCrc16 | src/utils/crc.c:267-299 | the generic left-shifting loop, with reflection of input and output |
| CrcCheck.ReflectedCrc | src/utils/crc.c:267-299 | reflecting a left-shifting CRC gives the right-shifting CRC of the reflected polynomial |
| CrcCheck.CrcCheckModbus | src/utils/crc.c:267-353 | with the MODBUS parameters it equals modbusCRC on every string |
| CrcCheck.CheckCrc8 | src/utils/crc.c:234-266 | the 8-bit generic loop |
| CrcCheck.OneWireCrc8 | src/onewire.c:1126-1148 | the 1-Wire CRC loop computes its specification |
| CrcCheck.MaximIsOneWire | src/utils/crc.c:234-266 | with the MAXIM parameters the generic CRC-8 equals the 1-Wire CRC on every string |
| RtuFrame.UnpackRTU | src/liblightmodbus-3.0/include/lightmodbus/base.h:489-512 | length and CRC checks, then address and PDU |
| RtuFrame.FrameLayout | src/liblightmodbus-3.0/include/lightmodbus/base.h:489-512 | an accepted frame has 4 to 256 bytes: address, PDU, and the CRC of these with polynomial 0xA001 and start value 0xFFFF, low byte first |
| RtuFrame.KnownFrame | src/liblightmodbus-3.0/include/lightmodbus/base.h:489-512 | the frame 02 07 41 12, the CRC example of the Modbus over serial line guide, is accepted |
| RtuFrame.PackRTU | src/liblightmodbus-3.0/include/lightmodbus/base.h:522-538 | fills in address and CRC and nothing else |
| RtuFrame.PackThenUnpack | src/liblightmodbus-3.0/include/lightmodbus/base.h:489-538 | packing and unpacking gives back address and PDU, for every legal length |
| RtuFrame.AcceptedIffZeroResidue | src/liblightmodbus-3.0/include/lightmodbus/base.h:489-512 | a frame is accepted exactly when the CRC over the whole frame is 0 |
| RtuFrame.BurstRejected | src/liblightmodbus-3.0/include/lightmodbus/base.h:489-538 | any corruption of an accepted frame within 16 consecutive bits, CRC included, is rejected |
| RtuFrame.OddFlipsRejected | src/liblightmodbus-3.0/include/lightmodbus/base.h:489-512 | flipping any odd number of bits of an accepted frame, wherever they are, is rejected |
| RtuFrame.TwoFlipsRejected | src/liblightmodbus-3.0/include/lightmodbus/base.h:489-512 | flipping any two bits of an accepted frame, however far apart, is rejected |
| RtuFrame.GeneratorSlipsThrough | src/liblightmodbus-3.0/include/lightmodbus/base.h:489-512 | 16 is the best bound for bursts: a particular 17-bit burst, which flips four bits, is never noticed |
| RtuFrame.BitOnTheLine | src/liblightmodbus-3.0/include/lightmodbus/base.impl.h:126-146 | the bit order of a burst is the order of the bits on the line |
| RtuLine.OneMore | src/modbus.c:54-138 | how status, tick count, error flag and buffer follow a transmission, event by event |
| RtuLine.ServingStep | src/modbus.c:38-43 | between any two statements of the frame check, interrupts leave frame, length and error flag alone |
| RtuLine.ServiceCompletes | src/modbus.c:318-345 | under every interleaving the frame is handed over once and the machine ends IDLE with length 0 |
| RtuLine.HandsOverDeliveries | src/modbus.c:54-138 | for every event sequence the requests handed to the parser are exactly the transmissions without a late byte, cut to 256 bytes |
| RtuLine.CleanFrameArrives | src/modbus.c:54-138 | a frame of at most 256 bytes sent without a late byte and followed by 7 silent ticks is handed over unchanged |
| RtuLine.FrameArrives | src/modbus.c:54-138 | at most 256 bytes with at most two ticks between them, followed by seven ticks, are handed over unchanged |
| RtuLine.LateFrameDropped | src/modbus.c:54-138 | a byte that comes three to six ticks late, and nothing of the transmission is handed over |
| RtuLine.SixTicksWait | src/modbus.c:54-90 | six ticks of silence do not end a transmission yet |
| RtuLine.FinishedIsATransmission | src/modbus.c:54-90 | whenever the status is RECV_FINISH, until the main loop clears the length, the buffer is the first 256 bytes of a transmission without a late byte that 7 silent ticks followed, and the error flag is clear |
| RtuLine.TimerRuns | src/modbus.c:25-37 | the timer runs whenever the status is RECV or CTRL_AND_WAITING, whatever the reference count |
| RtuLine.SilenceEndsIt | src/modbus.c:54-90 | seven silent ticks end any transmission |
| RtuReceiver.Slave.TimerInterrupt | src/modbus.c:54-90 | the timer interrupt refines the machine's tick |
| RtuReceiver.Slave.SlaveRecv | src/modbus.c:100-138 | the receive interrupt refines the machine's byte step |
| RtuReceiver.Slave.FrameCheckStatement | src/modbus.c:318-345 | each main-loop statement refines the machine's step |
| RtuReceiver.Session | src/modbus.c:54-138 | a whole session of the handlers hands over exactly the deliverable transmissions |
| ModbusPdu.WordBack | src/liblightmodbus-3.0/include/lightmodbus/base.h:385-400 | a word reads back as written |
| ModbusPdu.HighFirst | src/liblightmodbus-3.0/include/lightmodbus/base.h:385-400 | the first byte of a word written is its high byte, the second its low byte |
| ModbusPdu.ReadHighFirst | src/liblightmodbus-3.0/include/lightmodbus/base.h:385-400 | and so are the two bytes of a word read |
| ModbusPdu.WriteReadBit | src/liblightmodbus-3.0/include/lightmodbus/base.h:333-350 | writing a packed bit sets it and leaves every other bit |
| ModbusPdu.CarriedValues | src/liblightmodbus-3.0/include/lightmodbus/base.h:333-400 | values read from their wire form are the values put in, bits as 0 and 1 |
| ModbusSlave.Slave.AllocateResponse | src/liblightmodbus-3.0/include/lightmodbus/base.impl.h:98-118 | the response length follows the PDU size, or is 0 when the 256-byte buffer is too small |
| ModbusSlave.Slave.BuildException | src/liblightmodbus-3.0/include/lightmodbus/slave.impl.h:118-134 | the exception response |
| ModbusSlave.Slave.ParseRequest01020304 | src/liblightmodbus-3.0/include/lightmodbus/slave_func.impl.h:21-121 | reads: malformed, refused, or the application's answers in order in the response, also told by the bytes of request and response |
| ModbusSlave.Slave.ParseRequest0506 | src/liblightmodbus-3.0/include/lightmodbus/slave_func.impl.h:131-180 | single writes: checked, made once, echoed; the register and value told by their bytes |
| ModbusSlave.Slave.ParseRequest1516 | src/liblightmodbus-3.0/include/lightmodbus/slave_func.impl.h:190-260 | multiple writes: all checked before any is made, then made in order; registers and values told by the bytes and bits of the request |
| ModbusSlave.Slave.ParseRequest22 | src/liblightmodbus-3.0/include/lightmodbus/slave_func.impl.h:270-331 | masked write: the two checks, the read and the write, in order; the word written told bit by bit |
| ModbusSlave.Slave.ParseRequest | src/liblightmodbus-3.0/include/lightmodbus/slave.impl.h:249-260 | every function code is served by its handler, or by exception 1 |
| ModbusSlave.Slave.ParseRequestRTU | src/liblightmodbus-3.0/include/lightmodbus/slave.impl.h:299-348 | a frame with bad length, CRC or address asks the application nothing and leaves the response; any other is served, with an empty response for a broadcast and otherwise a frame that unpacks to the slave's address and the reply |
| ModbusBytes.ServedByBytes | src/liblightmodbus-3.0/include/lightmodbus/slave_func.impl.h:21-331 | what the slave asks and answers for every request, told by bytes: big-endian words, bits from the low end of each byte, lengths, limits and exception codes |
| ModbusBytes.ReadQueriesAre | src/liblightmodbus-3.0/include/lightmodbus/slave_func.impl.h:34-115 | functions 1 to 4 ask for coils, discrete inputs, holding registers and input registers, from register 256 times the first byte plus the second on, each checked before any is read |
| ModbusBytes.WriteQueriesAre | src/liblightmodbus-3.0/include/lightmodbus/slave_func.impl.h:131-260 | functions 5 and 15 write coils, 6 and 16 holding registers, each register at its place |
| ModbusBytes.InputsAreNotWritten | src/liblightmodbus-3.0/include/lightmodbus/slave_func.impl.h:131-331 | no request writes a discrete input or an input register |
| ModbusBytes.ErrorReplies | src/liblightmodbus-3.0/include/lightmodbus/slave_func.impl.h:21-331 | which requests are answered with exception 1, 2 and 3, asking nothing |
| ModbusBytes.RefusalReply | src/liblightmodbus-3.0/include/lightmodbus/slave_func.impl.h:77-91 | a request whose check is refused is answered with the exception of the application, or 4 for a failure |
| ModbusBytes.MaskedBit | src/liblightmodbus-3.0/include/lightmodbus/slave_func.impl.h:305-305 | each bit of the word a masked write stores is that of the value read where the and-mask is set, and that of the or-mask elsewhere |
| ModbusMaster.Master.BuildRequest01020304 | src/liblightmodbus-3.0/include/lightmodbus/master_func.impl.h:261-300 | the error for each bad argument, otherwise the request PDU: function, index and count, high bytes first |
| ModbusMaster.Master.BuildRequest0506 | src/liblightmodbus-3.0/include/lightmodbus/master_func.impl.h:311-332 | the request PDU, high bytes first; a coil is sent as 00 00 or FF 00 |
| ModbusMaster.Master.BuildRequest15 | src/liblightmodbus-3.0/include/lightmodbus/master_func.impl.h:344-388 | the head of the request by bytes; the data are the bytes given, cut off at the first count bits with zero padding, at most 246 |
| ModbusMaster.Master.BuildRequest16 | src/liblightmodbus-3.0/include/lightmodbus/master_func.impl.h:400-428 | the head of the request by bytes; the data are the words given in order, each high byte first, at most 246 bytes |
| ModbusMaster.Master.BuildRequest22 | src/liblightmodbus-3.0/include/lightmodbus/master_func.impl.h:438-453 | the request PDU with index and both masks, high bytes first |
| ModbusMaster.Master.EndRequestRTU | src/liblightmodbus-3.0/include/lightmodbus/master.impl.h:141-152 | the framed request unpacks to address and PDU; without an allocated request a LENGTH error and no change |
| ModbusMaster.Master.ParseResponse01020304 | src/liblightmodbus-3.0/include/lightmodbus/master_func.impl.h:28-116 | accepts exactly the answers to the request, with the documented error for each defect, and calls back once per register, in order, with register and value |
| ModbusMaster.Master.ParseResponse0506 | src/liblightmodbus-3.0/include/lightmodbus/master_func.impl.h:132-154 | accepts exactly the echo of register and value, with the documented error for each difference |
| ModbusMaster.Master.ParseResponse1516 | src/liblightmodbus-3.0/include/lightmodbus/master_func.impl.h:172-211 | accepts exactly the acknowledgement of a well-formed request, with the documented error otherwise |
| ModbusMaster.Master.ParseResponse22 | src/liblightmodbus-3.0/include/lightmodbus/master_func.impl.h:226-247 | accepts exactly the echo of the request, with the documented error otherwise |
| ModbusMaster.Verdict | src/liblightmodbus-3.0/include/lightmodbus/master.impl.h:182-245 | no error exactly for legal lengths and a response that answers the request |
| ModbusMaster.ReadErrors | src/liblightmodbus-3.0/include/lightmodbus/master_func.impl.h:28-116 | the error for any response to a read, by the bytes of request and response |
| ModbusMaster.EchoErrors | src/liblightmodbus-3.0/include/lightmodbus/master_func.impl.h:132-154 | for a single write: a differing register is INDEX, then a differing value VALUE |
| ModbusMaster.WriteErrors | src/liblightmodbus-3.0/include/lightmodbus/master_func.impl.h:172-211 | for a multiple write: a differing register is INDEX, then a differing count COUNT, then the request is checked |
| ModbusMaster.OtherErrors | src/liblightmodbus-3.0/include/lightmodbus/master.impl.h:198-245 | for exceptions, responses of another function, masked writes and unknown functions |
| ModbusMaster.EmittedIs | src/liblightmodbus-3.0/include/lightmodbus/master_func.impl.h:45-113 | kind, number and station of each register handed over, by function code and bytes |
| ModbusMaster.EmittedBits | src/liblightmodbus-3.0/include/lightmodbus/master_func.impl.h:98-113 | the values handed over for functions 1 and 2 are the bits of the response, from the low end of each byte |
| ModbusMaster.EmittedWords | src/liblightmodbus-3.0/include/lightmodbus/master_func.impl.h:98-113 | and for functions 3 and 4 its words, high byte first |
| ModbusMaster.Master.ParseResponsePDU | src/liblightmodbus-3.0/include/lightmodbus/master.impl.h:198-245 | which error any two PDUs give, and what the callbacks are told |
| ModbusMaster.Master.ParseResponseRTU | src/liblightmodbus-3.0/include/lightmodbus/master.impl.h:260-313 | the same behind framing; a bad frame, a broadcast or another address gives its own error and calls nothing back |
| ModbusWire.ReadReplyAccepted | src/liblightmodbus-3.0/include/lightmodbus/slave_func.impl.h:21-121 | the master accepts every reply the slave owes to a legal read, and finds the application's answers in it |
| ModbusWire.ReadHandsOver | src/liblightmodbus-3.0/include/lightmodbus/master_func.impl.h:28-116 | what the master's callbacks are told about that reply: the values in order, or the exception |
| ModbusWire.ReadRegisters | src/liblightmodbus-3.0/include/lightmodbus/master_func.impl.h:28-116 | a read over the line hands the master the application's answers, each once and in order, or its exception |
| ModbusWire.WriteReplyAccepted | src/liblightmodbus-3.0/include/lightmodbus/slave_func.impl.h:190-260 | the master accepts every reply the slave owes to a legal multiple write |
| ModbusWire.WriteCoils | src/liblightmodbus-3.0/include/lightmodbus/master_func.impl.h:344-388 | a coil write over the line asks the application to write exactly the given bits, all or none |
| ModbusWire.WriteHoldingRegisters | src/liblightmodbus-3.0/include/lightmodbus/master_func.impl.h:400-428 | a register write over the line asks the application to write exactly the given words, all or none |
| ModbusWire.SingleReplyAccepted | src/liblightmodbus-3.0/include/lightmodbus/slave_func.impl.h:131-180 | the master accepts every reply the slave owes to a legal single write |
| ModbusWire.WriteOne | src/liblightmodbus-3.0/include/lightmodbus/master_func.impl.h:311-332 | a single write over the line asks the application once, a coil as 0 or 1 whatever nonzero number the master was given, and writes it if that is granted; otherwise the master is told the exception |
| ModbusWire.MaskReplyAccepted | src/liblightmodbus-3.0/include/lightmodbus/slave_func.impl.h:270-331 | the master accepts every reply the slave owes to a masked write, and learns of a refusal |
| ModbusWire.MaskWriteRegister | src/liblightmodbus-3.0/include/lightmodbus/master_func.impl.h:438-453 | a masked write over the line: the register is checked, read, checked and written, once each, up to the first refusal, which the master is told; the word written is bit by bit the one read or the or-mask |
| ModbusRoundTrip.RegistersRoundTrip | src/liblightmodbus-3.0/include/lightmodbus/slave_func.impl.h:21-260 | with an application that keeps what it is told to write, function 16 and then function 3 hand the master the values written, each as the holding register it was written to |
| ModbusRoundTrip.CoilsRoundTrip | src/liblightmodbus-3.0/include/lightmodbus/slave_func.impl.h:21-260 | likewise function 15 and then function 1, coil by coil |
| ModbusRoundTrip.MaskRoundTrip | src/liblightmodbus-3.0/include/lightmodbus/slave_func.impl.h:131-331 | functions 6, 22 and 3: each bit read back is the one written first or that of the or-mask, as the and-mask says |
| Md5Spec.CountBits | src/utils/md5.c:101-108 | the two-word bit count with its carry test is the bit length modulo 2^64, for every 32-bit chunk length |
| Md5Spec.Position | src/utils/md5.c:110-110 | the byte position read off the low word is the length modulo 64, even after wrap-around |
| Md5Spec.PaddedBlocks | src/utils/md5.c:149-188 | the one or two last blocks that the code builds are the padding of RFC 1321 sections 3.1 and 3.2 |
| Md5Spec.PaddedBytes | src/utils/md5.c:149-188 | the padding byte by byte: 0x80, zeros, and the bit length modulo 2^64 as two words, low word and low byte first |
| Md5Spec.InitialBytes | src/utils/md5.c:84-93 | the initial words have the bytes that section 3.3 of RFC 1321 lists |
| Md5Spec.DigestBytes | src/utils/md5.c:185-186 | the digest is the words a, b, c and d in this order, each from its low byte on |
| Md5.Context.constructor | src/utils/md5.c:84-93 | the context of the empty message |
| Md5.Context.Update | src/utils/md5.c:99-142 | buffered bytes, chaining value and bit count are those of the concatenation of all chunks |
| Md5.Context.Final | src/utils/md5.c:149-188 | the digest of the padded-block fold of the whole message, byte by byte from the low byte of a to the high byte of d; the context is wiped |
| Md5.ChunksDoNotMatter | src/utils/md5.c:99-142 | contexts that absorbed the same message agree in chaining value, bit count and buffered bytes |
| Md5.Md5Vector | src/utils/md5.c:28-41 | hashing a vector of buffers gives the digest of their concatenation, byte by byte |
| Calendar.NextDayNumber | StdPeriphDriver/CH58x_clk.c:226-240 | the day count grows by one from each date to the next |
| Calendar.DayNumberClosed | StdPeriphDriver/CH58x_clk.c:226-240 | the day count in closed form, with the leap days as y / 4 - y / 100 + y / 400 |
| Calendar.DayNumberOfDate | StdPeriphDriver/CH58x_clk.c:226-240 | the day count of the date n days after 2020-01-01 is n |
| Calendar.DateOfDayNumber | StdPeriphDriver/CH58x_clk.c:301-315 | the day count names the date |
| RealTimeClock.YearLengthIsGregorian | StdPeriphDriver/inc/CH58x_clk.h:124-125 | the leap-year macro is the Gregorian rule |
| RealTimeClock.MonthLengthIsGregorian | StdPeriphDriver/inc/CH58x_clk.h:126-126 | the parity trick gives the Gregorian month lengths |
| RealTimeClock.Clock.InitTime | StdPeriphDriver/CH58x_clk.c:221-274 | the counters get the day count modulo 2^14 and the time of day, for every valid date and 16-bit year |
| RealTimeClock.Clock.GetTime | StdPeriphDriver/CH58x_clk.c:290-319 | the fields are the date that many days after 2020-01-01 and the time of day; all loops end and no field overflows |
| RealTimeClock.SetThenGet | StdPeriphDriver/CH58x_clk.c:221-319 | all six fields come back exactly when the year is 2020 or later and the day count is below 16384 |
| Capacitance.CapToCosCfg | src/onewire.c:758-772 | the decoded offset is at most the request and within 0.5 for 0 <= c < 104, and saturates outside |
| Capacitance.CosCfgToCapOffset | src/onewire.c:344-357 | decodes to the sum of the weights of the set bits |
| Capacitance.OffsetIs | src/onewire.c:39-41 | the offset is the sum of 40, 32, 16, 8, 4, 2, 1 and 0.5 over the set bits, the highest bit first |
| Capacitance.WeightsDouble | src/onewire.c:39-43 | each weight is twice the one before, but for the last, which makes up 103.5 for the offset and 108 for the range |
| Capacitance.RangeIs | src/onewire.c:42-43 | the range is 0.507 / 3.6 times the sum of 46, 32, 16, 8, 4 and 2 over the set bits, and 2 |
| Capacitance.Recode | src/onewire.c:344-357 | coding a decoded offset gives that offset again |
| Capacitance.CapRangeToCfbCfg | src/onewire.c:819-838 | the decoded range is at most the request and within one step, and saturates outside |
| Capacitance.CfbCfgToCapRange | src/onewire.c:296-309 | decodes to the scaled sum of base and weights |
| Capacitance.WidthShowsCode | src/onewire.c:700-711 | the width chosen for a code shows all its bits, and no narrower one does |
| Capacitance.WidthIs | src/onewire.c:384-384 | the width is 5 to 8 bits by the top two bits of the range register |
| Capacitance.ShownReads | src/onewire.c:384-384 | the mask of a read leaves an offset whole exactly when the width shows every set bit |
| Capacitance.PutWidthFields | src/onewire.c:744-745 | writing one of the width constants leaves the range bits |
| Capacitance.PutRangeFields | src/onewire.c:859-860 | writing a six-bit range leaves the width, and it reads back |
| Capacitance.Sensor.WriteCosConfig | src/onewire.c:727-751 | what a later read of the offset gives; for a width constant the range bits stay; nothing changes on a CRC mismatch |
| Capacitance.Sensor.WriteCfbConfig | src/onewire.c:844-867 | what a later read of the range gives; for a six-bit code the width stays, and so does the offset as it is read; nothing changes on a CRC mismatch |
| Capacitance.Sensor.ReadCosConfig | src/onewire.c:367-388 | each bit below the width is that of the offset register and the others are 0; the whole register comes back exactly when the width shows every set bit |
| Capacitance.Sensor.ReadCfbConfig | src/onewire.c:316-336 | the six range bits, and no width bit |
| Capacitance.Sensor.ReadCapConfigure | src/onewire.c:256-288 | the capacitances that the two registers stand for |
| Capacitance.Sensor.CapConfigureOffset | src/onewire.c:693-715 | the offset in effect is within 0.25 exactly for requests from -0.25 to 103.75, and no set bit is hidden |
| Capacitance.Sensor.CapConfigureFs | src/onewire.c:801-812 | the range in effect is within 0.1409 of the request, and the offset stays visible |
| Capacitance.Sensor.CapConfigureRange | src/onewire.c:780-794 | after both writes the offset read back is within 0.25 of the middle of the requested interval |
| Capacitance.ConfigureThenRead | src/onewire.c:256-794 | configuring an interval and reading the configuration back gives its middle within 0.25 and half its width within 0.1409 |

## Left out

- FlashStore.Store.WriteItem: of a write that tears a page but leaves the page readable as a log, which takes a key with several records, the map read from that log is not stated; nor are the flash images on the way of a write that tears a page.
- Crc16Table.CrcOf: strings of 65536 bytes and more, which the 16-bit length argument cannot express.
- Store start-up on flash that already holds data, recovery of duplicates after a power loss, `st_delete_item`, `st_erase_all` and the unmaintained `bytes_available` field.
- EEPROM operations that fail or store something else than asked: the EEPROM is ideal, so the CRC re-check of a record read back always succeeds. The checksum function itself is a parameter.
- The electrical 1-Wire layer (timing, presence detection, the -1 result of a read slot), `onewire_targetsetup`, `onewirefamilyskipsetup` and the single-drop commands. The uninitialised buffer byte in `onewire_crc8` counts as 0.
- CRC widths other than 8 and 16 in `crc.c`, and parameter sets other than MODBUS and MAXIM.
- The exact value of the receive timer's reference count beyond its 8-bit wrap-around, the tick rate, and the transmission of the response; interrupts are atomic and do not nest.
- That nothing is sent after a frame with a bad CRC: the frame check looks only at the response length and the ADDRESS error, so an old response can be sent again.
- Modbus TCP and PDU-only modes, user-defined function tables and allocators other than the firmware's 256-byte response buffer; the application behind the register callback is an arbitrary function of the queries so far.
- The register, coil and input tables of the firmware, and the side effects of their callbacks.
- The MD5 block compression function, which is a parameter: buffering, counting and padding do not depend on it.
- The registers and crystal handshake of the real-time clock, and the passing of time between setting and reading it.
- Floating-point rounding of capacitances, and the page transfer around the two configuration registers. A configuration read whose page fails its CRC leaves an uninitialised code in the program; what it returns then is not stated.
