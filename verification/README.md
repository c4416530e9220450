# Verification of the TS-3100 KVM emulator

A Dafny model of the parts of the emulator where state machines, wrap-around arithmetic and
aliasing decide whether the guest sees correct hardware, with proofs of what they promise.
`dafny verify dfyconfig.toml` checks everything.

| files | what they model |
|---|---|
| `FlatDisk`, `Chs`, `VirtualDisk`, `DiskHistory` | the virtual disk: the option ROM's int 13h handler in its 8/16-bit registers, the host's 4 KiB window over the image, and whole runs of reads and writes against a flat array of sectors |
| `Uart`, `SerialPort` | the 16450 ports: guest accesses, epoll events and the two rate timers as atomic steps; interrupts and flow control over all runs |
| `Flash`, `SlotMap`, `Emulator` | the flash chip's command sequences, the KVM memory slots, and the run loop's A20, disk-window and flash steps |
| `GuestView` | that the disk driver's window and memory slot 7 are one thing |
| `Timer`, `IntervalTimer` | the 8254-style timer: counting in closed form, byte-wise loading, latched reads |
| `StringFormat` | the option ROM's decimal and hexadecimal printers |
| `PortDispatch` | the ordered maps that find the device of a port |
| `Words` | register widths and truncation |

Each imperative handler is a method proved against a function or a step function; the theorems are
lemmas about those, over every input and every run.

## What was found

- **Lost carry.** `add dx, 2` in `IncrementLBA` destroys the carry its `adc` is meant to add, so the
  high word of the sector number never advances. Sector `i` of a transfer is exactly
  `hi * 65536 + (lo + i) mod 65536`; that is the intended sector exactly when `lo + n <= 65536`
  (`SectorAtExactly`, `LinearExactlyWithinRegion`). The geometry the ROM reports has one such
  boundary: two sectors from cylinder 4, head 20, sector 16 are sectors 65535 and 0
  (`CrossingAddress`, `CrossingReadsRegionStart`).
- **Signed count.** `jng` compares the count as a signed byte, so an unaligned transfer of 128 or
  more sectors runs out of the window with its first copy; all others stay inside it
  (`HeadFitsExactly`). Such a read returns as if it had succeeded, with the sectors up to the end of
  the first block, then 112 sectors of zeros and 8 of the ROM, then the first block from its start
  (`ReadSectors`, `OverrunDelivers`). Such a write reaches the handler's own code
  (`OverrunReachesHandler`); the model stops before that copy.
- **BX.** The handler returns with BX changed: 0x0200 plus the size of the last partial block after a
  read, the ROM's segment after a write (`Int13h`).
- **Lost interrupt.** Exactly one kind of step loses a serial interrupt: writing the interrupt-enable
  register with the transmit interrupt kept on, while the port is writable and an identification
  read has already taken the cause (`LosesExactly`, `LossHappens`).
- **Flash guard.** The test at src/main.cpp:892 has the upper bound 0x350000 where the slots at
  src/main.cpp:391-405 end at 0x34FFFFF, so as typed it admits no address. `OnMmio` takes the bound
  as a parameter; `GuardAdmitsExactly` says which bounds admit the aperture.
- **Flash slots.** Writing F0 while the chip shows its identification is the one step that leaves the
  flash slots unmapped (`VisibleExactly`). They then stay unmapped for as long as the emulator lives
  (`GoneForever`), so at the end of a run they agree with the chip exactly when there was no such
  write (`VisibleAfterExactly`). The next identify asks KVM to remove slots that do not exist, which
  is the one request ever refused (`RequestsCleanExactly`, `IdentifyTwiceIsRefused`), and the
  emulator exits (`WriteFlash`).
- **Timer.** Past a wrap the closed form is one tick ahead of the counter (`FastForwardCounts`); it is
  right exactly up to the wrap or with a zero reload value (`FastForwardExactly`). Every access that
  resolves drops the fraction of a tick it finds: a channel has counted exactly the whole ticks of
  each gap (`CountsExactly`), which is the time passed exactly when less than one tick was dropped
  altogether (`KeepsTimeExactly`), and past wraps exactly when the ticks gained make up for those
  dropped (`RightOverWrapsExactly`). A count latched halfway through a read is torn
  (`LatchAtHighByteTears`, `TearHappens`). A decimal count whose low byte is stored over a reload
  value of 65500 or more can lose it to a 16-bit wrap (`BytesStoredExactly`).
- **Eleven characters.** The comment at roms/virtual-disk/stringformat.asm:101 allows ten bytes for a
  signed number; from -1000000000 down it takes eleven (`ElevenBytesExactly`).

## Model

| member | source | states |
|---|---|---|
| FlatDisk.SectorAtExactly | roms/virtual-disk/option.asm:475-490 | where sector i of a transfer lies, for every start: the low word counts modulo 65536 and the high word stays |
| FlatDisk.LinearExactlyWithinRegion | roms/virtual-disk/option.asm:475-490 | the addresses are the linear ones if and only if the transfer ends within its region of 65536 sectors |
| FlatDisk.CrossingReadsRegionStart | roms/virtual-disk/option.asm:475-490 | a crossing read delivers its own region's first sector in place of the next region's |
| FlatDisk.CoversExactly | roms/virtual-disk/option.asm:355-400 | which sectors a transfer addresses, each once |
| FlatDisk.FlatReadSector | roms/virtual-disk/option.asm:247-292 | the i-th 512 bytes delivered are the i-th addressed sector |
| FlatDisk.FlatWriteSector | roms/virtual-disk/option.asm:355-400 | a write changes exactly the addressed sectors, each to its own piece of the data, and no other |
| FlatDisk.ReadAfterWrite | roms/virtual-disk/option.asm:200-414 | reading back what was written gives it back |
| FlatDisk.PutOutside | roms/virtual-disk/option.asm:269 | a read leaves RAM outside the caller's buffer alone |
| FlatDisk.GetPut | roms/virtual-disk/option.asm:269 | the caller's buffer, which wraps in its segment, holds the last 64 KiB delivered |
| FlatDisk.BufferOkExactly | roms/virtual-disk/option.asm:269 | the condition on the caller's buffer: every byte in RAM, and an even offset if it wraps |
| FlatDisk.FitsExactly | roms/virtual-disk/option.asm:247-292 | the condition on the sectors: the last one lies in the image |
| Chs.ChsExact | roms/virtual-disk/option.asm:206-217 | for all register values the conversion loses no product bit and no carry |
| Chs.AddressRoundTrip | roms/virtual-disk/option.asm:206-217 | every cylinder, head and sector is recovered from its sector number |
| Chs.LbaRoundTrip | roms/virtual-disk/option.asm:308-319 | every sector number below 256*255*63 is reached |
| Chs.GeometryCovers | roms/virtual-disk/option.asm:183-198 | the geometry AH=08 reports covers exactly sectors 0 to 128519 |
| Chs.CrossingAddress | roms/virtual-disk/option.asm:183-198 | an address inside that geometry from which two sectors cross |
| VirtualDisk.HeadFitsExactly | roms/virtual-disk/option.asm:252-259 | the first copy of an unaligned transfer stays in the window if and only if the count is at most 127 |
| VirtualDisk.OverrunReachesHandler | roms/virtual-disk/option.asm:256-269 | otherwise the copy wraps around to the start of the handler's own segment |
| VirtualDisk.OverrunDelivers | roms/virtual-disk/option.asm:252-269 | what an overrunning read delivers, sector by sector: the addressed ones only to the end of the first block |
| VirtualDisk.PageAlignedExactly | src/main.cpp:848-850 | a window offset is page-aligned if and only if the sector number is a multiple of 8 |
| VirtualDisk.NextBlock | roms/virtual-disk/option.asm:475-490 | the increment after a block brings up the block of the next sector, across a wrap too |
| VirtualDisk.ResidueExactly | roms/virtual-disk/option.asm:261-292 | what a read leaves in BL: the sectors after the last block boundary, or zero when the first copy is the only one |
| VirtualDisk.Machine.OutWord | src/main.cpp:192-208 | a word written to a disk port, and the re-mapping at src/main.cpp:835-873 that D004 asks for and that a misaligned sector refuses |
| VirtualDisk.Machine.RomInit | roms/virtual-disk/option.asm:47-64 | the window is coherent at sector zero, and one more drive is counted |
| VirtualDisk.Machine.SelectWindow | roms/virtual-disk/option.asm:219-245 | afterwards the ports hold the block, and the window shows it exactly when it was re-mapped or coherent before |
| VirtualDisk.Machine.IncrementLBA | roms/virtual-disk/option.asm:475-490 | window and ports go to the next block together, the low word modulo 65536 |
| VirtualDisk.Machine.MoveIn | roms/virtual-disk/option.asm:269 | a copy that stays inside the window stores exactly those image bytes at es:di |
| VirtualDisk.Machine.MoveAround | roms/virtual-disk/option.asm:269 | a copy that leaves the window stores the bytes of the ROM's segment, around its end |
| VirtualDisk.Machine.MoveOut | roms/virtual-disk/option.asm:377 | a copy that stays inside the window changes exactly those image bytes |
| VirtualDisk.Machine.ReadBlocks | roms/virtual-disk/option.asm:275-292 | from a block boundary the block loop ends, with BL as measure, having delivered the rest |
| VirtualDisk.Machine.WriteBlocks | roms/virtual-disk/option.asm:383-400 | the same for a write |
| VirtualDisk.Machine.ReadSectors | roms/virtual-disk/option.asm:247-292 | a paged read is the flat read of the image and the window stays coherent, for every start and count except an unaligned start with 128 sectors or more, which delivers what OverrunDelivers says |
| VirtualDisk.Machine.WriteSectors | roms/virtual-disk/option.asm:355-400 | a paged write is the flat write of the caller's buffer, and the window is overrun exactly for an unaligned start with 128 sectors or more |
| VirtualDisk.Machine.Int13h | roms/virtual-disk/option.asm:149-181 | which requests go to the BIOS, and the returned registers, RAM and image of the others |
| DiskHistory.Serve | roms/virtual-disk/option.asm:200-414 | one served call, whatever it is, is one step on image and RAM |
| DiskHistory.ImageHoldsLastWritten | roms/virtual-disk/option.asm:302-414 | after every run each sector holds the data of the last write that addressed it |
| DiskHistory.ReadDeliversLastWritten | roms/virtual-disk/option.asm:200-300 | after every run a read delivers, sector by sector, what was last written there |
| DiskHistory.LinearReadDeliversLastWritten | roms/virtual-disk/option.asm:200-300 | the same at the caller's own linear addresses, within one region |
| DiskHistory.AddressedReadDeliversLastWritten | roms/virtual-disk/option.asm:200-300 | the same from a cylinder, head and sector: the driver's address arithmetic composed with the whole run |
| DiskHistory.ServeInt13 | roms/virtual-disk/option.asm:149-414 | a request in registers, from the dispatch to the return, is that step of the flat array, and returns without carry |
| DiskHistory.RequestExactly | roms/virtual-disk/option.asm:165-217 | which drive and functions are served, and that CH, DH and CL of a request are its cylinder, head and sector |
| DiskHistory.RequestedReadDelivers | roms/virtual-disk/option.asm:200-300 | from the registers to the bytes: after every run an AH=02 request leaves in the caller's buffer what was last written to the sectors from its cylinder, head and sector on |
| DiskHistory.RequestedWriteStores | roms/virtual-disk/option.asm:302-414 | an AH=03 request changes exactly those sectors, to the bytes of the caller's buffer |
| DiskHistory.BufferByteExactly | roms/virtual-disk/option.asm:269 | where byte b of sector i of the caller's buffer is in RAM |
| Uart.SetTimerExactly | src/hardware/Serial.cpp:278-284 | for which divisors the one-shot timer starts, is disarmed or is refused |
| Uart.DataWriteExactly | src/hardware/Serial.cpp:270-285 | a data write takes the readiness to send and the transmit cause, starts the transmit timer, and keeps the rest |
| Uart.DataReadExactly | src/hardware/Serial.cpp:348-366 | a data read gives the byte that arrived or the last one, takes the receive condition, and starts the receive timer |
| Uart.EnableWriteExactly | src/hardware/Serial.cpp:289-305 | bit 0 enables the receive and bit 1 the transmit interrupt, and an enabled interrupt takes its condition for a cause |
| Uart.IdentificationExactly | src/hardware/Serial.cpp:374-387 | 04, 02 or 01 by what is pending, and that only 02 takes the transmit cause |
| Uart.LineStatusExactly | src/hardware/Serial.cpp:392-396 | bit 0 is that a byte waits, bits 5 and 6 that one can be sent, and the rest is clear |
| Uart.WriteThenRead | src/hardware/Serial.cpp:263-401 | what a port read gives right after a write to the port |
| Uart.OtherAccessesKeep | src/hardware/Serial.cpp:263-401 | no other access touches the lines or raises anything |
| Uart.EnvironmentExactly | src/hardware/Serial.cpp:157-248 | what a client event and the ends of the timers change |
| Uart.ArriveSplits | src/hardware/Serial.cpp:221-244 | an event in both directions acts and raises like input, then output |
| Uart.LosesExactly | src/hardware/Serial.cpp:289-315 | from a state with no lost interrupt a step loses one if and only if it is the stated enable write |
| Uart.NoInterruptLost | src/hardware/Serial.cpp:218-248 | over every run without that write, when a cause is pending the interrupt has been raised since there was last none |
| Uart.LossHappens | src/hardware/Serial.cpp:298-315 | a concrete run that loses an interrupt |
| Uart.ReceiveConservedExactly | src/hardware/Serial.cpp:348-366 | a step keeps exactly one of listening, readable and timer running, if and only if a data read comes at the right place with the right divisor |
| Uart.TransmitConservedExactly | src/hardware/Serial.cpp:270-285 | the same for listening, writable and the transmit timer |
| Uart.FlowConserved | src/hardware/Serial.cpp:157-182 | both tokens are conserved over every run of a guest that reads data only with bit 0, and writes it only with bit 5, of the line status set |
| Uart.RaisedExactlyOnFirstCauses | src/hardware/Serial.cpp:225-244 | for such a guest the interrupt is raised once when a first cause appears, and never otherwise |
| Uart.InterruptsAreFirstCauses | src/hardware/Serial.cpp:218-315 | over every such run there are as many interrupts as first causes |
| Uart.DeliverBound | src/hardware/Serial.cpp:218-245 | n client events add at most 2n pending causes |
| Uart.ServiceDrains | src/hardware/Serial.cpp:374-387 | interrupt service under any arrivals ends with nothing pending after at most 3 + 2 * arrivals identification reads, reports receive before transmit, and keeps a waiting transmit cause for the next round |
| Uart.StoreExactly | src/hardware/Serial.cpp:263-339 | a port write changes exactly the register it selects, the divisor latch bit swapping the first two |
| Uart.ReadsBackLastStored | src/hardware/Serial.cpp:341-399 | after every run a port read gives back the kept bits of the last write to the register |
| Uart.DataReadRepeats | src/hardware/Serial.cpp:348-366 | after every run a data read with nothing waiting repeats the byte received last |
| Uart.EnablesAreStored | src/hardware/Serial.cpp:289-296 | after every run the enables are bits 0 and 1 of the interrupt-enable register |
| SerialPort.Serial16450.HandleClientEvent | src/hardware/Serial.cpp:218-248 | the epoll handler takes that step, raises that often, and leaves epoll watching what mEventFlags says |
| SerialPort.Serial16450.OnReadTimer | src/hardware/Serial.cpp:157-168 | the receive timer's handler takes its step |
| SerialPort.Serial16450.OnWriteTimer | src/hardware/Serial.cpp:171-182 | the transmit timer's handler takes its step |
| SerialPort.Serial16450.StartTimer | src/hardware/Serial.cpp:278-284 | the computed delay has the effect that SetTimer states |
| SerialPort.Serial16450.EnableInterrupts | src/hardware/Serial.cpp:290-315 | flags and trigger of an interrupt-enable write |
| SerialPort.Serial16450.Iowrite8 | src/hardware/Serial.cpp:263-339 | a port write takes that step, and only an open data register sends its byte to the client |
| SerialPort.Serial16450.ReadIdentification | src/hardware/Serial.cpp:374-387 | the identification byte, and that reading it takes only a transmit cause |
| SerialPort.Serial16450.Ioread8 | src/hardware/Serial.cpp:341-401 | a port read takes that step and returns that byte |
| Flash.StateRemembers | src/main.cpp:903-934 | a state of the recogniser is reached only by its own unlock prefix |
| Flash.StateIsPrefix | src/main.cpp:903-934 | in a run that is survived the authorising states hold if and only if the last writes are exactly their prefix |
| Flash.ReactIsDecoded | src/main.cpp:903-939 | what an access does is what the writes right before it say |
| Flash.TraceRefinement | src/main.cpp:893-950 | for every run that is survived the memory is the fold of the commands decoded by looking back |
| Flash.ChangeIsAuthorised | src/main.cpp:903-934 | a byte changes only at the end of a full program or erase sequence that covers it |
| Flash.SequenceTakesEffect | src/main.cpp:903-934 | a full sequence programs its byte, F0 included, or clears exactly its sector or the chip |
| Flash.IdentifiesExactly | src/main.cpp:940-950 | a load gives the identification if and only if the identify prefix comes right before it, and otherwise leaves the exit's buffer as it was |
| Flash.StateByLookingBack | src/main.cpp:903-939 | in a run that is survived every state, set-up states included, is told by the writes right before |
| Flash.SurvivesExactly | src/main.cpp:903-939 | a run survives one access more if and only if that is a load, a program's data byte, F0, or the next write of the sequence spelled so far |
| Flash.ProgramWorks | src/main.cpp:903-920 | with no sequence under way a program sequence is survived and stores exactly its byte, for every address and byte |
| Flash.EraseWorks | src/main.cpp:911-934 | a sector or chip erase sequence is survived and clears exactly the sector of its address or the chip |
| Flash.IdentifyWorks | src/main.cpp:921-950 | an identify sequence is survived and shows its two bytes until the next load or F0 |
| SlotMap.StepKeepsValid | src/main.cpp:803-831 | every step keeps live slots pairwise disjoint, and the wrap slot is live after an I/O exit if and only if A20 is off |
| SlotMap.VisibleExactly | src/main.cpp:906-976 | a step keeps the flash slots live exactly outside identification, if and only if it is not an F0 write into it |
| SlotMap.RequestsCleanExactly | src/main.cpp:803-976 | every map request avoids all live slots and every removal hits a live one, if and only if the step is not an identify with the flash slots gone |
| SlotMap.IdentifyTwiceIsRefused | src/main.cpp:906-963 | a run from start that loses the flash slots, and whose next identify asks for removals that cannot succeed |
| SlotMap.RunsAreSafe | src/main.cpp:346-446 | the invariants hold, and every request is accepted, over every run that never writes F0 into the identification |
| SlotMap.GoneForever | src/main.cpp:906-976 | once the flash slots are gone they stay gone over every run whose requests are accepted |
| SlotMap.VisibleAfterExactly | src/main.cpp:906-976 | over every run whose requests are accepted the flash slots agree with the chip at the end if and only if F0 was never written into the identification |
| SlotMap.LookupUnique | src/main.cpp:346-446 | an address reaches one place only |
| SlotMap.A20Wraps | src/main.cpp:369-380 | an address above 1 MiB reaches low RAM if and only if A20 is off |
| SlotMap.MemoryMap | src/main.cpp:346-446 | what every guest-physical address reaches: RAM, ROM and window, DOS and BIOS in the flash, the A20 wrap, the aperture, or nothing |
| SlotMap.StartMap | src/main.cpp:457-508 | that map at start, the processor's first instruction included |
| SlotMap.SegmentShowsSelection | src/main.cpp:835-873 | after a selection the ROM's segment shows the ROM's first page, exactly the eight selected sectors, and then nothing |
| SlotMap.ApertureShowsFlash | src/main.cpp:391-415 | the aperture, both halves, reaches the chip if and only if the flash slots are live, so exactly while it is not identifying unless they are gone |
| Emulator.RunLoop.AfterPortAccess | src/main.cpp:802-875 | the end of an I/O exit takes that slot step, or the emulator gives up, exactly when a request is refused or the disk offset is misaligned |
| Emulator.RunLoop.WriteA20 | src/main.cpp:134-147 | an A20 write, with its exit, takes that slot step, or the emulator gives up on a refused request |
| Emulator.RunLoop.WriteFlash | src/main.cpp:898-963 | a flash write takes that state, memory and slot step, or the emulator gives up, exactly on an unknown sequence or a refused request |
| Emulator.RunLoop.ReadFlash | src/main.cpp:940-976 | a flash read's value, state and slots |
| Emulator.RunLoop.OnMmio | src/main.cpp:892-1003 | a memory exit, for any upper bound of the guard |
| Emulator.GuardAdmitsExactly | src/main.cpp:892 | which upper bounds admit the whole aperture, and which none of it |
| GuestView.OutToDisk | src/main.cpp:835-873 | a disk-port write changes the driver's window and memory slot 7 together, and the emulator gives up exactly on a misaligned selection |
| GuestView.WindowIsSelection | src/main.cpp:835-873 | at every boundary of the handler guest-physical C9000 to C9FFF is exactly the eight selected sectors |
| GuestView.SegmentByteIsLookup | src/main.cpp:1000 | a load from any offset of the ROM's segment gives what the slots hold there, and zero where there is none |
| Timer.FastForwardCounts | src/hardware/Timer.cpp:208-216 | the closed form against the tick-by-tick countdown, for every value, reload and tick count |
| Timer.FastForwardExactly | src/hardware/Timer.cpp:208-216 | it equals that many ticks if and only if it does not pass a wrap or the reload value is zero |
| Timer.FastForwardPeriodic | src/hardware/Timer.cpp:208-216 | past the wrap it repeats every reload + 1 ticks |
| Timer.StepKeepsSound | src/hardware/Timer.cpp:29-193 | the access mode is never the latch code and one-byte channels never select the other byte |
| Timer.ControlWordExactly | src/hardware/Timer.cpp:56-80 | which channel a control word is about and what each of its fields does |
| Timer.ReadBackWordExactly | src/hardware/Timer.cpp:31-55 | which channels a read-back word selects and what its count and status bits do |
| Timer.ResolveExactly | src/hardware/Timer.cpp:196-217 | a resolve counts the elapsed time divided by 40 ns times the prescaler, and a wrap takes the pending load |
| Timer.StatusExactly | src/hardware/Timer.cpp:157-163 | the fields of the status byte, for every channel |
| Timer.BytesReadExactly | src/hardware/Timer.cpp:140-156 | the two bytes of a count make it up always in binary, in decimal if and only if it is below 25600 |
| Timer.BytesStoredExactly | src/hardware/Timer.cpp:88-115 | two stored bytes give the count they make up always in binary, in decimal under the stated condition only |
| Timer.LatchedReadIsWhole | src/hardware/Timer.cpp:56-59 | after a counter latch at the low byte two reads give the bytes of the latched value, whatever comes between |
| Timer.OneByteLatchedRead | src/hardware/Timer.cpp:166-181 | a low-only or high-only channel gives that byte of the latched value and releases the latch |
| Timer.LatchAtHighByteTears | src/hardware/Timer.cpp:175-181 | at the high byte the latch is released after one read, and two reads give the latched value if and only if the running count has the same low byte |
| Timer.TearHappens | src/hardware/Timer.cpp:132-193 | a run in which two reads of a latched 0x100 give 0x1FF |
| Timer.ReadBackIsWhole | src/hardware/Timer.cpp:31-55 | after a read-back of status and count the order is status, low, high, whatever comes between; every bit of the status, of which only the load bit is live |
| Timer.LoadTakesBothBytes | src/hardware/Timer.cpp:60-130 | after a two-byte configuration the counter stands still until the second byte and then holds both, in binary always, in decimal exactly when BytesStoredExactly allows |
| Timer.LoadTakesOneByte | src/hardware/Timer.cpp:83-130 | after a low-only or high-only configuration the counter stands still until that byte, and then holds it beside the other half of the old reload value |
| Timer.ReloadTakesBothBytes | src/hardware/Timer.cpp:83-130 | a count stored to a running channel replaces its reload value and not its count |
| Timer.CountsExactly | src/hardware/Timer.cpp:204-216 | over every run of commands, loads of the prescaler, reads and stores a running channel has counted, before a wrap, exactly the whole ticks of each gap between resolves |
| Timer.KeepsTimeExactly | src/hardware/Timer.cpp:204-216 | that is the time passed if and only if the fractions dropped stay below one tick altogether |
| Timer.CountsWithWraps | src/hardware/Timer.cpp:208-216 | past wraps, of any number, each wrap found adds one tick |
| Timer.RightOverWrapsExactly | src/hardware/Timer.cpp:196-217 | over every run the count is the time passed if and only if wraps found and whole ticks dropped agree modulo reload + 1 |
| Timer.PollingFreezes | src/hardware/Timer.cpp:204-206 | a channel that every access resolves, more often than once a tick, never counts |
| IntervalTimer.ProgrammableIntervalTimer.ResolveTimers | src/hardware/Timer.cpp:196-221 | every channel is brought up to date |
| IntervalTimer.ProgrammableIntervalTimer.SetPrescaler | src/hardware/Timer.cpp:24-27 | channels are resolved with the old prescaler first, and any new one is stored, zero included |
| IntervalTimer.ProgrammableIntervalTimer.WriteCommand | src/hardware/Timer.cpp:29-81 | a control word takes its step of every channel |
| IntervalTimer.ProgrammableIntervalTimer.WriteRegister | src/hardware/Timer.cpp:83-130 | a stored byte takes its step of the one channel |
| IntervalTimer.ProgrammableIntervalTimer.ReadRegister | src/hardware/Timer.cpp:132-193 | a read returns the count from before the timers are resolved and takes its step |
| StringFormat.CanonicalUnique | roms/virtual-disk/stringformat.asm:22-47 | a number has one canonical decimal string, so parsing and printing again gives the string back |
| StringFormat.PutDecDword | roms/virtual-disk/stringformat.asm:22-47 | for every 32-bit value the output is canonical, parses back to it, takes at most ten bytes, and nothing else is written |
| StringFormat.DigitsExactly | roms/virtual-disk/stringformat.asm:22-47 | the digits printed are the characters 0 to 9, and what a string of them is worth |
| StringFormat.GetExtent | roms/virtual-disk/stringformat.asm:26-33 | the table search finds the first divisor that fits, or none for a single digit |
| StringFormat.PutDecDwordSigned | roms/virtual-disk/stringformat.asm:12-20 | the same for every signed value, the most negative one included |
| StringFormat.CanonicalSignedUnique | roms/virtual-disk/stringformat.asm:12-20 | signed strings are unique too |
| StringFormat.ElevenBytesExactly | roms/virtual-disk/stringformat.asm:101 | signed output takes eleven bytes if and only if the value is at most -1000000000 |
| StringFormat.PutHexDword | roms/virtual-disk/stringformat.asm:60-76 | for every width that is a multiple of four the digits that come out; up to 32 bits they are the low digits of the number |
| StringFormat.HexReadsBack | roms/virtual-disk/stringformat.asm:60-76 | the digits are the characters 0 to 9 and A to F and parse back to the number modulo 16^w |
| StringFormat.HexStreamRepeats | roms/virtual-disk/stringformat.asm:60-76 | beyond 32 bits the number's eight digits are repeated |
| PortDispatch.OverlapExactly | src/AddressRange.hpp:12-14 | two ranges compare as equal if and only if they share a port |
| PortDispatch.KeysApart | src/AddressRange.hpp:12-14 | the keys of a map are totally ordered, so disjoint |
| PortDispatch.FindExactly | src/main.cpp:779-794 | looking a port up finds the one range with it or nothing, whatever the tree's shape |
| PortDispatch.EmplaceExactly | src/main.cpp:601-655 | an insertion keeps the order and is refused if and only if the range overlaps one that is there |
| PortDispatch.DispatchIsScan | src/main.cpp:601-655 | for every sequence of insertions, dispatch equals a scan of the accepted entries |
| PortDispatch.EveryPortReachesItsOwner | src/main.cpp:211-226 | with the emulator's two tables every port reaches exactly the handler that lists it |

## Left out

- KVM, mmap, sockets, eventfd, timerfd and epoll: their calls are atomic steps that succeed, except that a misaligned window offset, a map over a live slot, a removal of an absent slot and an illegal timer delay are refused as the kernel refuses them.
- The thread and descriptor plumbing of the event loop, and the moment between a timer handler's read of its descriptor and its lock.
- More than one client of a serial port, disconnects and socket errors.
- The disk image's end: a transfer must address sectors of the image; touching the window beyond the file is not modelled.
- Buffers outside low RAM, and a word that straddles a segment's end (the processor faults on it); the handler's stack, its variables and the interrupt vectors are not part of the modelled RAM.
- Port accesses to the disk registers of other widths or alignment, and programs other than the handler that write those ports: coherence is kept by the handler from rom_init on.
- VirtualDisk.Machine.WriteSectors: when the first copy would leave the window the result is Overrun and the copy is not carried out, because it overwrites the handler's own code while that runs (OverrunReachesHandler).
- VirtualDisk.Machine.Int13h: an overrunning write as for WriteSectors; the chained BIOS call itself, the interrupt 19h chain and the boot messages.
- The bit operations on registers are written as the quotients and remainders they are.
- Timer.Step: the clock is a number that never runs backwards. A prescaler of zero can be stored (IntervalTimer), but a run of accesses does not go on with it, because the next one to a running channel divides by it; the prescaler device can produce it from 0xFFFE (src/hardware/i386EXClockPrescaler.cpp:11).
- The timer is not instantiated by the emulator (src/main.cpp:603-604); its counter outputs drive nothing there.
- StringFormat.PutHexDword: widths that are not multiples of four, on which the loop does not end and which its comment excludes; the formatted print and its DOS calls.
- PortDispatch.Emplace: rebalancing of the tree, which keeps the order of its entries; lookups are proved for every shape. Empty ranges and ranges past the end of the address space are not inserted.
- The real-time clock, chip-select units, prescaler, hex display, the handlers that return constants, the disassembler and logging.
