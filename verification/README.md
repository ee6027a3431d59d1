# MiniMiner firmware: a verified model

A Dafny model of the parts of the MiniMiner repository that carry protocols and
state: the three flash boot loaders and the host program of one of them, the ring buffer
that interrupt handlers and main loops share, the ASIC miner firmware with its host
driver, and the framing of the FPGA programmer.

`dafny verify dfyconfig.toml` checks the whole project.

## How it is built

Routines that update variables in place are classes and methods with loops. Each
method is proved equal to a function on values, and the theorems are lemmas about these
functions, over every input, every run of requests or every interleaving.

- `Bytes`, `Flash`, `Endpoint`, `PageWriting`, `ChipErase`: machine integers, the self-programming
  flash with its temporary page buffer (a page write can only clear bits and empties the buffer), USB
  endpoint banks and packets, the EEPROM, the erase loop.
- `Dfu`, `DfuProgramming`, `DfuSecurity`, `DfuInterruption`: the DFU class boot loader as a state machine
  over control requests; programming and read-back; secure mode, chip erase and blank check; hosts that leave.
- `Cdc`: the command loop of the CDC boot loader, block reads and writes, response packets.
- `IntelHex`, `HexPrinting`, `HidLoader`, `HidRoutines`: the host program that reads an Intel
  HEX file and sends it in reports, the HID boot loader that receives them, and a printer
  of HEX files as the inverse of the reader.
- `RingBuffer`: the buffer as a class, and as a system of two threads in small steps.
- `Sha256`, `AsicLink`, `Timer`, `Miner`, `MinerApplication`: the precalculation, the serial
  link and the report path, the timer, the application as a state machine over runs of
  events with the interrupt at any point, and its routines in place.
- `Driver`: the poll loop of the host driver, over successive calls.
- `FpgaProgrammer`: frames over the ring buffer.

## Where the code is not what its users would expect

The model follows the code. Where a natural property is false of it, the exact condition
under which it holds is proved, and inputs are given that show it failing otherwise.

- DFU: the filler bytes are meant to be skipped, but each packet change uses up one count, so a
  range that does not start on a packet boundary is programmed one byte late. Pages are counted from the
  start of the range, so a range that starts inside a page and leaves it is misplaced. An odd
  last byte is dropped (`DfuProgramming.ProgramExact`).
- DFU: chip erase rewrites each page, which commits what a download that was cut off has left in
  the page buffer to the first page; a blank check then finds it not erased
  (`DfuInterruption.EraseAfterInterruption`). The CDC boot loader does the same
  with a byte-wise write that was not committed (`Cdc.EraseAfterRun`, `Cdc.ByteThenErase`).
- DFU: the size of a range is computed in 16 bits, so an upload of 64 KB sends nothing; an odd last
  byte is not sent either (`DfuProgramming.DisplayExact`).
- DFU: a read command can index past its table, in secure mode too; what is found there is sent
  (`DfuSecurity.StrayExact`).
- HID: host and device disagree on the address format of 64 KB parts, and a block that
  reaches the end of the image is sent blank (`HidLoader.DeliversExactly`). The last address of
  the 64 KB image can never be set (`HexPrinting.LastByteUnreachable`), and with the linear base 0xFFFF
  a record can pass the bound and be stored outside it (`IntelHex.InsideExact`).
- HEX: an end record is accepted with any checksum, and a base record with a bad one is
  skipped, so that its data lands at the old base, while a data record with a bad one is an error
  (`HexPrinting.ChecksumExact`, `HexPrinting.BadBaseIgnored`). After a base beyond the image, and so after nearly every
  linear base but 0, nothing more is accepted, not even the end record (`HexPrinting.BaseEndsFile`).
- CDC: an address of 32 KB or more is sign-extended on the 16-bit processor
  (`Cdc.AddressExact`); a block that leaves its page overwrites the page buffer
  (`Cdc.BlockWriteExact`).
- Miner: a command that resets the link while a report is waiting clears the report without
  enabling its interrupt again. So does the timeout branch of a service call, for a report that arrives
  after the call has looked for one. No nonce is reported from then on (`Miner.ReportsUnlessLost`,
  `Miner.LostForever`).
- Miner: a receive call executes one command; a second one that is already complete waits for
  further bytes (`Miner.BacklogExact`).
- Driver: a reply of an earlier job, unread before a call or arriving in it, is taken as the answer to
  the job of that call (`Driver.SessionExact`, `Driver.StaleNonce`).
- Timer: a timer is due one tick after its interval, not at it, except across a clock wrap
  (`Timer.DueExactly`, `Timer.RestartPeriods`).
- Ring buffer: its documentation leaves the test for a full or an empty buffer to the caller; the
  contracts of `Insert` and `Remove` also say what happens without it. The documented result of the
  test for an empty buffer is that of the one for a full buffer; the code tests for empty.

## Model

| member | source | states |
|---|---|---|
| `DfuProgramming.ProgramExact` | firmware/LUFA-120730/Bootloaders/DFU/BootloaderDFU.c:237-389 | A range is programmed as sent, whatever the data, the fillers, the old flash and what the page buffer held, if and only if its length is even, its start is a multiple of the 32-byte packet and it either starts a page or stays inside one |
| `DfuProgramming.ProgramWorks` | firmware/LUFA-120730/Bootloaders/DFU/BootloaderDFU.c:278-383 | For such a range one download request leaves exactly the data in the range, in the rest of its first page what the page buffer held before (0xFF when it was empty), 0xFF in the rest of its other pages, every other page and the EEPROM as they were, an empty page buffer, and the device in dfuDNLOAD-IDLE |
| `DfuProgramming.DownloadPlaces` | firmware/LUFA-120730/Bootloaders/DFU/BootloaderDFU.c:237-389 | The final device state of every programming request, aligned or not and with any page buffer: which byte of the request or of the buffer ends up at which flash address |
| `DfuProgramming.ProgramPlaces` | firmware/LUFA-120730/Bootloaders/DFU/BootloaderDFU.c:295-355 | The word loop entered anywhere in a page, with any packet boundaries, completes and puts every word of the stream at its place; the invariant of pages done, page being filled and pages to come |
| `DfuProgramming.ProgramAny` | firmware/LUFA-120730/Bootloaders/DFU/BootloaderDFU.c:295-355 | The word loop from any start address, odd ones included, on an erased first page and any page buffer |
| `DfuProgramming.FillersDiscarded` | firmware/LUFA-120730/Bootloaders/DFU/BootloaderDFU.c:543-563 | After both discards the endpoint stands at the data, or, with a misaligned start, one filler byte before it |
| `DfuProgramming.NotWritten` | firmware/LUFA-120730/Bootloaders/DFU/BootloaderDFU.c:237-389 | For every range that does not meet the condition, an image and a blank flash whose download is wrong |
| `DfuProgramming.ReadBack` | firmware/LUFA-120730/Bootloaders/DFU/BootloaderDFU.c:237-488 | A programmed range, displayed and uploaded, returns the bytes that were sent, changes nothing and ends in dfuIDLE |
| `DfuProgramming.DisplayReads` | firmware/LUFA-120730/Bootloaders/DFU/BootloaderDFU.c:390-456 | A display command and an upload return the words of any flash range in one stream of packets, and nothing of a range of 64 KB, whose size is computed as 0 |
| `DfuProgramming.DisplayExact` | firmware/LUFA-120730/Bootloaders/DFU/BootloaderDFU.c:390-456 | They return a range byte for byte if and only if its length is even and below 64 KB |
| `DfuProgramming.CommandRuns` | firmware/LUFA-120730/Bootloaders/DFU/BootloaderDFU.c:251-277 | A six-byte command request with no data does what the command processor does, and leaves dfuDNLOAD-IDLE for dfuIDLE |
| `DfuProgramming.EepromStored` | firmware/LUFA-120730/Bootloaders/DFU/BootloaderDFU.c:356-378 | An EEPROM download request overlays exactly its range with its data and leaves the flash alone; with a misaligned start the stored bytes are shifted by one filler byte |
| `DfuProgramming.EepromReadBack` | firmware/LUFA-120730/Bootloaders/DFU/BootloaderDFU.c:237-488 | Every EEPROM image with an aligned start, odd lengths included, reads back as it was sent |
| `DfuProgramming.EepromExact` | firmware/LUFA-120730/Bootloaders/DFU/BootloaderDFU.c:356-378 | An EEPROM range is stored as sent, whatever the data and the fillers, if and only if its start is a multiple of 32 |
| `DfuProgramming.EepromReads` | firmware/LUFA-120730/Bootloaders/DFU/BootloaderDFU.c:457-479 | An EEPROM display and an upload return every byte of the range, and nothing of a range of 64 KB |
| `DfuSecurity.SecureRun` | firmware/LUFA-120730/Bootloaders/DFU/BootloaderDFU.c:220-536 | Every run of requests on a locked device either leaves flash and EEPROM untouched and the device locked in dfuIDLE or dfuERROR, or contains one request that unlocked it, at which point the application section was blank and the EEPROM unchanged |
| `DfuSecurity.NoLeak` | firmware/LUFA-120730/Bootloaders/DFU/BootloaderDFU.c:390-488 | Two locked devices that differ only in memory contents answer every run of requests alike for as long as they stay locked, given the same bytes behind their tables |
| `DfuSecurity.StrayExact` | firmware/LUFA-120730/Bootloaders/DFU/BootloaderDFU.c:773-784 | What lies behind a table does not matter to a locked device if and only if the read command stays inside its table; otherwise an abort and an upload send the byte found there |
| `DfuSecurity.StrayNeverSent` | firmware/LUFA-120730/Bootloaders/DFU/BootloaderDFU.c:773-784 | Over every run of requests whose reads stay inside their tables, a locked device does the same whatever lies behind them |
| `DfuSecurity.NoLeakInside` | firmware/LUFA-120730/Bootloaders/DFU/BootloaderDFU.c:390-488 | For such runs what a locked device sends depends on no memory at all |
| `DfuSecurity.StaysOpen` | firmware/LUFA-120730/Bootloaders/DFU/BootloaderDFU.c:569-612 | Over every run, secure mode once left is never entered again |
| `DfuSecurity.LockedStep` | firmware/LUFA-120730/Bootloaders/DFU/BootloaderDFU.c:569-612 | One request to a locked device changes no memory, or erases the application and unlocks |
| `DfuSecurity.ResetLocked` | firmware/LUFA-120730/Bootloaders/DFU/BootloaderDFU.c:43-93 | Start-up in secure mode is a locked device |
| `ChipErase.EraseLeaves` | firmware/LUFA-120730/Bootloaders/DFU/BootloaderDFU.c:747-767 | The whole flash after a chip erase, from any page buffer: what the buffer held is committed to the first page |
| `ChipErase.EraseBlanks` | firmware/LUFA-120730/Bootloaders/DFU/BootloaderDFU.c:747-767 | The application section is blank after the erase loop if and only if the page buffer was empty before it |
| `DfuSecurity.EraseRequestExact` | firmware/LUFA-120730/Bootloaders/DFU/BootloaderDFU.c:676-767 | The same for the chip erase request on any device, and the blank check after it reports an error in exactly the other case |
| `DfuInterruption.EraseAfterInterruption` | firmware/LUFA-120730/Bootloaders/DFU/BootloaderDFU.c:278-355 | From an open device with an empty page buffer, whatever the range and wherever the host leaves: after a chip erase the application section is blank, and the blank check passes, if and only if nothing but 0xFF had come of the page begun |
| `DfuInterruption.EraseAfterAligned` | firmware/LUFA-120730/Bootloaders/DFU/BootloaderDFU.c:278-355 | In the terms of the host: with an aligned start and an even number k of bytes sent, if and only if the bytes from the last whole page up to k are all 0xFF |
| `DfuInterruption.InterruptedFills` | firmware/LUFA-120730/Bootloaders/DFU/BootloaderDFU.c:278-355 | The whole device after a programming request that is cut off, with any start, any number of bytes sent and any page buffer: whole pages are written, the page begun is in the buffer |
| `DfuInterruption.ProgramCut` | firmware/LUFA-120730/Bootloaders/DFU/BootloaderDFU.c:295-355 | The word loop, entered anywhere in a page with any packet boundaries, when the host leaves |
| `DfuInterruption.TailInBuffer` | firmware/LUFA-120730/Bootloaders/DFU/BootloaderDFU.c:295-355 | A buffer that was empty before is empty after the cut if and only if nothing but 0xFF has come of the page begun |
| `DfuInterruption.StaysEmpty` | firmware/LUFA-120730/Bootloaders/DFU/BootloaderDFU.c:220-536 | Over every run of requests in which no flash download is cut off, an empty page buffer stays empty |
| `DfuInterruption.EraseAfterRun` | firmware/LUFA-120730/Bootloaders/DFU/BootloaderDFU.c:220-536 | A chip erase at the end of such a run leaves the application section blank |
| `DfuInterruption.ImageDelivers` | firmware/LUFA-120730/Bootloaders/DFU/BootloaderDFU.c:237-389 | A programming request that is sent whole is not cut off, whatever its range |
| `DfuSecurity.BlankCheckExact` | firmware/LUFA-120730/Bootloaders/DFU/BootloaderDFU.c:676-702 | Blank check changes nothing if the application section is blank; otherwise it enters dfuERROR with errCHECK-ERASED, its 64 KB page and address name the least byte that is not 0xFF, and an upload reports that address |
| `DfuSecurity.EraseThenBlankCheck` | firmware/LUFA-120730/Bootloaders/DFU/BootloaderDFU.c:676-767 | After a chip erase on an empty page buffer the device is open and a blank check finds nothing |
| `Dfu.FirstNonBlank` | firmware/LUFA-120730/Bootloaders/DFU/BootloaderDFU.c:678-701 | The least address of a range that is not 0xFF, or its end |
| `Dfu.Bootloader.constructor` | firmware/LUFA-120730/Bootloaders/DFU/BootloaderDFU.c:43-93 | The variables at start-up |
| `Dfu.Bootloader.DiscardFillerBytes` | firmware/LUFA-120730/Bootloaders/DFU/BootloaderDFU.c:543-563 | In-place loop that uses up one count for each packet change; new endpoint state |
| `Dfu.Bootloader.LoadStartEndAddresses` | firmware/LUFA-120730/Bootloaders/DFU/BootloaderDFU.c:617-629 | Big-endian addresses taken from the command, nothing else changed |
| `Dfu.Bootloader.ProcessMemProgCommand` | firmware/LUFA-120730/Bootloaders/DFU/BootloaderDFU.c:634-659 | Addresses, first page erase and dfuDNLOAD-IDLE for flash and EEPROM programming, no effect for other types |
| `Dfu.Bootloader.ProcessMemReadCommand` | firmware/LUFA-120730/Bootloaders/DFU/BootloaderDFU.c:665-703 | New state of display and blank check, the scan being a loop proved against the least non-blank address |
| `Dfu.Bootloader.EraseApplication` | firmware/LUFA-120730/Bootloaders/DFU/BootloaderDFU.c:747-763 | Page loop of the chip erase |
| `Dfu.Bootloader.ProcessWriteCommand` | firmware/LUFA-120730/Bootloaders/DFU/BootloaderDFU.c:708-768 | New state of start-application and chip erase |
| `Dfu.Bootloader.ProcessReadCommand` | firmware/LUFA-120730/Bootloaders/DFU/BootloaderDFU.c:773-784 | The response byte, including the read past the table |
| `Dfu.Bootloader.ProcessBootloaderCommand` | firmware/LUFA-120730/Bootloaders/DFU/BootloaderDFU.c:569-612 | The secure-mode gate and the dispatch |
| `Dfu.Bootloader.WriteFlash` | firmware/LUFA-120730/Bootloaders/DFU/BootloaderDFU.c:295-355 | The nested packet, word and page counters, in place; flash, endpoint and addresses at the end, also when the host leaves |
| `Dfu.Bootloader.WriteEeprom` | firmware/LUFA-120730/Bootloaders/DFU/BootloaderDFU.c:356-378 | The byte loop into the EEPROM |
| `Dfu.Bootloader.ReceiveFirmware` | firmware/LUFA-120730/Bootloaders/DFU/BootloaderDFU.c:278-383 | The whole data phase: fillers, memory contents, suffix |
| `Dfu.Bootloader.ReadCommand` | firmware/LUFA-120730/Bootloaders/DFU/BootloaderDFU.c:251-275 | The command and at most five parameters, only from the first packet |
| `Dfu.Bootloader.RunCommand` | firmware/LUFA-120730/Bootloaders/DFU/BootloaderDFU.c:251-277 | The command read and carried out |
| `Dfu.Bootloader.FinishDownloadRequest` | firmware/LUFA-120730/Bootloaders/DFU/BootloaderDFU.c:276-389 | End of a download: data phase or return to dfuIDLE |
| `Dfu.Bootloader.DownloadRequest` | firmware/LUFA-120730/Bootloaders/DFU/BootloaderDFU.c:237-389 | The device after any DNLOAD request |
| `Dfu.Bootloader.UploadFlash` | firmware/LUFA-120730/Bootloaders/DFU/BootloaderDFU.c:418-456 | The word loop of a flash upload |
| `Dfu.Bootloader.UploadEeprom` | firmware/LUFA-120730/Bootloaders/DFU/BootloaderDFU.c:457-479 | The byte loop of an EEPROM upload |
| `Dfu.Bootloader.UploadRequest` | firmware/LUFA-120730/Bootloaders/DFU/BootloaderDFU.c:390-488 | The device and the packets after any UPLOAD request |
| `Dfu.Bootloader.ControlRequest` | firmware/LUFA-120730/Bootloaders/DFU/BootloaderDFU.c:220-536 | Every request kind: next state and reply equal the transition the theorems above are about |
| `HidLoader.DeliversExactly` | firmware/LUFA-120730/Bootloaders/HID/HostLoaderApp/hid_bootloader_cli.c:146-164 | On each of the five parts, every flash is programmed with the image if and only if the image is one of the deliverable ones: any below 64 KB; at 64 KB only those inside the first page; at 128 KB only those blank in the last 256 bytes of the 64 KB image |
| `HidLoader.HexToFlash` | firmware/LUFA-120730/Bootloaders/HID/HostLoaderApp/hid_bootloader_cli.c:146-164 | For every accepted HEX text and part below 64 KB, an erased device ends up holding exactly the image of the text and is still in the boot loader |
| `HidLoader.BlocksLand` | firmware/LUFA-120730/Bootloaders/HID/HostLoaderApp/hid_bootloader_cli.c:146-164 | Every flash byte after the block loop: image byte if its page is sent, else unchanged |
| `HidLoader.AddressArrives` | firmware/LUFA-120730/Bootloaders/HID/HostLoaderApp/hid_bootloader_cli.c:146-159 | The address bytes of a block never read as the start command, and name the page the device writes |
| `HidLoader.OnlyFirstPage` | firmware/LUFA-120730/Bootloaders/HID/BootloaderHID.c:139-151 | On a 64 KB part no run writes past the first page |
| `HidLoader.LastBlockBlank` | firmware/LUFA-120730/Bootloaders/HID/HostLoaderApp/hid_bootloader_cli.c:890-908 | On a 128 KB part a last block with contents is never programmed |
| `HidLoader.FirstPageWrong` | firmware/LUFA-120730/Bootloaders/HID/BootloaderHID.c:139-151 | On a 64 KB part any data past the first page gives a flash that ends up wrong |
| `HidLoader.ReportHandled` | firmware/LUFA-120730/Bootloaders/HID/BootloaderHID.c:133-187 | A page report, cut into the eight-byte packets of the control endpoint, is one page erase and write of its data at the address it names |
| `HidLoader.StartReport` | firmware/LUFA-120730/Bootloaders/HID/HostLoaderApp/hid_bootloader_cli.c:168-174 | The start report stops the boot loader and leaves the flash alone |
| `HidRoutines.HexReader.StoreRecord` | firmware/LUFA-120730/Bootloaders/HID/HostLoaderApp/hid_bootloader_cli.c:860-870 | Byte loop of a data record, in place on image and mask |
| `HidRoutines.HexReader.ParseHexLine` | firmware/LUFA-120730/Bootloaders/HID/HostLoaderApp/hid_bootloader_cli.c:814-874 | New image, mask, base, count and verdict for any line, or that the code stores outside the image |
| `HidRoutines.HexReader.Clear` | firmware/LUFA-120730/Bootloaders/HID/HostLoaderApp/hid_bootloader_cli.c:774-780 | Image 0xFF, mask clear, counters zero |
| `HidRoutines.HexReader.ReadIntelHex` | firmware/LUFA-120730/Bootloaders/HID/HostLoaderApp/hid_bootloader_cli.c:768-803 | Byte count, -2 for a bad line, -1 for a file that cannot be opened; on success the state that reading the text means |
| `HidRoutines.HexReader.BytesWithinRange` | firmware/LUFA-120730/Bootloaders/HID/HostLoaderApp/hid_bootloader_cli.c:876-888 | True if and only if some masked address lies in the range and both ends lie in the image |
| `HidRoutines.HexReader.GetBlock` | firmware/LUFA-120730/Bootloaders/HID/HostLoaderApp/hid_bootloader_cli.c:890-908 | The block of the image, blank when it reaches the end |
| `HidRoutines.Bootloader.SetReport` | firmware/LUFA-120730/Bootloaders/HID/BootloaderHID.c:133-187 | Device after a report, or that the host stopped inside it and the device waits |
| `HidRoutines.Bootloader.FillAndWrite` | firmware/LUFA-120730/Bootloaders/HID/BootloaderHID.c:157-177 | The word loop filling the page in place, and the page write |
| `HidRoutines.ProgramPart` | firmware/LUFA-120730/Bootloaders/HID/HostLoaderApp/hid_bootloader_cli.c:146-164 | Block loop run against the device: the device state the end-to-end theorems are about |
| `IntelHex.ReadExact` | firmware/LUFA-120730/Bootloaders/HID/HostLoaderApp/hid_bootloader_cli.c:768-803 | A text is accepted if and only if every line up to the end record is well formed, data records with a correct checksum, and none stores outside the image; then mask[i] holds exactly where a data record covered i, image[i] is the last such byte, else 0xFF, and the count is the number of data bytes |
| `IntelHex.InsideExact` | firmware/LUFA-120730/Bootloaders/HID/HostLoaderApp/hid_bootloader_cli.c:832-865 | A record that passes the bound, a sum in 32 bits, is stored inside the image if and only if the sum did not wrap, which it does exactly with the linear base 0xFFFF and an address and length past its end |
| `IntelHex.ReadShows` | firmware/LUFA-120730/Bootloaders/HID/HostLoaderApp/hid_bootloader_cli.c:768-803 | The same from any loader state, by induction over the lines of the text |
| `IntelHex.ParseMeans` | firmware/LUFA-120730/Bootloaders/HID/HostLoaderApp/hid_bootloader_cli.c:814-874 | Parsing a line in place does what the line means as a record: reject, store outside, end, skip, new base, or data |
| `HexPrinting.PrintThenRead` | firmware/LUFA-120730/Bootloaders/HID/HostLoaderApp/hid_bootloader_cli.c:768-874 | Any list of data, segment and linear records that fits, printed and read, is accepted and shows its data |
| `HexPrinting.ImageRoundTrip` | firmware/LUFA-120730/Bootloaders/HID/HostLoaderApp/hid_bootloader_cli.c:768-874 | Every image and mask over addresses 0 to 0xFFFE, printed and read back, gives the same mask and the same masked bytes |
| `HexPrinting.LastByteUnreachable` | firmware/LUFA-120730/Bootloaders/HID/HostLoaderApp/hid_bootloader_cli.c:832 | No accepted text can set address 0xFFFF, because a record must end below it |
| `HexPrinting.CanStray` | firmware/LUFA-120730/Bootloaders/HID/HostLoaderApp/hid_bootloader_cli.c:832-865 | A two-line text whose data byte passes the bound and is stored outside the image |
| `HexPrinting.FileRecords` | firmware/LUFA-120730/Bootloaders/HID/HostLoaderApp/hid_bootloader_cli.c:768-803 | A printed file splits into lines and records as printed, base records included |
| `HexPrinting.LineReads` | firmware/LUFA-120730/Bootloaders/HID/HostLoaderApp/hid_bootloader_cli.c:814-874 | Every field of a printed record reads back, whatever its checksum |
| `HexPrinting.ChecksumExact` | firmware/LUFA-120730/Bootloaders/HID/HostLoaderApp/hid_bootloader_cli.c:814-874 | The checksum of every record that passes the bound: what the record means with a right and with a wrong one; a wrong one makes the line bad if and only if it is a data record |
| `HexPrinting.BadBaseIgnored` | firmware/LUFA-120730/Bootloaders/HID/HostLoaderApp/hid_bootloader_cli.c:842-858 | After a base record with a wrong checksum the text is still accepted and its data lands at the old base |
| `HexPrinting.BaseEndsFile` | firmware/LUFA-120730/Bootloaders/HID/HostLoaderApp/hid_bootloader_cli.c:832-858 | After a base record beyond the image, segment or linear but for 0xFFFF, a text is accepted if and only if nothing follows, the end record included |
| `IntelHex.DeadEnd` | firmware/LUFA-120730/Bootloaders/HID/HostLoaderApp/hid_bootloader_cli.c:832 | With such a base no further line of any text is accepted |
| `RingBuffer.Fifo` | firmware/LUFA-120730/LUFA/Drivers/Misc/RingBuffer.h:236-281 | In every interleaving of one inserter and one remover, with store, pointer move and count update as separate steps, the bytes removed are a prefix of the bytes inserted |
| `RingBuffer.NoClash` | firmware/LUFA-120730/LUFA/Drivers/Misc/RingBuffer.h:236-281 | The two sides never access the same slot at once nor a slot outside the storage |
| `RingBuffer.CountIsDistance` | firmware/LUFA-120730/LUFA/Drivers/Misc/RingBuffer.h:236-281 | Count stays in range and is the distance between the pointers up to the steps still in flight |
| `RingBuffer.Quiescent` | firmware/LUFA-120730/LUFA/Drivers/Misc/RingBuffer.h:37-40 | When both are idle the ring holds exactly what was inserted and not yet removed |
| `RingBuffer.RunKeeps` | firmware/LUFA-120730/LUFA/Drivers/Misc/RingBuffer.h:236-281 | Every run of steps keeps the invariant from which these follow |
| `RingBuffer.Ring.constructor` | firmware/LUFA-120730/LUFA/Drivers/Misc/RingBuffer.h:129-146 | Empty ring over the given storage |
| `RingBuffer.Ring.GetCount` | firmware/LUFA-120730/LUFA/Drivers/Misc/RingBuffer.h:162-174 | Number of bytes held |
| `RingBuffer.Ring.GetFreeCount` | firmware/LUFA-120730/LUFA/Drivers/Misc/RingBuffer.h:188-192 | Room left |
| `RingBuffer.Ring.IsEmpty` | firmware/LUFA-120730/LUFA/Drivers/Misc/RingBuffer.h:206-210 | True if and only if nothing is held |
| `RingBuffer.Ring.IsFull` | firmware/LUFA-120730/LUFA/Drivers/Misc/RingBuffer.h:220-224 | True if and only if no room is left |
| `RingBuffer.Ring.Insert` | firmware/LUFA-120730/LUFA/Drivers/Misc/RingBuffer.h:236-251 | Appends in place around the end of the storage; on a full ring, which is not checked, the oldest byte is overwritten and the ring is broken |
| `RingBuffer.Ring.Remove` | firmware/LUFA-120730/LUFA/Drivers/Misc/RingBuffer.h:264-281 | Takes the oldest byte; on an empty ring, which is not checked, the count wraps to 0xFFFF |
| `RingBuffer.Ring.Peek` | firmware/LUFA-120730/LUFA/Drivers/Misc/RingBuffer.h:289-293 | The oldest byte, left in place |
| `Sha256.AsicPrecalc` | firmware/LUFA-120730/Projects/AvalonBTC/avalon.c:187-224 | The shipped in-place version with rotating register names leaves the new a and e of the first three SHA-256 rounds (section 6.2.2 of FIPS 180-4) for every midstate and data |
| `Sha256.AsicPrecalcShifting` | firmware/LUFA-120730/Projects/AvalonBTC/avalon.c:155-186 | The plain shift-register version leaves the same words |
| `Sha256.PrecalcResumes` | firmware/LUFA-120730/Projects/AvalonBTC/avalon.c:152-225 | The full working state after three rounds is (p0, p1, p2, mid0, p3, p4, p5, mid4) |
| `Sha256.RotatingRound` | firmware/LUFA-120730/Projects/AvalonBTC/avalon.c:196-221 | One round in place, only two slots written, keeps the renaming of slots to registers one step further |
| `Sha256.RotateIsRotr` | firmware/LUFA-120730/Projects/AvalonBTC/avalon.c:146-149 | The left rotations of the code are the right rotations of section 4.1.2 of FIPS 180-4 |
| `Sha256.ChooseForm` | firmware/LUFA-120730/Projects/AvalonBTC/avalon.c:196-221 | The short form of Ch is Ch |
| `Sha256.MajorityForm` | firmware/LUFA-120730/Projects/AvalonBTC/avalon.c:196-221 | The short form of Maj is Maj |
| `AsicLink.WordsArrive` | firmware/LUFA-120730/Projects/AvalonBTC/avalon.c:52-73 | The words sent on the two data lines are recovered, least significant bit first, from the levels |
| `AsicLink.DataPort.Send32` | firmware/LUFA-120730/Projects/AvalonBTC/avalon.c:52-73 | Bit loop of one word on the line |
| `AsicLink.DataPort.Send` | firmware/LUFA-120730/Projects/AvalonBTC/avalon.c:121-128 | All words of a buffer |
| `AsicLink.ReplyDecodes` | bfgminer-driver/driver-miniminer1.c:183-206 | What the driver reads from a seven-byte reply is what the firmware put there |
| `AsicLink.NonceArrives` | firmware/LUFA-120730/Projects/AvalonBTC/avalon.c:24-49 | The nonce the host decodes is (b0 + 2^8 b1 + 2^16 b2 + 2^24 b3 - 0xC0) mod 2^32 for the bytes the ASIC shifted out |
| `Miner.StreamParsed` | firmware/LUFA-120730/Projects/AvalonBTC/application.c:65-142 | In every run and for every split of the stream, the commands executed, then the parse of what is buffered and still to come, are the parse of the whole stream |
| `Miner.CaughtUp` | firmware/LUFA-120730/Projects/AvalonBTC/application.c:204-212 | The commands executed are those of all bytes received if and only if no complete command is left in the ring |
| `Miner.BacklogExact` | firmware/LUFA-120730/Projects/AvalonBTC/application.c:204-212 | A receive call leaves no complete command behind if and only if the bytes it sees complete at most one |
| `Miner.SecondWaits` | firmware/LUFA-120730/Projects/AvalonBTC/application.c:204-212 | Two commands in one call: the second is not executed |
| `Miner.HostJobArrives` | firmware/LUFA-120730/Projects/AvalonBTC/application.c:104-133 | The 45-byte frame of the host gives 640 bit symbols whose 20 words carry the configuration, data, midstate and the working state after three rounds; the job is acknowledged and its timeout starts |
| `Miner.JobCarriesState` | firmware/LUFA-120730/Projects/AvalonBTC/application.c:49-62 | The job words determine the whole SHA-256 state after three rounds |
| `Miner.FrameParsed` | bfgminer-driver/driver-miniminer1.c:162-166 | The frame the host builds is parsed as exactly one job with its midstate and data |
| `Miner.RunKeeps` | firmware/LUFA-120730/Projects/AvalonBTC/application.c:65-201 | Every run of receive and service calls, with the SPI interrupt and the clock at any point inside them, keeps the invariant from which the results below follow |
| `Miner.ServiceSettles` | firmware/LUFA-120730/Projects/AvalonBTC/application.c:157-201 | The steps of a service call, with nothing between them, are the routine as a whole |
| `Miner.ReceiveSettles` | firmware/LUFA-120730/Projects/AvalonBTC/application.c:65-142 | So are those of a receive call |
| `Miner.WorkingIsTimed` | firmware/LUFA-120730/Projects/AvalonBTC/application.c:79-133 | In every reachable state a job at work shows no nonce, and between two calls its 16 s timer is armed since it was sent; timeouts never outnumber jobs |
| `Miner.TimeoutResets` | firmware/LUFA-120730/Projects/AvalonBTC/application.c:157-201 | A service call begun later than the timeout ends in the reset state whatever interrupts it, and reports it if a job was given up |
| `Miner.NoEarlyTimeout` | firmware/LUFA-120730/Projects/AvalonBTC/application.c:157-201 | A service call that ends before the timeout changes nothing of a job at work, but for what the interrupt does |
| `Miner.ReportsUnlessLost` | firmware/LUFA-120730/Projects/AvalonBTC/application.c:79-201 | At every point of every run a report can still arrive, is waiting or is being taken if and only if neither a command nor a timeout has ever cleared the flag of a waiting report |
| `Miner.LostForever` | firmware/LUFA-120730/Projects/AvalonBTC/avalon.c:24-49 | After that no nonce is ever reported again, whatever happens |
| `Miner.LostByCommand` | firmware/LUFA-120730/Projects/AvalonBTC/application.c:79-133 | In every state with the interrupt enabled, a report and then a reset, stop or job command lose it |
| `Miner.LostByTimeout` | firmware/LUFA-120730/Projects/AvalonBTC/application.c:157-201 | In every state with an overdue job and the interrupt enabled, a report that arrives in a service call after its test of the flag is lost |
| `Miner.ReportCanBeLost` | firmware/LUFA-120730/Projects/AvalonBTC/application.c:79-201 | Runs from power-up that lose the report of any first job, one to a command and one to the timeout |
| `Miner.ReportServed` | firmware/LUFA-120730/Projects/AvalonBTC/application.c:157-189 | In every run, from any state between two calls with a report waiting: a service call, whatever interrupts it, sends exactly one reply, the nonce of that report |
| `Miner.NonceReported` | firmware/LUFA-120730/Projects/AvalonBTC/application.c:157-189 | Four bytes from the ASIC with the interrupt enabled are such a report, and its reply decodes to (b0 + 2^8 b1 + 2^16 b2 + 2^24 b3 - 0xC0) mod 2^32 |
| `Driver.HostScan` | bfgminer-driver/driver-miniminer1.c:175-214 | The poll loop of the driver: the first turn with new work, a nonce or a reset ends it and decides the result |
| `Driver.ScanDecides` | bfgminer-driver/driver-miniminer1.c:175-214 | Reading the replies of the serial line in order, the loop returns the verdict of the reply that the call takes |
| `Driver.AnswerExact` | bfgminer-driver/driver-miniminer1.c:155-219 | With replies that come in the order of their jobs, the answer a call takes belongs to its own job if and only if no deciding reply of an earlier one is on the line, be it unread before the call or arriving in it |
| `Driver.SessionExact` | bfgminer-driver/driver-miniminer1.c:155-219 | Over any number of calls, whenever the replies arrive, every answer belongs to the job of its call if and only if no answered call has a deciding reply of an earlier job on its line |
| `Driver.ScanReads` | bfgminer-driver/driver-miniminer1.c:175-214 | A call reads the line in order up to the first deciding reply, and leaves the rest of it unread |
| `Driver.DecisionsKept` | bfgminer-driver/driver-miniminer1.c:175-214 | A call uses up one deciding reply if it is answered and none otherwise |
| `Driver.OneEachIsClean` | bfgminer-driver/driver-miniminer1.c:155-219 | It is so when every call is answered, every job has at most one deciding reply and none is left of the jobs before, whenever the replies arrive |
| `Driver.StaleNonce` | bfgminer-driver/driver-miniminer1.c:175-214 | Two calls of which the second returns the nonce of the first job, once unread before it and once arriving in it |
| `Driver.HostFindsNonce` | bfgminer-driver/driver-miniminer1.c:183-206 | The driver passes over the acknowledgement of its job and takes the nonce of the report |
| `MinerApplication.Application.constructor` | firmware/LUFA-120730/Projects/AvalonBTC/application.c:145-154 | Start-up state |
| `MinerApplication.Application.SendStatus` | firmware/LUFA-120730/Projects/AvalonBTC/application.c:34-46 | The seven bytes of a status reply are appended |
| `MinerApplication.Application.PushWork` | firmware/LUFA-120730/Projects/AvalonBTC/application.c:49-62 | The levels of the twenty job words and the idle level |
| `MinerApplication.Application.TakeFrame` | firmware/LUFA-120730/Projects/AvalonBTC/application.c:104-119 | A complete job frame is taken out of the ring, split into midstate and data |
| `MinerApplication.Application.RunJob` | firmware/LUFA-120730/Projects/AvalonBTC/application.c:121-133 | The job is precalculated, sent and acknowledged and its timeout armed |
| `MinerApplication.Application.Precalculate` | firmware/LUFA-120730/Projects/AvalonBTC/avalon.c:187-224 | The in-place routine on the job words |
| `MinerApplication.Application.SerialProcess` | firmware/LUFA-120730/Projects/AvalonBTC/application.c:65-142 | At most one complete command is taken and executed; a partial frame stays |
| `MinerApplication.Application.BufferBytes` | firmware/LUFA-120730/Projects/AvalonBTC/application.c:206-210 | The receive loop appends the bytes in order |
| `MinerApplication.Application.UsbDataReceived` | firmware/LUFA-120730/Projects/AvalonBTC/application.c:204-212 | Received bytes are buffered in order and processed once |
| `MinerApplication.Application.ServeReport` | firmware/LUFA-120730/Projects/AvalonBTC/application.c:157-189 | Its first half: a waiting report becomes a nonce and the interrupt is enabled |
| `MinerApplication.Application.ServeTimeout` | firmware/LUFA-120730/Projects/AvalonBTC/application.c:190-201 | Its second half: an expired job is given up |
| `MinerApplication.Application.Service` | firmware/LUFA-120730/Projects/AvalonBTC/application.c:157-201 | Report and timeout handling with no interrupt in it |
| `MinerApplication.Application.SpiInterrupt` | firmware/LUFA-120730/Projects/AvalonBTC/avalon.c:24-49 | The report is the first four bytes at most, the interrupt is disabled |
| `Timer.DueExactly` | firmware/LUFA-120730/Projects/AvalonBTC/timer.c:35-69 | Against an unbounded clock, for every elapsed time below 2^32, when an active timer is due: never before the interval, always after it, and at exactly the interval only if the clock value is then not past the start value |
| `Timer.NoDrift` | firmware/LUFA-120730/Projects/AvalonBTC/timer.c:21-69 | A timer polled every tick and rearmed with reset fires for the k-th time at s + k*i or one tick later, over any number of clock wraps, and misses no firing |
| `Timer.RestartPeriods` | firmware/LUFA-120730/Projects/AvalonBTC/timer.c:28-69 | Rearmed with restart instead, over any number of clock wraps: each firing comes one tick after the interval from the one before it, or at the interval exactly when the clock wraps within it, and none is missed |
| `Timer.RestartDrifts` | firmware/LUFA-120730/Projects/AvalonBTC/timer.h:64-78 | So the k-th firing is at s + k*(i + 1), less at most one tick for each wrap: the documented drift |
| `Timer.RestartCanBeExact` | firmware/LUFA-120730/Projects/AvalonBTC/timer.c:28-69 | A period that the wrap makes exact |
| `Timer.AtMostOncePerArming` | firmware/LUFA-120730/Projects/AvalonBTC/timer.c:7-69 | In every history of sets, resets, restarts, stops, polls and ticks, expiries never outnumber armings |
| `Timer.Timer.Set` | firmware/LUFA-120730/Projects/AvalonBTC/timer.c:7-12 | Armed now with the interval |
| `Timer.Timer.Stop` | firmware/LUFA-120730/Projects/AvalonBTC/timer.c:15-18 | Inactive |
| `Timer.Timer.Reset` | firmware/LUFA-120730/Projects/AvalonBTC/timer.c:21-25 | Armed from the end of the last interval, modulo 2^32 |
| `Timer.Timer.Restart` | firmware/LUFA-120730/Projects/AvalonBTC/timer.c:28-32 | Armed now with the old interval |
| `Timer.Timer.Expired` | firmware/LUFA-120730/Projects/AvalonBTC/timer.c:35-69 | Tells if due and disarms if so |
| `FpgaProgrammer.FrameServed` | firmware/LUFA-120730/Projects/XilinxFpgaProg/serial.c:29-154 | A frame fed byte by byte is carried out, answered and leaves the ring empty if and only if it is well formed: payload of at most 126 bytes, one byte for a select, none for the pin commands |
| `FpgaProgrammer.FramesServed` | firmware/LUFA-120730/Projects/XilinxFpgaProg/application.c:59-77 | Every stream of well-formed frames with any filler bytes between them is carried out frame by frame in order, with one two-byte answer per frame |
| `FpgaProgrammer.TooLong` | firmware/LUFA-120730/Projects/XilinxFpgaProg/serial.c:29-57 | A frame longer than the ring overruns it |
| `FpgaProgrammer.Programmer.constructor` | firmware/LUFA-120730/Projects/XilinxFpgaProg/serial.c:22-26 | Empty ring, no frame |
| `FpgaProgrammer.Programmer.SerialAddByte` | firmware/LUFA-120730/Projects/XilinxFpgaProg/serial.c:29-57 | One byte taken, skipped or completing a frame |
| `FpgaProgrammer.Programmer.DrainPayload` | firmware/LUFA-120730/Projects/XilinxFpgaProg/serial.c:60-154 | Payload loop of data and unknown commands |
| `FpgaProgrammer.Programmer.SerialProcess` | firmware/LUFA-120730/Projects/XilinxFpgaProg/serial.c:60-154 | Dispatch of a complete frame: effects, what is left in the ring, and the answer |
| `FpgaProgrammer.Programmer.UsbDataReceived` | firmware/LUFA-120730/Projects/XilinxFpgaProg/application.c:59-77 | All bytes of a receive call and their answers |
| `Cdc.BlockWriteExact` | firmware/LUFA-120730/Bootloaders/CDC/BootloaderCDC.c:235-342 | After the address command, a flash block command always stores what was sent, whatever the bytes, their packets, the old flash and the page buffer, if and only if the length is even and the block stays inside its page |
| `Cdc.NotStored` | firmware/LUFA-120730/Bootloaders/CDC/BootloaderCDC.c:235-342 | For every other block, two commands whose data does not arrive |
| `Cdc.BlockWrites` | firmware/LUFA-120730/Bootloaders/CDC/BootloaderCDC.c:289-341 | A flash block command, however packed, is one page erase and write of its words; address and answer |
| `Cdc.FlashRoundTrip` | firmware/LUFA-120730/Bootloaders/CDC/BootloaderCDC.c:235-342 | Address, write, address and read commands return a storable flash block, and the address moves by its length both times |
| `Cdc.EepromRoundTrip` | firmware/LUFA-120730/Bootloaders/CDC/BootloaderCDC.c:235-342 | The same for every EEPROM block, and the address moves by twice its length |
| `Cdc.AddressSet` | firmware/LUFA-120730/Bootloaders/CDC/BootloaderCDC.c:442-450 | The address command sets the address, answers and touches no memory |
| `Cdc.ResponseTerminates` | firmware/LUFA-120730/Bootloaders/CDC/BootloaderCDC.c:399-617 | For every device and every command: the packets of the task concatenate to the response and are all full but the last, which is shorter, empty if the length is a multiple of 16 |
| `Cdc.EraseCommandExact` | firmware/LUFA-120730/Bootloaders/CDC/BootloaderCDC.c:473-486 | The erase command leaves the application section blank if and only if the page buffer was empty |
| `Cdc.BufferRun` | firmware/LUFA-120730/Bootloaders/CDC/BootloaderCDC.c:399-617 | Over every run of commands, the commands alone tell whether the page buffer is empty: filled by a byte-wise write, emptied by a commit, an erase or a flash block |
| `Cdc.EraseAfterRun` | firmware/LUFA-120730/Bootloaders/CDC/BootloaderCDC.c:399-617 | So they tell whether an erase after any run leaves the application section blank |
| `Cdc.ByteThenErase` | firmware/LUFA-120730/Bootloaders/CDC/BootloaderCDC.c:473-546 | A byte-wise flash write of any value and then an erase never do |
| `Cdc.AddressExact` | firmware/LUFA-120730/Bootloaders/CDC/BootloaderCDC.c:442-450 | The set address is the one the host meant if and only if its high byte is below 0x40, because the 16-bit shift is sign-extended |
| `Cdc.Bootloader.FetchNextCommandByte` | firmware/LUFA-120730/Bootloaders/CDC/BootloaderCDC.c:350-369 | Next byte of the host stream, waiting over empty packets |
| `Cdc.Bootloader.WriteNextResponseByte` | firmware/LUFA-120730/Bootloaders/CDC/BootloaderCDC.c:376-395 | Byte appended, a full bank sent first |
| `Cdc.Bootloader.SetCurrAddress` | firmware/LUFA-120730/Bootloaders/CDC/BootloaderCDC.c:442-450 | New address from two command bytes |
| `Cdc.Bootloader.FinishResponse` | firmware/LUFA-120730/Bootloaders/CDC/BootloaderCDC.c:598-617 | Last packet, and an empty one after a full one |
| `Cdc.Bootloader.ReadBlock` | firmware/LUFA-120730/Bootloaders/CDC/BootloaderCDC.c:257-288 | Read loops of flash and EEPROM with the auto-increment address |
| `Cdc.Bootloader.WriteFlashBlock` | firmware/LUFA-120730/Bootloaders/CDC/BootloaderCDC.c:290-341 | Erase, word fills with every second byte, page write |
| `Cdc.Bootloader.WriteEepromBlock` | firmware/LUFA-120730/Bootloaders/CDC/BootloaderCDC.c:290-341 | Byte loop at half the address |
| `Cdc.Bootloader.ReadWriteMemoryBlock` | firmware/LUFA-120730/Bootloaders/CDC/BootloaderCDC.c:235-342 | Device and response after any block command, an unknown memory type included |
| `Cdc.Bootloader.constructor` | firmware/LUFA-120730/Bootloaders/CDC/BootloaderCDC.c:51-57 | Start-up state |
| `Cdc.Bootloader.WriteResponse` | firmware/LUFA-120730/Bootloaders/CDC/BootloaderCDC.c:456-461 | A response of several bytes |
| `Cdc.Bootloader.EraseApplication` | firmware/LUFA-120730/Bootloaders/CDC/BootloaderCDC.c:473-486 | Page loop of the erase command |
| `Cdc.Bootloader.RunByteCommand` | firmware/LUFA-120730/Bootloaders/CDC/BootloaderCDC.c:419-582 | The commands that take one byte: device type, lock bits, byte-wise flash and EEPROM writes |
| `Cdc.Bootloader.RunPlainCommand` | firmware/LUFA-120730/Bootloaders/CDC/BootloaderCDC.c:412-558 | Exit, erase and page commit |
| `Cdc.Bootloader.RunCommand` | firmware/LUFA-120730/Bootloaders/CDC/BootloaderCDC.c:399-596 | Device and response after any command, unknown ones and the escape included |
| `Cdc.Bootloader.RunTask` | firmware/LUFA-120730/Bootloaders/CDC/BootloaderCDC.c:399-617 | Device and packets after any command |

## Left out

- USB descriptors, the device state of the USB stack, stalled endpoints and the request type filter: tables and library code.
- LEDs, boards, delays, watchdog, interrupt vectors and the jump to the application: hardware
  effects. The LED command of the miner only takes its byte.
- The flash and the endpoints are models of what the routines see: filling a buffer word twice
  overwrites it (so does a download over what an earlier one has left there), reading an empty endpoint bank gives 0, a host that leaves is one with no further packets.
- DfuSecurity.NoLeak: the byte that a read command finds past its table is a parameter of the request; DfuSecurity.NoLeakInside is without it.
- What the lock and fuse bits of a CDC part read as is a parameter; lock bits that are set are only recorded.
- On DFU parts of at most 64 KB the firmware truncates the address to 16 bits; the model keeps the full address.
- A DFU request holds less than 64 KB, as its 16-bit length does; a range of exactly 64 KB does not fit one request.
- Options, USB access and waiting of the HID host program.
- IntelHex.ParseMeans: hexadecimal fields are digits only; leading white space, signs and a 0x prefix that sscanf would take, and NUL characters in a file, are not modelled.
- IntelHex.ReadExact: fields as in IntelHex.ParseMeans; what a store outside the image overwrites is not modelled.
- IntelHex.ReadShows: as IntelHex.ReadExact.
- HidRoutines.HexReader.ParseHexLine: fields as in IntelHex.ParseMeans; it stops where the code stores outside the image.
- HidRoutines.HexReader.ReadIntelHex: as HidRoutines.HexReader.ParseHexLine.
- RingBuffer.Fifo: one inserter that starts only with room and one remover that starts only with a byte, as the header demands; steps are atomic one by one.
- Miner.StreamParsed: a receive call that would overrun the ring is not part of a run.
- MinerApplication.Application.BufferBytes: as MinerApplication.Application.UsbDataReceived.
- MinerApplication.Application.UsbDataReceived: requires room in the ring, as the firmware assumes without checking.
- MinerApplication.Application.SendStatus: the output ring is an unbounded log, without its insert loop and its overrun.
- MinerApplication.Application.Service: has no interrupt in it; the runs of Miner have one at any of its steps.
- FpgaProgrammer.Programmer.SerialAddByte: requires room in the ring for a byte that starts or continues a frame, which the code does not check for.
- FpgaProgrammer.Programmer.SerialProcess: requires a frame that does not underrun the ring, which the code does not check for.
- FpgaProgrammer.Programmer.UsbDataReceived: requires bytes that neither overrun nor underrun the ring.
- HidRoutines.Bootloader.SetReport: of a host that stops inside a report it only says that the device waits.
- The FPGA pins are parameters; forwarding between USART and USB is not modelled.
- Driver.HostScan: the turns of the loop are a given list; how long each waits is not modelled.
- Driver.SessionExact: a reply is read whole; replies come in the order of their jobs and none before its job is sent.
- Detection, initialisation, status line and nonce check of the driver: library calls.
- The other LUFA projects of the repository: wiring of library code.
