# Verified models of kernelflinger

kernelflinger is a UEFI boot loader for Android: it boots, flashes partitions over fastboot, installs from a file, and
dumps memory over ADB after a crash. This project models the parts of it that transform data or run a protocol, in the
form the C code has (records updated in place, loops, event handlers), and proves what they are for.

`dafny verify dfyconfig.toml` checks everything.

| file | models |
|---|---|
| `Bytes.dfy` | machine words, little-endian and big-endian fields, splices of byte sequences |
| `SparseFormat.dfy` | what an Android sparse image means: a list of chunks says what is written where on a disk |
| `Installer.dfy` | the splitter that turns a sparse file into sparse images that fit the download buffer |
| `MemoryMap.dfy`, `MemoryStream.dfy` | the UEFI memory map, and streams of literal bytes and memory addresses |
| `RamReader.dfy`, `RamImage.dfy` | the "ram" crash dump reader: chunk table, streaming, and what the stream means |
| `VmcoreReader.dfy` | the "vmcore" reader: an ELF64 core file built from the memory map and streamed |
| `Readers.dfy` | reader_read over the two memory readers, or over a script that stands for the others |
| `SyncService.dfy` | the stop-and-wait transfer of a reader's output to the ADB host |
| `AdbPull.dfy` | the pull of "ram" and "vmcore" from end to end |
| `AdbSockets.dfy` | the socket table, the sync contexts and the locks of the memory readers over all runs |
| `TcpRx.dfy`, `FastbootTcp.dfy` | sixteen TCP receive tokens, the message layer above them, and the download above that |
| `CommandLine.dfy` | the argument list of a command, cut in place out of its buffer |
| `FastbootSteps.dfy`, `FastbootQueue.dfy` | the fastboot states, the queue of answers, and what becomes of every command of every run |
| `FastbootDownload.dfy` | a download from its command to its OKAY, over all these layers |
| `ElfImage.dfy`, `Elf64.dfy` | the ELF64 loader: segments, zero fill, relocation, one file at two addresses |
| `BootOrder.dfy` | registration of load options and the merge into BootOrder |
| `Watchdog.dfy` | the crash counter kept across boots |
| `TpmDigests.dfy` | the TPM digest lists, written and read |

How the outside world appears:

- Calls that may fail (file reads, flash commands, reads of a memory reader, GetMemoryMap, packets sent to the ADB host,
  TCP receives, transport reads and writes of fastboot, memory for an answer, firmware variables) are answered by
  functions or outcome parameters that are left open, so a statement holds for every pattern of failures.
- How the network or a reader cuts its bytes into pieces is a function parameter (`completions`, `request`), left open too.
- Memory contents are a function from addresses to bytes. The streams of the memory readers are sequences of literal
  bytes and memory addresses, so a statement about them holds for all contents.
- Integers are unbounded; wherever a 32-bit or 64-bit C computation can wrap, the model writes the wrap out.

Where the code does not do what its purpose asks for, the model keeps the code, a theorem gives the exact condition under
which it does, and a lemma or method gives an input that shows it does not:

| property | holds exactly when | input |
|---|---|---|
| a "ram" dump is the memory of its range | `RamImage.DumpRam`, `RamImage.Faithful` | `RamImage.MisplacedExample`, `RamImage.StrayGapExample`, `RamImage.BigRangeExample` |
| a "ram" dump can be read to its end | `RamReader.Ram.ReadAll` | `RamImage.FullTableDump` |
| a "vmcore" dump has the memory of its range | `VmcoreReader.DumpExact` | `VmcoreReader.AfterEndExample`, `VmcoreReader.WrappedExample` |
| a memory reader can be opened again | `AdbSockets.LeakExact`, `AdbSockets.Adb.Run` | `AdbSockets.LeakExample` |
| a download ends | `FastbootTcp.Link.Run` | `FastbootTcp.EmptyMessageExample` |
| a command gets its whole answer | `FastbootSteps.CommandExact` | `FastbootQueue.CutExample` |
| a command that was read is run | `FastbootSteps.HangExact` | `FastbootQueue.EmptyExample`, `FastbootQueue.NamelessExample` |
| fastboot has something to wait for | `FastbootSteps.DueExact` | `FastbootQueue.EmptyExample` |
| the rest of a segment is zero | `ElfImage.BssExact` | `Elf64.BssExample` |
| the boot order is the merge | `BootOrder.BootManager.Install`, `BootOrder.Counts` | `BootOrder.TwiceExample`, `BootOrder.SharedExample` |
| crashes in a row bring the menu | `Watchdog.Nvram.Boots` | `Watchdog.WrapExample` |

## Model

| member | source | states |
|---|---|---|
| `Installer.Splitter.SplitAndFlash` | installer.c:470-590 | for every well-formed sparse file and every pattern of read and flash failures, what was flashed so far is well-formed images no larger than the buffer that write, in order, a prefix of what the file writes; with no failure it is all of it, so every large enough disk ends up as if the file had been flashed, exactly when every chunk that is not RAW fits the buffer |
| `Installer.Splitter.SplitChunks` | installer.c:517-586 | the outer loop: ends with everything written, or with a chunk that is not RAW and does not fit, or with a failed read or flash |
| `Installer.Splitter.ScanChunks` | installer.c:530-546 | the inner loop counts exactly the complete chunks in the buffer and leaves their number and blocks in the image header |
| `Installer.Splitter.LoadTurn` | installer.c:517-546 | after a read the buffer holds the next bytes of the file behind the chunk kept from the last turn |
| `Installer.Splitter.SmallTurn` | installer.c:569-585 | complete chunks are flashed as one image behind a skip, and the incomplete one moves to the front; a failed flash adds nothing |
| `Installer.Splitter.BigTurn` | installer.c:548-567 | a buffer without a complete chunk is refused exactly when its chunk is not RAW; else that chunk is written whole and the file goes on with the next one |
| `Installer.Splitter.FlashBigChunk` | installer.c:284-338 | a RAW chunk too large for the buffer is written whole, in images of one skip and one RAW chunk, and the file advances by what the buffer did not hold; failures leave a prefix |
| `Installer.Splitter.FlashPieces` | installer.c:295-332 | in every turn the buffer holds the next bytes of the payload, no more than fit, and the pieces add up to the payload |
| `Installer.Splitter.FlashTurn` | installer.c:299-332 | one turn flashes whole blocks and refills the buffer behind the part block it kept |
| `Installer.Splitter.Refill` | installer.c:313-328 | the kept bytes and the bytes read make the next stretch of the payload, without gap or overlap |
| `Installer.Splitter.ReadFile` | installer.c:189-206 | a read delivers all bytes asked for, or fails |
| `Installer.Splitter.FlashBuffer` | installer.c:174-187 | a successful flash of a well-formed image behind a skip appends what it writes to what was written before; a failed one appends nothing |
| `Installer.SubImage` | installer.c:503-546 | a header with matching totals, a skip and valid chunks is a well-formed image that skips and then does what the chunks do |
| `Installer.PieceImage` | installer.c:299-306 | the same for the two-chunk images of a big chunk |
| `Installer.PieceSize` | installer.c:289-327 | a piece takes all whole blocks that fit; what is left in the buffer is shorter than a block, so no subtraction of the loop underflows |
| `Installer.SameDisk` | include/sparse_format.h:40-72 | images that write the same bytes as the file leave every disk as the file does |
| `SparseFormat.AppliesNext` | include/sparse_format.h:40-72 | flashing one more image that skips what was written adds what it writes |
| `RamReader.OverflowTest` | libadb/reader.c:173-212 | for page multiples, the test on the wrapped sum is the 32-bit overflow of total_sz |
| `RamReader.PiecesCover` | libadb/reader.c:195-235 | the pieces of a stretch cover it exactly |
| `RamReader.PiecesExact` | libadb/reader.c:195-235 | every RAW piece has total_sz and chunk_sz without truncation |
| `RamReader.Ram.AddChunk` | libadb/reader.c:195-235 | the chunk table, the totals and the length grow by exactly the pieces of the stretch; refused exactly for sizes that are no page multiple, or for want of table entries |
| `RamReader.Ram.BuildChunks` | libadb/reader.c:237-321 | for every sorted map and every range, wrapped or not, the chunk table holds exactly the stretches that the map and the range determine, and the end is that of the last region when none was given; for aligned, disjoint maps an invalid parameter means that no region reaches the range |
| `RamReader.Ram.ReadRam` | libadb/reader.c:328-367 | a read returns the next bytes of the file, and fails exactly when a header does not fit the request or the last table entry is reached |
| `RamReader.Ram.Read` | libadb/reader.c:1066-1084 | the same through reader_read, with an empty result exactly at the end |
| `RamReader.Ram.ReadAll` | libadb/reader.c:328-367 | requests of at least 28 bytes, whatever they are, yield the whole file exactly when the table has fewer than 256 chunks |
| `RamReader.Ram.AddRegion` | libadb/reader.c:260-296 | one region adds the hole before it and its part of the range, in 64-bit arithmetic, and the loop ends exactly where the range does; out of resources only when the table overflows |
| `RamReader.Ram.FillTable` | libadb/reader.c:252-300 | the loop over the map leaves exactly the stretches that the map and the range determine |
| `RamReader.Ram.Open` | libadb/reader.c:86-143 | a range is accepted exactly when START and the 64-bit sum END are page multiples, some region reaches it and its stretches fit the table; OutOfResources exactly when they do not fit |
| `RamReader.StretchesCover` | libadb/reader.c:252-300 | the stretches of a reachable range are the bytes of the range, conventional ones RAW, after the stray gap |
| `RamReader.WrappedRange` | libadb/reader.c:86-300 | a range whose 64-bit end wrapped below its start, and whose stretches fit the table, has no RAW stretch, whatever the map |
| `RamImage.DumpRam` | libadb/reader.c:86-367 | opening and reading together, for every map and range: success exactly when the range is reachable and takes fewer than 256 chunks; then for all memory contents the file is a sparse image that writes the conventional memory of the range and nothing else, if and only if `Faithful` holds of the map and the range; a range that wrapped dumps no memory |
| `RamImage.StrayGapExample` | libadb/reader.c:260-285 | a map and a range that are not faithful: the image begins with a hole that lies before the range |
| `RamImage.MisplacedExample` | libadb/reader.c:359 | a map that is not faithful: its stretches are computed, and memory behind a hole of 4 GiB is read from the wrong address |
| `RamImage.StreamCells` | libadb/reader.c:195-367 | what the rendered stream writes as a sparse image, chunk by chunk, with the addresses that the 32-bit product gives |
| `RamImage.ImageExact` | libadb/reader.c:195-367 | for all memory contents: the stream is a sparse image that writes the memory of the stretches and nothing else, if and only if the gap in front counts as nothing in 32 bits of blocks, the range is under 16 TiB and no RAW stretch is misplaced |
| `RamImage.RangeStretches` | libadb/reader.c:260-300 | the stretches of a map and a range are the stray gap and then the bytes of the range |
| `RamImage.MisplacedMeans` | libadb/reader.c:356-363 | a stretch is misplaced exactly when it is RAW and not empty and a hole of 4 GiB or more comes before it |
| `RamImage.BigRangeExample` | libadb/reader.c:195-235 | a map that is not faithful: the blocks of the dump do not fit 32 bits |
| `RamImage.FullTableExample` | libadb/reader.c:328-367 | a map of 256 regions that takes exactly 256 chunks |
| `RamImage.FullTableDump` | libadb/reader.c:237-367 | its dump is opened and cannot be read |
| `VmcoreReader.LengthExact` | libadb/reader.c:512-526 | the 64-bit length of a segment is that of the region's part of the range exactly when that part does not start after END |
| `VmcoreReader.DumpExact` | libadb/reader.c:507-547 | the segments dump exactly the conventional memory of the range if and only if no conventional region, as far as it reaches past START, starts after END |
| `VmcoreReader.AfterEndExample` | libadb/reader.c:524-526 | a map and a range for which a segment gets almost the whole address space |
| `VmcoreReader.Vmcore.CollectSegments` | libadb/reader.c:507-542 | one segment per conventional region that reaches past START, in order; out of resources exactly when the program headers run out |
| `VmcoreReader.Vmcore.BuildHeader` | libadb/reader.c:492-557 | segment offsets tile the file after the headers and the length is that of the file; refused exactly when there is nothing to dump or the program headers run out |
| `VmcoreReader.CoreFileSound` | libadb/reader.c:492-557 | a reader of the core file finds, through the fields of each encoded program header, the memory the header announces |
| `VmcoreReader.SegmentsSolid` | libadb/reader.c:507-542 | for a real memory map no segment but the last can be empty, so streaming never meets an empty one with bytes left |
| `VmcoreReader.Vmcore.ReadCore` | libadb/reader.c:564-601 | a read returns the next bytes of the file and fails exactly when the headers do not fit the first request |
| `VmcoreReader.Vmcore.Read` | libadb/reader.c:1066-1084 | the same through reader_read |
| `VmcoreReader.Vmcore.ReadAll` | libadb/reader.c:564-601 | requests that the headers fit in yield the whole core file |
| `VmcoreReader.DumpCore` | libadb/reader.c:492-601 | opening and reading together, with no conventional region after END: success and OutOfResources exactly as the map says, the core file holds at the offset of each segment the memory it announces, and the segments are exactly the conventional memory of the range |
| `VmcoreReader.WrappedExample` | libadb/reader.c:86-143 | a range whose 64-bit end wrapped below its start: its segment gets almost the whole address space |
| `VmcoreReader.Vmcore.Open` | libadb/reader.c:86-143 | a range is accepted exactly when START and END are page multiples and BuildHeader accepts it |
| `Readers.Reader.Read` | libadb/reader.c:1066-1084 | the next bytes of the rendered stream of whichever reader is behind it, no more than asked for, none exactly at the end; it fails exactly when that reader does |
| `SyncService.HostReceives` | libadb/sync_service.c:129-183 | the host's parser gets framed blocks back in order and sees the file complete at DONE |
| `SyncService.HostStillWaits` | libadb/sync_service.c:144-183 | at any point before the end the host neither takes the file for complete nor sees a malformed message |
| `SyncService.Session.Write` | libadb/adb_socket.c:146-164 | a packet goes out exactly when it fits the payload size and the transport takes it |
| `SyncService.Session.LoadMoreData` | libadb/sync_service.c:129-165 | the next block is announced, or DONE, exactly when the reader does not fail, a message fits a packet and it is taken |
| `SyncService.Session.SendMoreData` | libadb/sync_service.c:144-183 | every call that succeeds sends one packet that continues the framed stream, and the work left shrinks |
| `SyncService.Session.Recv` | libadb/sync_service.c:248-265 | the first packet of a transfer |
| `SyncService.Session.Okay` | libadb/sync_service.c:185-197 | an acknowledgement triggers the next packet while data is sent, and nothing after |
| `SyncService.Session.Transfer` | libadb/sync_service.c:129-265 | for every stream, every way the reader cuts it, every pattern of refused packets and every payload size: the host ends up with exactly the stream, after one DONE, or with a file it knows to be incomplete; every packet on the wire was taken, and a failure to send means the next one was refused; smaller sizes than 8 fail at the first packet |
| `AdbPull.PullRam` | libadb/sync_service.c:129-265 | "ram" from its arguments to the host: the host gets a complete file exactly when the range can be opened with fewer than 256 chunks, a message fits a packet and no packet up to the last one is refused; for a faithful range that file writes, as a sparse image, the conventional memory of the range |
| `AdbPull.PullCore` | libadb/sync_service.c:129-265 | "vmcore" from its arguments to the host, complete exactly under the like conditions: the file is the core file with the memory of each segment where it is announced, and the segments are the conventional memory of the range |
| `AdbSockets.FreeContext` | libadb/sync_service.c:85-107 | by counting owners, a free socket slot means a free sync context |
| `AdbSockets.LeakedForGood` | libadb/reader.c:86-143 | a leaked lock stays leaked whatever packets follow, nobody sends, and every later open is refused as already started |
| `AdbSockets.Adb.ReaderOpen` | libadb/reader.c:86-143 | more than two arguments are refused first, then a reader in use; opening takes the lock, and keeps it when GetMemoryMap fails |
| `AdbSockets.Adb.ReaderClose` | libadb/reader.c:164-170 | closing gives the lock back |
| `AdbSockets.Adb.SyncOpen` | libadb/sync_service.c:85-107 | a free context is taken; without one, all are busy |
| `AdbSockets.Adb.AsockOpen` | libadb/adb_socket.c:52-107 | the same, and the status: after a failure it is that of the CLSE packet, so that a socket that was not opened reads as success when CLSE could be sent |
| `AdbSockets.Adb.AsockClose` | libadb/adb_socket.c:109-127 | a closed sync socket gives back its context and the reader it held |
| `AdbSockets.Adb.AsockCloseAll` | libadb/adb_socket.c:203-210 | all contexts are free again and every opened reader was closed, whichever other services fail to close |
| `AdbSockets.Adb.AsockFind` | libadb/adb_socket.c:188-201 | a socket is found exactly when one with both numbers is open, in the slot of its local number |
| `AdbSockets.Adb.SyncRecv` | libadb/sync_service.c:248-265 | a context sends exactly when its reader could be opened and more than DONE remains, and waits for another name when it could not be opened |
| `AdbSockets.Adb.SyncSend` | libadb/sync_service.c:129-183 | the reader goes back when DONE is sent |
| `AdbSockets.Adb.SyncStat` | libadb/sync_service.c:215-246 | the reader is opened and closed again, so no lock changes |
| `AdbSockets.Adb.SyncRead` | libadb/sync_service.c:267-317 | a message moves its own context as the protocol says and no other |
| `AdbSockets.Adb.OnWrite` | libadb/adb_socket.c:137-144 | a WRTE reaches the context of the socket it names, and nothing when no such sync socket is open; it leaks a lock exactly under the condition on the state before |
| `AdbSockets.Adb.OnOkay` | libadb/sync_service.c:185-197 | an OKAY moves a sending context only, which gives its reader back after DONE |
| `AdbSockets.Adb.OnClose` | libadb/adb_socket.c:109-127 | a CLSE closes the socket it names and no other |
| `AdbSockets.Adb.Run` | libadb/adb_socket.c:52-210 | whatever the host sends in whatever order, each slot is free or holds its own number, busy contexts and open sync sockets correspond one to one, opens and closes balance, a memory reader is in use exactly when one context holds it or its lock leaked, and it leaked if and only if some packet of the run leaked it |
| `AdbSockets.LeakStep` | libadb/sync_service.c:199-213 | one packet leaks a lock exactly when it gives a name of a locked reader not in use to an open sync socket whose context takes it, and GetMemoryMap fails |
| `AdbSockets.LeakExact` | libadb/reader.c:86-143 | over any run of packets a lock is leaked if and only if some packet met that condition in the state before it |
| `AdbSockets.LeakExample` | libadb/reader.c:86-143 | a run of two packets from the start that leaks the lock of "ram" for good |
| `AdbSockets.Adb.Handle` | libadb/adb_socket.c:52-210 | one packet moves tables and locks as the specification says and leaks exactly under the condition on the state before |
| `AdbSockets.FromStart` | libadb/adb_socket.c:52-210 | the same from the empty tables: a memory reader is in use exactly when one context sends from it or some packet leaked it, and never both |
| `AdbSockets.Adb.OpenSocket` | libadb/adb_socket.c:52-101 | a free slot gets its own number and the remote's, no other slot changes, a failure leaves no trace, and resources run out exactly when all slots are open |
| `TcpRx.Tcp.RequestData` | libefitcp/tcp.c:85-108 | a free token is posted for a fragment and the bytes asked for grow by it; a refused Receive loses these bytes and ends the read, and is reported only when the Close that follows fails too |
| `TcpRx.Tcp.Read` | libefitcp/tcp.c:515-538 | every token is posted while bytes are left to ask for; refused exactly during another read; the read goes on exactly when no Receive was refused; a read of zero bytes posts none and so is never answered |
| `TcpRx.Tcp.Recycle` | libefitcp/tcp.c:166-170 | the bytes received and asked for never exceed the size, and all sixteen tokens are posted while some bytes are not asked for and none are lost |
| `TcpRx.Tcp.DataReceived` | libefitcp/tcp.c:128-176 | the bytes land behind those received before, the accounting holds again, and the callback fires exactly when the buffer is full, with no token left posted |
| `TcpRx.Tcp.ReadAll` | libefitcp/tcp.c:128-176 | however the completions cut or break the stream, the buffer gets the next bytes of it and nothing else is written; the callback fires once, exactly when all bytes came, which is exactly when none were lost |
| `TcpRx.Tcp.Dropped` | libefitcp/tcp.c:134-158 | the end of the connection or an error ends the read; what its token asked for is never asked for again |
| `FastbootTcp.LengthRoundTrip` | libfastboot/fastboot_transport.c:132 | be64toh of a big-endian length is the length |
| `FastbootTcp.Link.TransportRead` | libfastboot/fastboot_transport.c:230-249 | a read starts by waiting for a length, exactly when the transport is ready |
| `FastbootTcp.Link.SizeArrived` | libfastboot/fastboot_transport.c:126-140 | the length decides how much is read: no more than wanted |
| `FastbootTcp.Link.DataArrived` | libfastboot/fastboot_transport.c:142-162 | too much is an error, less goes on reading behind it, and the exact amount hands the bytes up |
| `FastbootTcp.Link.StartDownload` | libfastboot/fastboot.c:1175-1186 | the download waits for its first message |
| `FastbootTcp.Link.ProcessRx` | libfastboot/fastboot.c:1242-1252 | OKAY exactly when all wanted bytes have arrived, else the next read goes behind those received |
| `FastbootTcp.Link.Receive` | libfastboot/fastboot_transport.c:108-162 | one message through both layers, in any fragments: its bytes, as far as wanted, go behind those received; an empty one leaves a TCP read that nothing can complete; when the connection breaks a first part of it is in place |
| `FastbootTcp.Link.Run` | libfastboot/fastboot.c:1135-1252 | for every list of messages and every way the connection carries them: the buffer ends up as the first bytes of their concatenation with exactly one OKAY at the byte wanted last; it hangs exactly when an empty message comes before that; the stream is left at a message boundary exactly when the last message was not too long; a connection that breaks leaves a prefix and no OKAY |
| `FastbootTcp.EmptyMessageExample` | libfastboot/fastboot_transport.c:126-140 | a download of one byte that begins with an empty message waits for ever |
| `FastbootTcp.Link.Feed` | libfastboot/fastboot_transport.c:108-162 | one more message of a download: in place behind the others, or the end of it in one of the four ways |
| `CommandLine.Strtok` | libkernelflinger/lib.c:1255-1289 | one word is cut off in place: the buffer then holds the word and, behind the delimiters that were overwritten, the rest; nothing before it changes; there is none exactly at the end of the string |
| `CommandLine.StringToArgv` | libkernelflinger/lib.c:1704-1727 | accepted exactly when the line is not empty and has at most 16 words; the pointers lead to the words; accepted or not, the buffer is left with the first word alone |
| `CommandLine.ArgvRoundTrip` | libkernelflinger/lib.c:1704-1727 | a name, a colon and words joined by blanks come back as the argument list |
| `CommandLine.CutAgain` | libkernelflinger/lib.c:1704-1727 | a line that was cut is a line of one word, accepted exactly when the word is not empty |
| `CommandLine.NoName` | libkernelflinger/lib.c:1255-1289 | a line of delimiters alone is accepted, as one empty word |
| `FastbootSteps.TurnIs` | libfastboot/fastboot.c:1213-1235 | one turn with a command that splits: its handler says nothing and the command stays, or its answer is given and the first message goes out |
| `FastbootSteps.StepExact` | libfastboot/fastboot.c:661-1273 | every event keeps the invariant of all runs (one thing awaited, messages written and queued are the answers in order), takes nothing back, and spoils a command exactly when it meets one of the guards that lose a message |
| `FastbootSteps.Fates` | libfastboot/fastboot.c:661-1273 | in every reachable state a command is answered in full, spoiled, still open or hanging, and never two of these |
| `FastbootSteps.CommandExact` | libfastboot/fastboot.c:661-1273 | for every run from the start and every command in it: the host has the whole answer (INFO lines and one OKAY or FAIL, or DATA and one) if and only if no event of the run met a guard that loses a message of it and it is not the last command, still open or hanging |
| `FastbootSteps.Awaited` | libfastboot/fastboot.c:661-1273 | in every run what was written is a prefix of the answers, and a command is awaited only when all of them were written |
| `FastbootSteps.HungForGood` | libfastboot/fastboot.c:1213-1262 | a command without a name to run: no event whatever changes anything any more |
| `FastbootSteps.HangExact` | libfastboot/fastboot.c:1213-1262 | a command that was read hangs, over any number of turns, if and only if its line is empty, or its first word is empty and the first turn does not answer it |
| `FastbootSteps.LongLine` | libfastboot/fastboot.c:1213-1235 | a line with more than 16 words is not refused: the next turn runs its first word without arguments |
| `FastbootSteps.DueExact` | libfastboot/fastboot.c:661-1273 | after any run in which fastboot_stop is not called from outside a handler, some event can still happen if and only if no event of it met one of the guards after which nothing can, an empty command among them |
| `FastbootQueue.Fastboot.Ack` | libfastboot/fastboot.c:661-675 | a message is written and the next state entered, STATE_ERROR when the transport refuses it; nothing happens when it cannot be built |
| `FastbootQueue.Fastboot.AckBuffered` | libfastboot/fastboot.c:677-705 | a message is queued behind the others, or dropped without memory for it |
| `FastbootQueue.Fastboot.Flush` | libfastboot/fastboot.c:759-780 | one message leaves, order is kept, and with the last one the next state is entered; STATE_ERROR when the transport refuses it |
| `FastbootQueue.Fastboot.StopCalled` | libfastboot/fastboot.c:1548-1577 | stops at once when idle, else after the answer |
| `FastbootQueue.Fastboot.Handle` | libfastboot/fastboot.c:1104-1128 | the handler of an argument list: its INFO lines are queued as far as there is memory, then its last message goes behind them or out at once |
| `FastbootQueue.Fastboot.RunCommand` | libfastboot/fastboot.c:1213-1235 | only a command that was read runs, with the words its buffer is cut into; one that does not split stays, cut to its first word |
| `FastbootQueue.Fastboot.TxDone` | libfastboot/fastboot.c:1188-1208 | the event of a sent message: next message, next command, download, or stop, with what becomes of a refused call |
| `FastbootQueue.Fastboot.CommandRead` | libfastboot/fastboot.c:1253-1262 | a command that arrives is terminated in its buffer and is to be run; one that fills the buffer is answered with FAIL and not run |
| `FastbootQueue.Fastboot.DataRead` | libfastboot/fastboot.c:1249-1251 | the end of a download completes its answer |
| `FastbootQueue.Fastboot.Start` | libfastboot/fastboot.c:1269-1273 | the first command is read |
| `FastbootQueue.Fastboot.Drain` | libfastboot/fastboot.c:1188-1208 | once all messages are sent, exactly one command read is posted, or fastboot has stopped if it was asked to |
| `FastbootQueue.Fastboot.Serve` | libfastboot/fastboot.c:1188-1262 | a command from its arrival: it hangs exactly when it has nothing to run; else exactly its answer goes over the wire, in order, and only then comes the next command, the data or the stop |
| `FastbootQueue.Fastboot.Run` | libfastboot/fastboot.c:661-1273 | the machine makes every run that the events describe, and takes nothing back that was written |
| `FastbootQueue.Fastboot.StartData` | libfastboot/fastboot.c:1175-1186 | the download data is awaited, or the answer ends with FAIL |
| `FastbootQueue.CutExample` | libfastboot/fastboot.c:677-705 | a command from a new start whose OKAY is lost while the next command is read |
| `FastbootQueue.FromStart` | libfastboot/fastboot.c:661-1273 | from a new start, for every list of events: what becomes of every command, as `FastbootSteps.CommandExact` says |
| `FastbootQueue.EmptyExample` | libfastboot/fastboot.c:1213-1227 | an empty command: STATE_COMMAND for ever, whatever follows |
| `FastbootQueue.NamelessExample` | libfastboot/fastboot.c:1213-1227 | a colon and 16 words: the same after one turn |
| `FastbootDownload.CarryOut` | libfastboot/fastboot.c:1135-1262 | a download from its command to the next one over fastboot, the message layer and TCP: DATA, the bytes in order, and exactly when the last one is there one OKAY and one command read; whatever stops the messages before that leaves DATA alone |
| `FastbootDownload.Begin` | libfastboot/fastboot.c:1135-1186 | the command is answered with DATA and the data awaited |
| `FastbootDownload.End` | libfastboot/fastboot.c:1242-1252 | the last bytes are answered with OKAY and the next command is read |
| `ElfImage.SegmentsInside` | libelfloader/elf64_ld.c:199-231 | the image size holds every loadable segment when none wraps |
| `ElfImage.PlacedSegment` | libelfloader/elf64_ld.c:235-273 | disjoint segments all show in the image, file bytes then zeros, at their shifted addresses |
| `ElfImage.PlacedElsewhere` | libelfloader/elf64_ld.c:235-273 | nothing outside the segments is written |
| `ElfImage.BssExact` | libkernelflinger/lib.c:1391-1415 | the rest of a segment is zero exactly when memset_s takes it, up to 256 MiB; else it is as before |
| `ElfImage.PatchedTwice` | libelfloader/elf64_ld.c:105-149 | images patched for two addresses differ in the slots alone, and there by the distance of the addresses |
| `Elf64.Loader.ImageCopy` | libelfloader/elf_ld.c:24-54 | refused exactly for bytes outside the file or a destination outside the image; else the bytes are copied |
| `Elf64.Loader.LoadSegment` | libelfloader/elf64_ld.c:247-272 | a segment inside the image is placed, or refused exactly when its bytes are not in the file |
| `Elf64.Loader.Bounds` | libelfloader/elf64_ld.c:199-218 | the lowest and highest address of the loadable segments |
| `Elf64.Loader.CopySegments` | libelfloader/elf64_ld.c:235-273 | all segments are placed, in order, and the header and dynamic segments found |
| `Elf64.Loader.CheckHeaders` | libelfloader/elf64_ld.c:179-231 | exactly the files and memory sizes accepted before anything is written |
| `Elf64.Loader.MoveRow` | libelfloader/elf64_ld.c:141-148 | the two addresses of a program header move |
| `Elf64.Loader.UpdateSegmentTable` | libelfloader/elf64_ld.c:133-149 | the table is moved in place: the slots of its non-empty segments hold their value plus the load address |
| `Elf64.Loader.ReadDynamic` | libelfloader/elf64_ld.c:66-88 | the last entry of each tag counts |
| `Elf64.Loader.Relocate` | libelfloader/elf64_ld.c:106-128 | one relocation fills its slot with addend, symbol and load address; refused exactly for an unsupported type |
| `Elf64.Loader.RelocateAll` | libelfloader/elf64_ld.c:105-129 | all slots are filled, exactly when every type is supported |
| `Elf64.Loader.UpdateRela` | libelfloader/elf64_ld.c:50-131 | missing tables are accepted for ET_DYN and refused else |
| `Elf64.Loader.MoveImage` | libelfloader/elf64_ld.c:275-298 | both updates together, on an image whose slots are apart and that has none in the tables it reads |
| `Elf64.Loader.LoadExecutable` | libelfloader/elf64_ld.c:161-301 | for such images and segments that do not wrap, loading never leaves the memory it was given, succeeds exactly when a condition without the load address holds, and gives the placed segments with every slot filled |
| `Elf64.LoadTwice` | libelfloader/elf64_ld.c:161-301 | one file loaded at two addresses: both loads fare alike, the images differ exactly in the relocation targets and program header addresses, each by the distance of the addresses modulo 2^64, and so do the entry points |
| `Elf64.BssExample` | libelfloader/elf64_ld.c:161-301 | a file of 120 bytes with a zero fill above 256 MiB is loaded, and memory there keeps what it held |
| `BootOrder.BootManager.FindFree` | libfastboot/bootmgr.c:47-77 | the lowest free number, unless all 65536 are used |
| `BootOrder.BootManager.FindEntry` | libfastboot/bootmgr.c:79-152 | the first option with the description |
| `BootOrder.BootManager.IsInSet` | libfastboot/bootmgr.c:303-312 | membership |
| `BootOrder.Counts` | libfastboot/bootmgr.c:335-343 | for distinct entries the computed size is that of the merge if and only if no registered entry stands twice in the old order, and it is never too small |
| `BootOrder.BootManager.Fill` | libfastboot/bootmgr.c:351-359 | the merge fits what was allocated when no more entries stand in the old order than places of it they take |
| `BootOrder.BootManager.Install` | libfastboot/bootmgr.c:314-372 | for any entries: the new order is the entries followed by the other old ones if and only if as many entries stand in the old order as places of it they take; with fewer, places at the end are left as allocated; with more, the copy is refused or does not fit, each exactly when stated |
| `BootOrder.TwiceExample` | libfastboot/bootmgr.c:334-343 | an order for which one place is left as allocated |
| `BootOrder.EntriesDistinct` | libfastboot/bootmgr.c:390-410 | two descriptions share an entry exactly when they are the same |
| `BootOrder.BootManager.WriteOptions` | libfastboot/bootmgr.c:390-410 | every description ends up with its option under its entry; known ones change nothing; it fails only when all numbers are used or a call to the firmware fails |
| `BootOrder.BootManager.Register` | libfastboot/bootmgr.c:374-419 | whatever the descriptions, their entries lead the boot order or the order is as before, with each outcome exactly when stated; distinct descriptions get distinct entries and always fit |
| `BootOrder.BootManager.RegisterAgain` | libfastboot/bootmgr.c:374-419 | registering the same again changes nothing |
| `BootOrder.SharedExample` | libfastboot/bootmgr.c:374-419 | one description given twice: the merge does not fit what is allocated |
| `Watchdog.StreakShape` | kernelflinger.c:360-442 | the boots counted are crashes within 600 seconds after the first of them, and no more than the maximum |
| `Watchdog.MenuExact` | kernelflinger.c:360-442 | the menu appears at a boot exactly when it is the last of M + 1 crashes within 600 seconds after the first of them and the count starts anew at that first one |
| `Watchdog.MenuComes` | kernelflinger.c:360-442 | 2 M + 1 crashes in a row within 600 seconds bring the menu |
| `Watchdog.Nvram.CheckWatchdog` | kernelflinger.c:365-442 | one boot keeps the two variables the summary of all boots counted before; with the menu switched off, or when variables or clock cannot be read, nothing can be written or the reason is a shutdown, nothing changes |
| `Watchdog.Nvram.Boots` | kernelflinger.c:338-442 | for every sequence of boots and whatever they meet, the menu appears at a counted boot exactly as stated for M < 255, never else for lack of crashes, and never for M = 255, where the 8-bit counter wraps |
| `Watchdog.PastAll` | kernelflinger.c:365-442 | when nothing goes wrong every boot is counted |
| `Watchdog.WrapExample` | kernelflinger.c:419-427 | 256 crashes at one moment complete a streak for M = 255 and bring no menu |
| `TpmDigests.GetHashSizeFromAlgo` | libedk2_tpm/Tpm2Help.c:42-55 | the five known algorithms have a size, all others none |
| `TpmDigests.SwappedStore` | libedk2_tpm/Tpm2Help.c:70-105 | a swapped word stored little-endian is big-endian, and swapping twice undoes it |
| `TpmDigests.Cursor.WriteDigests` | libedk2_tpm/Tpm2Integrity.c:138-157 | the wire form of the list is written, exactly when every algorithm is known |
| `TpmDigests.Cursor.ReadDigests` | libedk2_tpm/Tpm2Integrity.c:288-311 | what is read is what stands on the wire; refused exactly for more than five digests or where no known algorithm stands |
| `TpmDigests.BodySame` | libedk2_tpm/Tpm2Integrity.c:297-311 | no bytes begin with two different digest lists of a length |
| `TpmDigests.Echo` | libedk2_tpm/Tpm2Integrity.c:138-311 | reading what was written gives the same count, algorithms and digests, for every list the writer accepts |

## Left out

- Installer.Splitter.SplitAndFlash: sparse files that are not well formed, and block sizes above the buffer, are excluded by its preconditions.
- Installer.Splitter.FlashBuffer: what fastboot's flash command does with a well-formed image is the meaning given in `SparseFormat.dfy`, not a model of the flash code, and what a failed one leaves on the disk is not modelled.
- RamReader.Ram.BuildChunks: that the stretches cover the range is stated for regions that do not overlap; for overlapping ones the table is still the one the map determines.
- RamImage.DumpRam: the memory map is page aligned and its regions do not overlap, as UEFI has it, and requests hold the 28 bytes of the image header.
- VmcoreReader.DumpCore: with a conventional region after END it promises nothing; what the segments then dump is `VmcoreReader.DumpExact`. Regions of zero pages, which UEFI does not have, are excluded.
- AdbPull.PullCore: the same two exclusions.
- AdbSockets.Adb.AsockOpen: services other than sync are one kind of service with an outcome of its own, without a state.
- TcpRx.Tcp.Read: a new read while tokens of a broken one are still posted is excluded; the status of the Close that follows a broken completion is not kept.
- FastbootTcp.Link.StartDownload: the TCP read it starts is part of `FastbootTcp.Link.Receive`; a transport that refuses it is in `FastbootQueue.Fastboot.StartData`.
- FastbootTcp.Link.Run: it starts after DATA was answered; the parsing of the size in `cmd_download` is not modelled.
- FastbootQueue.Fastboot.Handle: handlers answer with one OKAY or FAIL; `cmd_set_active`, which can answer twice, is not covered, nor is which handler an argument list selects.
- Elf64.Loader.LoadExecutable: images whose relocation targets overlap each other or the tables the loader reads get no statement about their contents; an access outside the memory given to the loader ends the model with `Wild`, and the file is taken to lie apart from that memory.
- Elf64.LoadTwice: the check of the ELF identification in `relocate_elf_image` is not modelled.
- BootOrder.BootManager.Install: failures to read or write BootOrder itself, which change nothing, are not modelled.
- BootOrder.BootManager.FindEntry: variable names with letters that are not hexadecimal digits, and options too short for the description, are not modelled; numbers are unique, as the firmware keeps them.
- Watchdog.Nvram.CheckWatchdog: at one boot the variables can all be written or none; a boot that can write only one of the two is not modelled.
- The splitter for two files at once (`installer_split_and_joint_flash`).
- The 32-bit ELF loader, which has the shape of the 64-bit one.
- The other readers (partitions, ACPI tables, EFI variables, GPT, MBR, BERT) and the PAE mapping of 32-bit builds.
- The ADB packet layer, the USB transports, the shell service and the reboot service.
- Verified boot, slots, GPT, the user interface and the remaining TPM commands.
