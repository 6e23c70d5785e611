# A verified model of the kernel's protocols, allocators and conversions

The repository is a bare-metal Raspberry Pi 3 kernel with a Wi-Fi driver derived from Plan 9's
`ether4330`. This project models the logic that sits above the hardware registers and proves
what it keeps. One module stands for one component:

- `SdpcmProtocol`: the host side of the SDPCM protocol as a state machine. Credit window modulo
  256, flow stop and restart, the output queue, and one outstanding command with its response.
  A whole frame transmission is one step; a drain is a sequence of steps that other tasks can
  interleave with. `Controller` is the imperative form and is proved equal to the machine.
- `SdpcmFrame`: building a frame in a block's headroom, sending it, reading it back.
- `SdioCard`: CMD52 and CMD53 as the card decodes them, the 32 KB backplane window, and the
  driver's access functions on top, proved to be flat memory.
- `Condense` and `Firmware`: the configuration compactor, and the upload of firmware,
  configuration and footer with its compare pass.
- `KernelHeap`: bucketed heap with intrusive free lists. `FrameAllocator`: the page-frame bitmap.
- `Scheduler`: round robin over a table with holes, sleeping tasks and the wrap-around clock. The
  next task is the first ready or due one above the current slot, else the init task, always ready.
- `Numerals`, `NumberText`, `CString`: digit printers, the layout of `%d` and `%s` fields,
  `strtoul`, and string replacement over a growing buffer.
- `BitField`, `FatWalk`, `LinkedQueues`, `Mailbox`: bit-field extraction, the cached FAT chain walk,
  the linked queues, and the mailbox tag builder and walker.

State that the source updates in place is a class whose methods are proved against functions on
values; loops stay loops. Widths, wrap-around and truncation are written out where they matter.

## Where the code falls short of its purpose

Each of these is stated with the exact condition under which the code is right.

- `wlcmd` takes a sequence number without looking at the window. A command issued at a closed
  window while frames wait steps past it, and the frames then wait until the next submit, a changed
  flow mask or a window that happens to meet the sequence byte.
- `reqid` is a signed 16-bit field compared with an unsigned value: command 32768 never finishes.
- A heap request above 2^32 - 16 bytes wraps and succeeds with 16 bytes; a double free turns a
  free list into a loop.
- The frame allocator scans up to word `total_frames` instead of word `total_frames / 32`, clears a
  quarter of its bitmap, skips a full word without ending a run, and never takes back the frame
  just above the reserved ones. `FindRun`, `AllocFrame` and `Init` are the code as written, with the
  conditions on bitmap and memory under which they are right; `FindWhole` and `Serve` are the
  evident intent, for which the count is right over every run.
- `nr_tasks` grows when a hole is reused and shrinks only at the top, so it drifts upwards without
  bound; above 64 the scan leaves the table unless a task behind the current one is runnable.
- `condense` documents two closing nulls and writes one too few for an input that ends inside a
  comment behind text.
- `strtoul` reports overflow only when a digit lowers the 32-bit result: 5000000000 reads as 705032704.
  Where it does report it, the end pointer stays at the digit that showed it. In bases above ten
  it takes the punctuation between '9' and 'A' for digits: a colon reads as ten in base 16.
- The FAT cache marks "nothing cached" with sector 0, so the first table sector used must not be 0.
- `RPI_PropertyGet` steps from the closing null tag by a word that no request wrote: an absent tag
  may be looked for without end, or be found among value words.

## Model

| member | source | states |
|---|---|---|
| `SdpcmProtocol.NoLostRestart` | src/plan9_ether4330.c:1395-1442 | Over every interleaving of submits, drain iterations, received packets and commands: no state of the run has a frame queued with nothing left to send it (window closed, flow stopped, restart pending or a drain under way) if and only if every command was issued with credit left or in a state where nothing could be lost |
| `SdpcmProtocol.StepStalls` | src/plan9_ether4330.c:1633-1654 | One step creates a stall if and only if it is a command issued at a closed window while frames wait for it and nothing else is going to restart them |
| `SdpcmProtocol.CreditedCommandsNeverStall` | src/plan9_ether4330.c:1811-1837 | Commands issued only with credit left never lose a restart, in any run |
| `SdpcmProtocol.StallEnds` | src/plan9_ether4330.c:1811-1837 | One event ends a stall if and only if it is a submit, a packet with another flow mask or with a window that meets the sequence byte, or a command that steps the sequence byte up to the window |
| `SdpcmProtocol.StallPersists` | src/plan9_ether4330.c:1811-1829 | Over every run a stall lasts if and only if no such event occurs, and until one does the queue is unchanged and none of its frames is sent |
| `SdpcmProtocol.StopBit` | src/plan9_ether4330.c:1398-1406 | The flow-stop test is bit 2 of the mask, by bitwise and |
| `SdpcmProtocol.WindowIsTheFirmwares` | src/plan9_ether4330.c:1811-1829 | Over every run window and flow mask are those of the last packet received, or the starting ones |
| `SdpcmProtocol.AdmittedByPacket` | src/plan9_ether4330.c:1395-1438 | After a packet with window w at sequence byte q, until the next one, at most (w - q) mod 256 frames go out if commands wait for credit, and no frame of the queue while the packet's mask has bit 2 |
| `SdpcmProtocol.ReceiveExact` | src/plan9_ether4330.c:1806-1850 | A packet asks for a restart if and only if it reopens a closed window or changes the mask to one that does not stop, is kept as a response if and only if it is one to the outstanding id, and sends nothing itself |
| `SdpcmProtocol.LostRestartWitness` | src/plan9_ether4330.c:1629-1655 | Four steps from start-up lose a restart, because a command never looks at the window |
| `SdpcmProtocol.StepKeepsOrder` | src/plan9_ether4330.c:1395-1442 | Every step keeps: frames sent, then frames queued, are the frames submitted, in order; the i-th frame on the wire carries i modulo 256 |
| `SdpcmProtocol.FifoOnTheWire` | src/etherif.c:79-126 | That order and numbering for every run from start-up: nothing lost, duplicated or reordered between queue and wire |
| `SdpcmProtocol.CreditIsConserved` | src/plan9_ether4330.c:1395-1438 | Between window updates each frame sent, data or command, costs exactly one credit, so no more frames leave than the firmware admitted |
| `SdpcmProtocol.DrainRunsToEnd` | src/plan9_ether4330.c:1395-1442 | The drain loop iterated to its end sends exactly the first min(queue, credit) frames, consecutively numbered, and none when flow is stopped |
| `SdpcmProtocol.ResponsesMatch` | src/plan9_ether4330.c:1618-1678 | Over every run with a firmware that answers each id at most once: at most one command is outstanding, the i-th finished command consumed the response with its own id i, and command 32768, whose signed id is negative, never finishes |
| `SdpcmProtocol.ResponsesMatchFromStart` | src/plan9_ether4330.c:1840-1850 | The same for every run from start-up |
| `SdpcmProtocol.ReceiveKeepsMatch` | src/plan9_ether4330.c:1840-1850 | A response with any other id is dropped, so the pending response always belongs to the outstanding command |
| `SdpcmProtocol.OwnResponseAccepted` | src/plan9_ether4330.c:217-217 | A faithful answer is recognised if and only if the signed request id is not negative |
| `SdpcmProtocol.DuplicateAnswerWitness` | src/plan9_ether4330.c:1601-1680 | Without the answers-once hypothesis a second answer to command 1 is consumed by command 2 |
| `SdpcmProtocol.Controller.constructor` | src/plan9_ether4330.c:217-220 | A new controller is the initial state of the machine: window closed, nothing queued |
| `SdpcmProtocol.Controller.Submit` | src/etherif.c:109-126 | Queueing a frame is the machine's submit step |
| `SdpcmProtocol.Controller.TxStart` | src/plan9_ether4330.c:1381-1445 | The transmit loop equals the whole drain: the admitted part of the queue leaves in order, and the loop ends with the queue empty, the window closed or flow stopped |
| `SdpcmProtocol.Controller.Receive` | src/plan9_ether4330.c:1806-1850 | Window, flow mask, restart decision and response matching of one packet are the machine's receive step |
| `SdpcmProtocol.Controller.Restart` | src/plan9_ether4330.c:1830-1837 | A restart clears its flag, drains, and leaves nothing stalled |
| `SdpcmProtocol.Controller.IssueCommand` | src/plan9_ether4330.c:1618-1655 | Issuing a command steps id and sequence byte and puts the id on the wire, without a look at the window |
| `SdpcmProtocol.Controller.FinishCommand` | src/plan9_ether4330.c:1656-1678 | Finishing consumes the stored response and frees the command slot |
| `SdioCard.ExtendedRoundTrip` | src/plan9_ether4330.c:572-610 | For all fields the card decodes a CMD53 argument to the host's values, address and count modulo their widths, so a byte count of 512 travels as 0 |
| `SdioCard.ExtendedIsOr` | src/plan9_ether4330.c:600-601 | The CMD53 argument is the bitwise or of its masked and shifted fields |
| `SdioCard.MovesExact` | src/plan9_ether4330.c:575-589 | In block mode a command moves blocks of 64 bytes for function 1 and of 512 for function 2, in byte mode its count, with 0 for 512 |
| `SdioCard.DirectRoundTrip` | src/plan9_ether4330.c:545-570 | The same for CMD52 |
| `SdioCard.DirectIsOr` | src/plan9_ether4330.c:545-564 | The CMD52 argument is the bitwise or of its masked and shifted fields |
| `SdioCard.MovedInTwo` | src/plan9_ether4330.c:580-609 | A byte-by-byte transfer can be cut anywhere: two consecutive pieces equal the whole |
| `SdioCard.MovedIsStored` | src/plan9_ether4330.c:774-790 | A function-1 write changes exactly bytes [off, off+len) of memory to the buffer's |
| `SdioCard.MovedIsLoaded` | src/plan9_ether4330.c:774-790 | A function-1 read leaves exactly that slice of memory in the buffer and changes nothing else |
| `SdioCard.MovedIsSent` | src/plan9_ether4330.c:1318-1339 | A function-2 write appends exactly the bytes of the buffer to what the chip has received |
| `SdioCard.MovedIsFetched` | src/plan9_ether4330.c:1318-1339 | A function-2 read takes exactly the next bytes from the chip into the buffer |
| `SdioCard.ToWindowEndExact` | src/plan9_ether4330.c:778-780 | The 32-bit rounding that finds the end of the window may wrap around and still gives the right distance, for every address |
| `SdioCard.BaseOfBytes` | src/plan9_ether4330.c:725-730 | The three window registers together select the 32 KB window of every 32-bit address |
| `SdioCard.Card.Command53` | src/plan9_ether4330.c:572-610 | What a CMD53 moves is decided by its decoded argument alone |
| `SdioCard.Card.NextPiece` | src/plan9_ether4330.c:577-589 | Each piece is between one byte and 511 blocks, never more than what is left, and its count fits the argument |
| `SdioCard.Card.Send53` | src/plan9_ether4330.c:596-602 | The argument built for a piece decodes to exactly the bytes the host expects to move |
| `SdioCard.Card.RwExtended` | src/plan9_ether4330.c:572-610 | However a request is cut into block and byte commands, the whole request moves, as one flat transfer |
| `SdioCard.Card.Command52` | src/plan9_ether4330.c:545-570 | A CMD52 moves one byte of memory through the window or one window register; memory, registers, window and result are given in every case |
| `SdioCard.Card.SetWindow` | src/plan9_ether4330.c:725-730 | After its three register writes the window is the one that holds the address; memory is unchanged |
| `SdioCard.Card.WindowRw` | src/plan9_ether4330.c:732-772 | Whole words by CMD53 and the tail by CMD52 make up one flat transfer inside the window |
| `SdioCard.Card.FirstPiece` | src/plan9_ether4330.c:778-780 | The first piece ends exactly at the window's end |
| `SdioCard.Card.Memory` | src/plan9_ether4330.c:774-790 | Windowed access refines flat memory: for every buffer, length and offset the result is one flat transfer, no piece crossing a window |
| `SdioCard.Card.PacketRw` | src/plan9_ether4330.c:1318-1339 | A packet moves through function 2 in one piece of the stream, rounded up to whole words |
| `SdpcmFrame.Get2Put2` | src/plan9_ether4330.c:477-497 | Reading back a stored 16-bit value gives it modulo 65536 |
| `SdpcmFrame.ComplementCheck` | src/plan9_ether4330.c:1413-1420 | The check field of a frame is the complement of its length in 16 bits, for every length |
| `SdpcmFrame.EncodedFields` | src/plan9_ether4330.c:1413-1423 | Every byte of the frame built around any payload, at every alignment: length, complement, sequence byte, channel, data offset, zeros, BDC header, payload |
| `SdpcmFrame.DeliverEncoded` | src/plan9_ether4330.c:1865-1877 | The receiver's channel-2 decoding of such a frame is the payload, or nothing when it has no whole Ethernet header |
| `SdpcmFrame.DeliverAny` | src/plan9_ether4330.c:1865-1877 | A channel-2 packet with any padding and any BDC word count is delivered without header, padding, BDC header and those words, if an Ethernet header is left |
| `SdpcmFrame.DeliverOnly` | src/plan9_ether4330.c:1865-1877 | Nothing of another channel, and nothing too short, is delivered |
| `SdpcmFrame.ReadExact` | src/plan9_ether4330.c:1350-1373 | For any bytes on the card a packet is read if and only if its little-endian length is 12 to 2048 and its check field the complement, none if and only if the length is 0; the packet has that length and whole words are taken |
| `SdpcmFrame.ReadEncoded` | src/plan9_ether4330.c:1350-1371 | A frame of at most 2048 bytes passes the length checks and is read whole, leaving what follows it |
| `SdpcmFrame.RoundTrip` | src/plan9_ether4330.c:1341-1378 | For every payload, alignment and sequence byte the packet arrives unchanged if and only if it has at least 14 bytes and its frame at most 2048 |
| `SdpcmFrame.TooLong` | src/plan9_ether4330.c:1359-1368 | A longer frame is refused or, its length having wrapped, delivered shorter than sent |
| `SdpcmFrame.StreamRoundTrip` | src/plan9_ether4330.c:1796-1885 | Any number of frames back to back arrive as their packets, in order, and then nothing more |
| `SdpcmFrame.Block.constructor` | src/etherif.c:10-36 | A new block is empty with 64 bytes of headroom |
| `SdpcmFrame.Block.Pad` | src/etherif.c:62-73 | The packet grows downwards by the size asked, or not at all if the headroom is too small |
| `SdpcmFrame.Block.PutHeader` | src/plan9_ether4330.c:1413-1423 | Header and BDC header bytes are written in the headroom and nothing else changes |
| `SdpcmFrame.Block.Frame` | src/plan9_ether4330.c:1413-1423 | Framing turns the packet into its encoding in place, with the header on a word boundary and at most 19 bytes of headroom used |
| `SdpcmFrame.Transmit` | src/plan9_ether4330.c:1413-1438 | The bytes that leave for one packet are its frame and up to three bytes behind it |
| `SdpcmFrame.Receive` | src/plan9_ether4330.c:1341-1378 | Reading header and body from the card gives the reference reading of the byte stream and leaves the rest on the card |
| `Condense.CondenseExact` | src/plan9_ether4330.c:1090-1134 | The scan gives the documented result (each stripped, non-blank line and a null, then a null, padded to words) if and only if it is not the case that the last line holds text and a comment and the text length of the whole makes the missing null fall on a word boundary; the condition is on the text alone |
| `Condense.TerminatedIsExact` | src/plan9_ether4330.c:1090-1098 | It does for every input that ends with a newline or null |
| `Condense.CondenseWitness` | src/plan9_ether4330.c:1128-1132 | `abc#` without a line end loses its closing null |
| `Condense.CondenseExample` | src/plan9_ether4330.c:1107-1133 | A text with a carriage return, a comment and two lines, byte by byte |
| `Condense.ScanHolds` | src/plan9_ether4330.c:1107-1127 | At any point the output is the entries of the finished lines and the stripped part of the current one |
| `Condense.CondensedFits` | src/plan9_ether4330.c:1128-1134 | The result needs at most two bytes more than the input, rounded up to words |
| `Condense.CondenseTwice` | src/plan9_ether4330.c:1099-1134 | Condensing twice always gives the documented result, so condensing is idempotent exactly where it is right the first time |
| `Condense.CondenseInPlace` | src/plan9_ether4330.c:1099-1134 | The in-place loop computes the scan: writes never overtake reads |
| `Condense.Turn` | src/plan9_ether4330.c:1107-1127 | One turn reads a byte before anything is written over it and leaves the unread bytes alone |
| `Firmware.ReadFile` | src/plan9_ether4330.c:1164-1186 | The count is what the file still has from the offset, at most the size, and the buffer starts with exactly those bytes |
| `Firmware.ReadChunk` | src/plan9_ether4330.c:1216-1232 | A chunk is the next slice of the zero-padded file; it is empty exactly at its end |
| `Firmware.UploadBinary` | src/plan9_ether4330.c:1215-1240 | The upload leaves the zero-padded file at the base and changes nothing else, for files of any size |
| `Firmware.CompareBinary` | src/plan9_ether4330.c:1243-1271 | The compare pass succeeds if and only if the memory holds the padded file |
| `Firmware.UploadAndCompare` | src/plan9_ether4330.c:1215-1276 | After an upload the compare pass succeeds |
| `Firmware.UploadConfig` | src/plan9_ether4330.c:1216-1276 | For every configuration the condensed list ends four bytes below the top of RAM and nothing else changes |
| `Firmware.ConfigFits` | src/plan9_ether4330.c:1201-1224 | The list of a configuration read in 2048 bytes takes at most 2052, which the heap's block of the 0x1000 bucket holds |
| `Firmware.ConfigRead` | src/plan9_ether4330.c:1217-1225 | The whole configuration counts up to 2048 bytes, and nothing behind them |
| `Firmware.FooterHalves` | src/plan9_ether4330.c:1301-1304 | The footer's low half is the configuration's word count and its high half the complement |
| `Firmware.ImageInPlace` | src/plan9_ether4330.c:1278-1304 | When image and list do not overlap, after the four writes the image is at the base, the list below the last word, the footer in the last word, and every other byte is as before |
| `Firmware.FwLoad` | src/plan9_ether4330.c:1278-1304 | Loading performs exactly those four writes, through the windowed card, and both compare passes succeed |
| `KernelHeap.CarveHolds` | src/kernel_alloc.c:87-94 | The 32-bit rounding leaves room for header and request, or is zero, if and only if the request is at most 2^32 - 16 |
| `KernelHeap.InitOk` | src/kernel_alloc.c:43-69 | An arena of at least page and block reserve starts as a correct heap |
| `KernelHeap.AllocateOk` | src/kernel_alloc.c:71-107 | Allocation keeps the heap: blocks tile the carved region, each has exactly the extent carved for its size field, and each is live, on the finite free list of its own size, or retired |
| `KernelHeap.AllocateResult` | src/kernel_alloc.c:71-107 | A returned block, carved or recycled, is 16-aligned, was not live, is disjoint from every other live block, and holds the requested bytes behind its header exactly up to 2^32 - 16 of them; a failure only gives up the reserve |
| `KernelHeap.AllocateExact` | src/kernel_alloc.c:71-107 | A request is met from the front of the first bucket that holds it if its list is not empty, else at the next address if header and rounded size, in 32 bits, fit below the reserve, and else refused at the cost of the reserve; what moves in each case |
| `KernelHeap.FreshRequest` | src/kernel_alloc.c:43-94 | On a fresh heap a request is met, at the base, if and only if its block fits the arena below the reserves of 4 MB and 256 KB |
| `KernelHeap.SecondTry` | src/kernel_alloc.c:90-94 | A refused request asked again is met if and only if it fits the arena without the reserve |
| `KernelHeap.RoomExactly` | src/kernel_alloc.c:87-99 | Any block of a heap, live, free or retired, holds the payload its size field speaks of if and only if that is at most 2^32 - 16 bytes |
| `KernelHeap.HugeRequestWitness` | src/kernel_alloc.c:87-94 | A request for 2^32 - 1 bytes on a fresh heap succeeds with 16 bytes carved |
| `KernelHeap.DeallocateOk` | src/kernel_alloc.c:109-127 | A free keeps the heap if and only if the block is not on a free list already; null, foreign addresses, live and retired blocks are fine |
| `KernelHeap.DeallocateExact` | src/kernel_alloc.c:109-127 | A freed block of bucket size goes to the front of its list, any other is only given up; nothing else changes |
| `KernelHeap.FreeThenAllocate` | src/kernel_alloc.c:71-127 | A block just freed is the next one handed out for any request of its bucket, and the live blocks are as before |
| `KernelHeap.BlocksDisjoint` | src/kernel_alloc.c:86-106 | Any two blocks of a tiled heap are disjoint |
| `KernelHeap.OnOneList` | src/kernel_alloc.c:118-126 | A free block is on exactly one list, once, of its own size, and is not live |
| `KernelHeap.RunOk` | src/kernel_alloc.c:71-127 | All of this after any sequence of allocations and of frees of anything that is not on a free list |
| `KernelHeap.RunRoomy` | src/kernel_alloc.c:71-127 | Over every such run of requests up to 2^32 - 16 bytes each block holds its whole payload and no two live payloads share a byte |
| `KernelHeap.DoubleFreeLoops` | src/kernel_alloc.c:118-126 | Freeing a free block again closes its list into a loop: no finite chain starts at the bucket any more |
| `KernelHeap.Allocator.constructor` | src/kernel_alloc.c:43-69 | Initialisation gives the initial heap |
| `KernelHeap.Allocator.FindBucket` | src/kernel_alloc.c:73-79 | The loop finds the first bucket that holds the request |
| `KernelHeap.Allocator.KernelAllocate` | src/kernel_alloc.c:71-107 | The method computes the specified allocation |
| `KernelHeap.Allocator.KernelDeallocate` | src/kernel_alloc.c:109-127 | The method computes the specified free |
| `Scheduler.AsleepExact` | src/scheduler.c:183-183 | The wrap-safe clock test is right from the start of a sleep until 2^31 ticks after its end |
| `Scheduler.AsleepAtStart` | src/scheduler.c:234-248 | A sleep is noticed at all if and only if it is shorter than 2^31 ticks |
| `Scheduler.TaskSleep` | src/scheduler.c:250-259 | The chunks add up to the whole time, none overflows 32 bits, and each is short enough for the clock test |
| `Scheduler.AddOk` | src/scheduler.c:104-129 | Adding keeps the table correct and uses a slot that was free |
| `Scheduler.AddExact` | src/scheduler.c:104-129 | A task goes with its state to the lowest free slot behind the init task's, and adding fails, changing nothing, if and only if there is none |
| `Scheduler.RemoveOk` | src/scheduler.c:138-153 | Removing keeps it correct |
| `Scheduler.RemoveExact` | src/scheduler.c:138-153 | Removing empties one slot, never the init task's, and lowers nr_tasks if and only if it was the top one |
| `Scheduler.CountDrifts` | src/scheduler.c:117-146 | Each round of removing and adding below an occupied slot lifts nr_tasks by one without adding a task, for any number of rounds |
| `Scheduler.ScanReaches` | src/scheduler.c:159-203 | With a ready task in the table the scan stops at a ready slot, at that task or strictly closer to it |
| `Scheduler.GetNextExact` | src/scheduler.c:159-203 | On the table alone: the task found is the first ready or due one above the current slot, or the init task if there is none; it is ready with its pid and wake time, terminated tasks passed on the way are removed, nr_tasks drops if and only if the top one was, and every other slot is unchanged |
| `Scheduler.ScheduleExact` | src/scheduler.c:205-232 | The same of a whole call, with the task found as the current one |
| `Scheduler.NextExists` | src/scheduler.c:205-212 | A ready task is always found, so the retry loop is never needed |
| `Scheduler.ScanStaysInside` | src/scheduler.c:159-203 | get_next_task reads behind the 64 slots if and only if nr_tasks exceeds 64 and no slot behind the current one holds a ready or due task; in every other case it finds a ready task |
| `Scheduler.ScanAbove` | src/scheduler.c:165-187 | With nr_tasks above 64 the scan never turns back: it stops at a runnable task behind its start or leaves the table |
| `Scheduler.DriftWitness` | src/scheduler.c:104-203 | Three tasks, one of them replaced 62 times while the last one runs: the next scan leaves the table |
| `Scheduler.ScheduleCloser` | src/scheduler.c:205-232 | Every call runs the waiting task or strictly decreases its cyclic distance |
| `Scheduler.RunsWithin` | src/scheduler.c:159-232 | A task that stays ready runs within nr_tasks calls, whatever the other tasks do between them as long as nr_tasks does not grow |
| `Scheduler.RunOk` | src/scheduler.c:104-232 | After any adds, removals, state changes and reschedules whose scans stay inside the table every occupied slot is below nr_tasks and every pid is its slot |
| `Scheduler.RoundRobin.AddTask` | src/scheduler.c:104-129 | The loop takes the first free slot from 1 on, or fails on a full table |
| `Scheduler.RoundRobin.RemoveTask` | src/scheduler.c:138-153 | The loop empties the task's slot and lowers nr_tasks only at the top slot |
| `Scheduler.RoundRobin.GetNextTask` | src/scheduler.c:159-203 | The scan visits slots cyclically, wakes a due sleeper, removes terminated tasks and stops at the first runnable one, whenever it stays inside the table |
| `Scheduler.RoundRobin.Reschedule` | src/scheduler.c:205-232 | The next task becomes current, whenever the scan stays inside the table |
| `Scheduler.RoundRobin.StartSleep` | src/scheduler.c:234-248 | The current task is put to sleep until now plus the time modulo 2^32; the init task never is |
| `FrameAllocator.AllocFrameExact` | src/frame_alloc.c:94-111 | alloc_frame keeps the count right if and only if a frame ahead of next_idx is free, or nothing at all is clear ahead up to word total_frames, or the first clear bit's address wraps to null or to a free frame, or no frame is available; then the frame was free and not reserved, and otherwise it is outside the bitmap or in use |
| `FrameAllocator.AllocFrameResult` | src/frame_alloc.c:94-111 | On the bits alone: alloc_frame fails, changing nothing, if and only if no frame is available or neither range has a first clear bit with an address that is not null; else it returns the frame named by the first clear bit ahead of next_idx, or else behind it, and next_idx is that frame's word |
| `FrameAllocator.AllocFrameSucceeds` | src/frame_alloc.c:185-196 | A free frame of the bitmap in either range makes it succeed |
| `FrameAllocator.ScanPastBitmap` | src/frame_alloc.c:185-213 | With frames free only behind next_idx, allocation is right if and only if all memory from the bitmap's end to word total_frames has its bits set, or the first clear bit's address wraps to null or to a free frame |
| `FrameAllocator.DeallocFrameExact` | src/frame_alloc.c:147-155 | Freeing keeps the count right if and only if the frame is refused or a used one inside the bitmap; reserved frames stay used |
| `FrameAllocator.AllocThenFree` | src/frame_alloc.c:94-155 | Allocating and freeing restores bitmap and count if and only if the frame is not the first one above the reserved ones, which is never taken back |
| `FrameAllocator.FindWholeRight` | src/frame_alloc.c:235-271 | The search in which a full word ends a run returns 0 or an aligned run of free frames |
| `FrameAllocator.FindWholeExact` | src/frame_alloc.c:235-271 | That search finds something if and only if the range holds an aligned run of free frames |
| `FrameAllocator.StartableExact` | src/frame_alloc.c:215-251 | A run starts at a free bit if and only if its number is a multiple of the alignment in pages and its 32-bit address is not null |
| `FrameAllocator.AllocRunSucceeds` | src/frame_alloc.c:117-137 | An aligned run of free frames of the bitmap in either range makes contiguous allocation succeed |
| `FrameAllocator.FindWholeFirst` | src/frame_alloc.c:235-271 | And it returns the first such run |
| `FrameAllocator.FindRunByBitmap` | src/frame_alloc.c:235-271 | The search as written fails if and only if no such run exists and none is met across a full word; its answer has a used frame in it exactly in the latter case |
| `FrameAllocator.FindRunExact` | src/frame_alloc.c:235-271 | The search as written, which skips a full word without ending the run, returns 0 or an aligned free run if and only if it agrees with that search |
| `FrameAllocator.FindRunRight` | src/frame_alloc.c:235-271 | And if and only if no run that was open when a full word was passed over meets the request, a condition on the bitmap alone |
| `FrameAllocator.BridgesExact` | src/frame_alloc.c:241-266 | From any point of the scan: in that case the answer is a run with a used frame in it, and in every other it is 0 or an aligned free run |
| `FrameAllocator.NoOpenEdge` | src/frame_alloc.c:242-261 | They agree whenever every full word of the range follows a used frame |
| `FrameAllocator.CarriedWitness` | src/frame_alloc.c:242-242 | Two free frames, a full word and a free frame are returned as a run of three |
| `FrameAllocator.MarkRunExact` | src/frame_alloc.c:127-134 | Marking a run keeps the count right if and only if the frames its 32-bit addresses name are all clear ones of the bitmap |
| `FrameAllocator.AllocRunExact` | src/frame_alloc.c:117-137 | A contiguous allocation keeps the count right if and only if a run lies ahead in the bitmap and is met across no full word, or no run lies ahead even behind the bitmap and neither scan meets one across a full word, or the addresses of the run found wrap around to free frames (or the request is empty or larger than what is available); the frames handed out were then free and not reserved |
| `FrameAllocator.AllocRunAligned` | src/frame_alloc.c:215-271 | Unless the addresses wrap around, the frames are an aligned run of the bitmap |
| `FrameAllocator.AllocRunResult` | src/frame_alloc.c:117-137 | A contiguous allocation returns the frame named by the run its first range gives, else by the one its second gives, and fails, changing nothing, if neither does; each range gives nothing if and only if it holds no run and none is met across a full word, and otherwise the first run unless one is; next_idx is the word of the last frame |
| `FrameAllocator.DeallocRunExact` | src/frame_alloc.c:139-155 | Freeing a run keeps the count right if and only if each of its frames is refused or a used one of the bitmap; it clears exactly those above the first frame behind the reserved ones |
| `FrameAllocator.DeallocRunWord` | src/frame_alloc.c:139-155 | next_idx is then the word of the run's first frame, unless that is refused |
| `FrameAllocator.StepExact` | src/frame_alloc.c:94-155 | Each of the four operations keeps the count right if and only if the state before the call meets its condition |
| `FrameAllocator.CountStaysRight` | src/frame_alloc.c:94-155 | Over every run of the code as written, on a machine of any size, available_frames is throughout the number of clear bits, with no reserved frame free, if and only if every call meets its condition on the state before it |
| `FrameAllocator.ServeOk` | src/frame_alloc.c:94-155 | The evident intent, for whatever ranges of the bitmap are searched and with a full word ending a run: every request keeps the count right and hands out only aligned frames that were all free, none of them reserved |
| `FrameAllocator.IntendedCountStaysRight` | src/frame_alloc.c:94-155 | So with such searches the count is right over every run without double frees, whatever lies behind the bitmap |
| `FrameAllocator.InitExact` | src/frame_alloc.c:40-78 | Initialisation, which clears a quarter of the bitmap, leaves a right state if and only if the rest was already clear |
| `FrameAllocator.InitResult` | src/frame_alloc.c:40-78 | The bits, the count and next_idx at start-up |
| `FrameAllocator.FrameManager.FindFreeInRange` | src/frame_alloc.c:198-213 | The word and bit loops find the first clear bit of the range and return the frame its 32-bit address names |
| `FrameAllocator.FrameManager.Alloc` | src/frame_alloc.c:94-111 | The method computes the specified allocation |
| `FrameAllocator.FrameManager.Dealloc` | src/frame_alloc.c:147-155 | The method computes the specified free |
| `FrameAllocator.FrameManager.FindRunInRange` | src/frame_alloc.c:235-271 | The word and bit loops, on 32-bit start addresses, compute the contiguous search as written |
| `FrameAllocator.FrameManager.AllocContiguous` | src/frame_alloc.c:117-137 | The method computes the specified contiguous allocation |
| `Numerals.DigitsRight` | src/vsnprintf.c:426-469 | The numeral's digits are below the base, stand for the number, and have no leading zero |
| `Numerals.ValueUnique` | src/doprnt.c:442-485 | Digit sequences of equal length and value are equal, so any two correct printers agree |
| `Numerals.BinaryLength` | src/doprnt.c:442-451 | A number has at most k binary digits if and only if it is below 2^k, so 2^32 - 1 needs all 32 of them and fills the 33-byte buffer |
| `Numerals.DigitsFit` | src/doprnt.c:442-451 | In no base does a number below 2^k have more than k digits |
| `Numerals.AndMask` | src/doprnt.c:467-478 | Masking with base - 1 is the remainder for every power of two |
| `Numerals.SplitDigit` | src/doprnt.c:452-479 | Mask and shift or division give the same digit and rest, in every base from 2 to 16 |
| `Numerals.DigitTables` | src/vsnprintf.c:401-402 | Digits print as the characters of the two tables |
| `Numerals.UlongToString` | src/doprnt.c:442-485 | The buffer holds the numeral and its null, for every 32-bit number |
| `Numerals.LeadingIsNumeral` | src/cstring.c:533-606 | Taking digits from the most significant one down gives the same numeral |
| `Numerals.LeadingDivisor` | src/cstring.c:537-547 | The divisor loop ends with the largest power of the base not above the number and never wraps |
| `Numerals.Ntoa` | src/cstring.c:533-606 | The most-significant-first printer gives the numeral, for 32-bit and for 64-bit numbers |
| `NumberText.RunStrtoul` | src/string.c:342-442 | The loop computes the specified value and end pointer, sign, prefix and overflow test included |
| `NumberText.ParseShown` | src/string.c:389-427 | Digits shown in a text read as the number they stand for, whenever it fits 32 bits |
| `NumberText.ParseAny` | src/string.c:389-427 | For any digits: overflow is reported at the first digit that lowers the 32-bit result, and otherwise the result is the number modulo 2^32 and reading stops behind the digits |
| `NumberText.OverflowExact` | src/string.c:410-423 | The loop's value, with reported overflow for a number that does not fit, is what section 7.20.1.4 of ISO C99 asks if and only if the number fits 32 bits or some digit lowers the 32-bit result |
| `NumberText.ValueAndEndExact` | src/string.c:415-431 | With the end pointer the same section asks for, behind the digits, it is right if and only if the number fits |
| `NumberText.OverflowWitness` | src/string.c:410-423 | 5000000000 reads as 705032704 |
| `NumberText.StrtoulLaid` | src/string.c:342-442 | Blanks, a possible minus, decimal digits with any leading zeros and blanks read as that number |
| `NumberText.StrtoulReads` | src/string.c:342-442 | Any text of blanks, sign, prefix and digits, in every base, reads as its number, negated in 32 bits behind a minus, with the end behind the digits; where a digit lowers the 32-bit result, as the largest number |
| `NumberText.StrtoulRefuses` | src/string.c:352-374 | A hexadecimal prefix in another base, and a base outside 2 to 36, give 0 and the start |
| `NumberText.DigitExact` | src/string.c:389-408 | The loop takes the digits of the base in either case and, besides them, the punctuation between '9' and 'A' |
| `NumberText.PunctuationWitness` | src/string.c:389-408 | A colon reads as ten in base 16 |
| `NumberText.FieldLength` | src/vsnprintf.c:308-398 | Every field is as long as its width or its content, whichever is longer |
| `NumberText.FieldExact` | src/vsnprintf.c:308-398 | Each field is what section 7.19.6.1 of ISO C99 asks: precision, then blanks behind, zeros behind the sign, or blanks in front, by the flags |
| `NumberText.LayoutReads` | src/vsnprintf.c:340-398 | A number laid out with any padding reads back as that number |
| `NumberText.PrintThenParse` | src/string.c:576-578 | For every 32-bit int, the minimum included, and all flags, widths and precisions, atoi of the printed field is the int |
| `NumberText.EmitField` | src/vsnprintf.c:308-398 | The output loops append exactly the field, and chars_written, counted at each character, grows by its length |
| `CString.ReplaceJoins` | src/cstring.c:159-209 | The pieces of a text joined by the pattern are the text, joined by the replacement they are the result, and their number is one more than the count returned |
| `CString.PiecesLeftmost` | src/cstring.c:159-209 | No occurrence begins inside a piece: each replaced occurrence is the leftmost behind the previous, and none is left over |
| `CString.Strchr` | src/string.c:251-261 | The first occurrence of a character, or none |
| `CString.Matches` | src/cstring.c:184-192 | The comparison loop decides whether the pattern starts here |
| `CString.Buffer.Reserve` | src/cstring.c:15-41 | Afterwards the wanted characters and a null fit, and the contents are unchanged |
| `CString.Buffer.PutChar` | src/cstring.c:44-52 | Appends the character as often as asked, growing as needed |
| `CString.Buffer.PutString` | src/cstring.c:54-63 | Appends the string |
| `CString.ReplaceInto` | src/cstring.c:159-209 | The loop leaves leftmost non-overlapping replacement and a null in the buffer and returns the number of replacements; every write is inside the buffer |
| `CString.ReplaceInCString` | src/cstring.c:159-209 | An empty pattern leaves the text alone; any other is replaced |
| `BitField.FromIsQuotient` | src/sd_card.c:20-23 | Starting at a bit is dividing the little-endian number by that power of two |
| `BitField.OrTruncated` | src/sd_card.c:26-26 | Or-ing a byte shifted in 32 bits adds what is not shifted out |
| `BitField.MaskLast` | src/sd_card.c:26-32 | Masking after the last byte removes exactly the bits beyond the field |
| `BitField.Field` | src/sd_card.c:8-34 | The byte loop returns floor(number / 2^start) mod 2^len, cast to a signed int; arguments out of range give 0 |
| `FatWalk.ChainDistinct` | src/fat.c:386-412 | A chain that ends visits no cluster twice |
| `FatWalk.StepLooksUp` | src/fat.c:396-410 | With the table sector in the cache, or another number there than the sector's, one turn is a direct table lookup and leaves the sector in the cache |
| `FatWalk.EntryIsLittleEndian` | src/fat.c:408-409 | An entry is the low 28 bits of the little-endian number of its four bytes |
| `FatWalk.EntryReadsBack` | src/fat.c:408-409 | An entry stored at an offset is read back from it, whatever its top four bits |
| `FatWalk.EntryPlace` | src/fat.c:589-598 | Sector and offset are where entry number n of four bytes lies in the table |
| `FatWalk.EntriesApart` | src/fat.c:589-598 | Two clusters never share a byte of the table |
| `FatWalk.OneCluster` | src/fat.c:395-395 | A file of one cluster ends at exactly the three markers, or where the next entry cannot be read |
| `FatWalk.WalkExact` | src/fat.c:386-412 | On any volume whose chain ends at a marker or an unreadable sector the walk visits exactly the clusters of direct lookup, in order, whatever the buffer held before, if and only if there is nothing to visit or the first table sector is not sector 0 |
| `FatWalk.ReadFile` | src/fat.c:386-412 | The method visits exactly the clusters of the specified loop, in order, whatever the buffer held before |
| `LinkedQueues.WalksAgree` | src/list.c:47-144 | Whatever a forward walk from the head and a backward walk from the tail meet is the same sequence, the list's |
| `LinkedQueues.List.PushFront` | src/list.c:47-68 | The list gains the copied element in front; links, ends and size stay right |
| `LinkedQueues.List.PushBack` | src/list.c:70-91 | The same at the back |
| `LinkedQueues.List.DeleteHead` | src/list.c:93-107 | The first element goes; nothing happens to an empty list |
| `LinkedQueues.List.DeleteTail` | src/list.c:109-123 | The same for the last |
| `LinkedQueues.List.DeleteNode` | src/list.c:125-144 | Exactly the given element goes, wherever it is |
| `LinkedQueues.List.ForEach` | src/list.c:146-156 | The iterator sees the elements in order up to the first it refuses |
| `LinkedQueues.List.Dequeue` | src/queue.c:28-35 | The first element comes out, nothing from an empty queue |
| `LinkedQueues.List.Enqueue` | src/queue.c:24-26 | The element goes to the back |
| `LinkedQueues.NetQueue.Enqueue` | src/net_queue.c:45-74 | A frame of 1 to 1600 bytes with a buffer and memory for it goes to the back with its parameter; any other call changes nothing; the call is entered in the queue's history |
| `LinkedQueues.AcceptedExact` | src/net_queue.c:45-60 | A frame is taken if and only if there is memory and a buffer and its length is 1 to 1600 |
| `LinkedQueues.NetQueue.Dequeue` | src/net_queue.c:77-112 | The oldest frame's length, bytes and parameter come out; the rest of the caller's buffer is untouched; 0 if and only if the queue is empty; the call is entered in the history |
| `LinkedQueues.NetQueue.Flush` | src/net_queue.c:27-43 | The queue is empty afterwards, its frames entered in the history as dropped, in order |
| `LinkedQueues.FramesComeOutInOrder` | src/net_queue.c:27-112 | Over every run of enqueues, dequeues and flushes the frames that left, then those waiting, are the accepted ones in order; the history each queue object carries keeps this |
| `LinkedQueues.BlockQueue.Get` | src/etherif.c:79-107 | The first block leaves; the two consistency tests never fire |
| `LinkedQueues.BlockQueue.Pass` | src/etherif.c:109-126 | The block goes to the back |
| `Mailbox.LaidGrows` | src/rpi-mailbox-interface.c:41-211 | Adding a tag behind the list keeps every earlier tag and size word in place and closes the list with a null tag |
| `Mailbox.StepsToNext` | src/rpi-mailbox-interface.c:242-242 | From each tag the walker goes to the next one's start |
| `Mailbox.TagsSupported` | src/rpi-mailbox-interface.c:47-205 | Which tags are supported |
| `Mailbox.TagBytes` | src/rpi-mailbox-interface.c:47-205 | How many bytes of value go with each |
| `Mailbox.TagArguments` | src/rpi-mailbox-interface.c:47-205 | Which value words the caller gives, which are zero and which keep their old content |
| `Mailbox.PresentTag` | src/rpi-mailbox-interface.c:234-243 | A tag in the list is found at the start of its first occurrence |
| `Mailbox.AbsentTag` | src/rpi-mailbox-interface.c:234-247 | A tag not in the list gives NULL if and only if the word behind the list is at least -8, or is below -12 and sends the walk back to a place from which it ends within as many turns as the list has words, and two |
| `Mailbox.Decided` | src/rpi-mailbox-interface.c:234-243 | From any index the loop ends without a match if and only if it does so within that many turns: more turns change nothing |
| `Mailbox.NeverEnds` | src/rpi-mailbox-interface.c:234-243 | A step back to the null tag itself, from -12 to -9, or to the start of any entry makes the loop endless |
| `Mailbox.FalseMatchWitness` | src/rpi-mailbox-interface.c:234-243 | With -16 there an absent tag is found among the value words |
| `Mailbox.StuckWitness` | src/rpi-mailbox-interface.c:234-243 | On the buffer of StaleRequest with -9 left behind, the loop never ends for any tag but the one in the list |
| `Mailbox.Properties.constructor` | src/rpi-mailbox-interface.c:23-35 | An empty, closed list of the right size, over any earlier content |
| `Mailbox.Properties.AddTag` | src/rpi-mailbox-interface.c:41-211 | A supported tag is appended with its size, request code and arguments; an unsupported one leaves every word as it was |
| `Mailbox.Properties.Process` | src/rpi-mailbox-interface.c:213-223 | The size word counts list and null tag |
| `Mailbox.StaleRequest` | src/rpi-mailbox-interface.c:23-211 | Two requests in a row leave the third argument of the first as the word behind the list of the second |
| `Mailbox.Properties.Find` | src/rpi-mailbox-interface.c:225-247 | Whenever the walk ends inside the buffer the loop returns where it matched, or nothing |
| `Mailbox.Properties.Get` | src/rpi-mailbox-interface.c:225-254 | The length of the first occurrence's answer is returned and its bytes are copied to the property, the rest of which is untouched; NULL for an absent tag with at least -8 behind the list |
| `Mailbox.AnswerLengthBytes` | src/rpi-mailbox-interface.c:250-250 | The answer's length is the number in the low two bytes of its response word |
| `Mailbox.PayloadWords` | src/rpi-mailbox-interface.c:251-251 | Each whole word of the bytes returned is the value word the answer holds there |

## Left out

- Register drivers, interrupts, DMA, the UART and the SD host controllers: polling and delays on
  hardware. The card is an abstract memory, register file and pair of byte streams.
- `src/wifi-io.c` and `src/netif.c`: not built; a near duplicate of the modelled driver.
- Locks under timer preemption: mutexes hold and one frame transmission, one received packet and
  one command are each a step. `txstart` reads the sequence byte before it takes `pktlock`; that
  window is not modelled.
- SDIO command errors and retries, and the draining of a bad frame after `wlreadpkt` refuses its header.
- `realloc` and `calloc` of the heap, alignment of arenas that are not 16-aligned, and the block
  magic number: headers are intact.
- Block payload contents in the heap; only headers, links and extents are modelled.
- FAT16, directory search, long names and everything that prints.
- Parsing of format strings and the length modifiers; `%x`, `%o` and `%u` differ from the modelled
  conversion only in base and sign.
- The command dispatcher, key and join packing, scan results, `list_tail`, and the destruction of lists.
- Failure of `kernel_allocate` inside the string buffer, the blocks and the list nodes.
- SdpcmFrame.Transmit: asks for three bytes of slack behind the packet, because packetrw sends whole words.
- SdpcmFrame.Receive: one pass of the read loop; the retry after a bad header is not modelled.
- SdpcmProtocol.ResponsesMatch: takes a firmware that answers each id at most once as hypothesis; DuplicateAnswerWitness shows it is needed.
- SdioCard.Card.RwExtended: for function 1 the address lies in the window part of the function's address space, as all its callers have it.
- Firmware.FwLoad: image and list lie inside memory below the top of RAM; clock set-up, the reset vector copy and the choice of file by chip are not modelled.
- Condense.CondenseInPlace: the buffer has room for the result, which can be a few bytes longer than the input (CondensedFits).
- KernelHeap.InitOk: the arena is 16-aligned, below 2^32 and at least 4 MB plus 256 KB; the source computes without checking.
- KernelHeap.RunOk: bucket sizes are at most 2^32 - 16 and increase, as the source's table has them.
- Scheduler.RunsWithin: takes nr_tasks at most 64 and not growing while the task waits. Tasks are named by their slot; priorities do not enter the source's choice and are left out.
- Scheduler.RoundRobin.GetNextTask: a scan that leaves the table is a read of unknown memory; what follows it is not modelled. The same holds for Reschedule.
- Scheduler.RoundRobin.RemoveTask: the task is in the table.
- Scheduler.RoundRobin.AddTask: the null-pointer case, which leaves preemption disabled, is not modelled.
- FrameAllocator.FrameManager.Alloc: the memory behind the bitmap is modelled as far as the scan can reach; what a frame's own bytes hold, and its clearing, are not.
- FrameAllocator.FrameManager.AllocContiguous: alignments are whole numbers of pages.
- FrameAllocator.CountStaysRight: at least 32 frames are reserved, so that next_idx never is the first word; frames freed lie in the memory modelled.
- FrameAllocator.ServeOk: the source's two ranges mix units, so the intended ones are left to the request.
- FrameAllocator.InitExact: takes total_frames to be a multiple of 32.
- Completeness of the whole contiguous allocation, that it fails only when memory is full: false of the two ranges; FindWholeExact and FindRunByBitmap give it for each range.
- NumberText.StrtoulLaid: base 10; RunStrtoul covers the parse in every base.
- CString.ReplaceInto: text and replacement hold no null character, as C strings do not.
- BitField.Field: the field lies inside the array.
- FatWalk.ReadFile: the loop is followed when it ends. End-of-chain values other than the code's three markers, which the FAT standard allows, are ordinary clusters to the code.
- LinkedQueues.List.PushFront: list_size is unbounded; a C int would wrap after 2^31 elements. The same holds for PushBack.
- LinkedQueues.NetQueue.Dequeue: the emptiness test, which the source makes before it takes the lock, is part of one step.
- LinkedQueues.NetQueue.Enqueue: the entry that a refused call has already allocated, and loses, is not modelled.
- Mailbox.Properties.Process: the answer is any rewrite of the buffer that keeps the tags, their sizes and the size word.
- Mailbox.Properties.Get: the answer lies inside the buffer and takes at most the 256 bytes of the property; the walk of an absent tag with less than -8 behind the list is the subject of AbsentTag and Find.
- SdioCard.Card.Send53: the block counter and data path of the host controller are replaced by the card's reading of the argument.
