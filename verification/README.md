# aesdchar: the device, its ring and the server on top

A Dafny 4.11 model of the aesdchar character device and of the loops of the socket server that uses it, with proofs
about every call and every run. `dafny verify dfyconfig.toml` checks it.

The device keeps the last ten newline-committed writes and shows them to readers as one flat, seekable file.

| file | models |
|---|---|
| `CircularBuffer.dfy` | the ring of `aesd-circular-buffer.c`: offsets that wrap, the `full` flag, the scan that finds a position |
| `KernelHeap.dfy`, `DeviceState.dfy` | `krealloc` and `kfree` on the driver's own blocks, and what it means that a device state stands for a log of commits |
| `DeviceLog.dfy` | the abstract device: all commits so far and the pending bytes |
| `DeviceFile.dfy` | the live entries as one file: reads, seeks by command and offset, the end of the file |
| `FileOperations.dfy`, `Driver.dfy` | the outcomes of `read`, `write`, `llseek` and `ioctl`, when they are what the interface suggests, and the code that produces them |
| `Readers.dfy` | many handles interleaving on one device; what a reading handle receives over a run |
| `Sessions.dfy` | scripts of calls on one device through several handles; each execution is such a run |
| `Receive.dfy`, `Writeback.dfy`, `ThreadList.dfy` | the server's receive loop, partial-send loop, and thread list |
| `Echo.dfy` | client threads interleaving under the server's mutex, from the chunks they receive to what each client is sent back |
| `Services.dfy` | the partial-send loop as part of such a service |
| `Departures.dfy` | one input for each place where the code does less than its interface suggests |

How the layers meet: each method of `Driver.AesdDev` keeps `Valid()`, which says that the fields, the ring's slots and
the allocated blocks stand for the ghost `log`; its result is the function of that log named in `FileOperations`. The
runs of `Readers` step by the same functions, and `Sessions.Execute` shows that a script of calls on the class returns
and leaves what the run says. The threads of `Echo` make the requests that `Receive` makes of the same chunks, and step
by `Log.Append`, `ReadAt` and `IoctlTarget`; `Services.WritebackInService` shows that the loop of `Writeback` leaves what a
run of them leaves. Capacity is a parameter, at least 1; `Driver.InitModule` fixes it to 10.
One mutex covers every access to the device, so a call is one step. Whether waiting for the mutex is interrupted, what
`krealloc` does and how many bytes a user copy fails to copy are inputs (`Env`), and so is the pair that `sscanf` reads
from a command. `size_t`, `int`, `uint32_t` and `loff_t` arithmetic is written out in `Common` with its wrap-around.

## Where the code and its evident intent differ

The code is modelled as it is. For each departure there is a condition, both ways, for when the intended property
holds, and an input in `Departures` for which it does not.

- The lookup on an empty ring, or one whose oldest entry has size 0, answers the first slot because
  `current_string_size - 1` wraps (`aesd-circular-buffer.c:41`). It is right exactly when there is an oldest entry and
  it has bytes (`CircularBuffer.LookupResult`); in the driver, exactly when something has been committed
  (`LookupIsFlatIndex`). Input: `EmptyRingAnswers`.
- A read of an empty device therefore asks for bytes outside any buffer exactly when its position and its count are
  not 0 (`ReadReturnsZero`). Input: `EmptyDeviceRead`.
- A read whose copy to the user fails returns 0 (`main.c:89-92`): a read of some bytes that returns does so with 0
  exactly at the end of the file or when its copy fails (`ReadReturnsZero`). Input: `FailedCopyReadsZero`.
- `SEEK_END` sums nothing when the ring is full (`main.c:202-204`): the sum is the file size exactly when fewer entries
  than the capacity have been committed and the size fits an `int` (`SeekEndExact`). It counts from the last byte, not
  from behind it (`main.c:215`): it goes to that byte's position plus the offset exactly when the ring is not full, the
  position fits an `int` and the sum is a position, and never to the file's size plus the offset (`SeekEndLands`). A
  full ring counts from -1: offset 0 fails, as on an empty device (`SeekEndRefused`), and 1 goes to the first byte.
  Input: `FullRingHasNoEnd`.
- A seek that wraps can leave a negative position (`main.c:277-278`, `IoctlIsSeek`; input `SeekGoesNegative`), from
  where `SEEK_CUR` can wrap round to a positive one: it is exact, or refused, exactly when the sum is not below the least
  `loff_t` (`SeekMoves`). Input: `SeekCurWraps`.
- Command 10 passes the ioctl's bound (`main.c:255`) and is command 0 (`IoctlAcceptance`, `LastCommandIsFirst`). Input:
  `CommandTenIsAccepted`.
- Sizes and sums go through 32-bit integers (`main.c:264-277`): the ioctl's target is the sought one exactly when
  neither wraps (`IoctlIsSeek`). Input: `LongEntryIsRefused`.
- The ioctl adds to the position (`main.c:278`): an accepted one ends at what it adds (`IoctlLands`) exactly when the
  position was 0 (`IoctlIsAbsolute`), as it is where the server uses it. Input: `SeekIsRelative`.
- A failing `krealloc` frees the pending buffer and keeps its address and size (`main.c:119-124`): the device still
  stands for its log exactly if there was no pending buffer (`Write`, `ReallocatedKeeps`). Input: `ReallocFails`.
- A write with bytes behind its newline commits them in the same entry: the entries are the lines of the stream
  exactly when no write has such bytes (`LinesIffTidy`). Input: `UntidyWrite`.
- Cleanup does not free a pending buffer (`main.c:359-361`): a block is left exactly when there is one (`Cleanup`).
  Input: `CleanupLeavesBlock`.
- The server does not reset its receive buffer (`aesdsocket.c:366-434`): what a connection writes is its text, once,
  exactly when a single chunk has a newline and no command up to it (`WrittenOnceIffOneWriter`). Input:
  `SecondNewlineRepeats`.
- For the same reason nothing is written any more after a command (`NothingAfterCommand`); a chunk with a newline is
  written exactly while there has been no command (`WrittenStep`). Input: `CommandStopsWriting`.
- What follows a NUL in a received chunk is counted but lost: the text is complete exactly when no chunk has one
  (`TextIsComplete`). Input: `NulCutsChunk`.
- The reaping loop reads a node's next pointer after freeing it (`aesdsocket.c:646-648`): exactly when some node on the
  list is seen complete (`ReapPass`). The model takes the pointer before. Input: `PassReadsFreedNode`.

## Model

| member | source | states |
|---|---|---|
| `CircularBuffer.RingClosedForm` | aesd-char-driver/aesd-circular-buffer.c:63-86 | after init and any n additions, for any capacity: in is n mod cap, full iff n >= cap, out follows, the m-th addition sits at slot m mod cap while live, unused slots are zeroed, and reading from out gives the last min(n, cap) additions in order |
| `CircularBuffer.RingState.AddKeepsClosedForm` | aesd-char-driver/aesd-circular-buffer.c:63-78 | one addition takes a ring in closed form for a history to the closed form for the longer history, in the full case by sliding the window |
| `CircularBuffer.Ring.constructor` | aesd-char-driver/aesd-circular-buffer.c:83-86 | the zeroed struct is the closed form of no additions |
| `CircularBuffer.Ring.AddEntry` | aesd-char-driver/aesd-circular-buffer.c:63-78 | updates slot, offsets and flag in place; keeps the closed form, for the history with the entry at its end |
| `RingIndex.StepsAreRemainders` | aesd-char-driver/main.c:263-270 | the steps round the ring, written without a division, are the source's remainders |
| `CircularBuffer.Ring.FindEntryOffsetForFpos` | aesd-char-driver/aesd-circular-buffer.c:29-54 | the do-while scan with size_t arithmetic: it locates the offset in the live entries end to end, or answers NULL past them, exactly when the oldest live entry has bytes; otherwise it answers the first slot |
| `CircularBuffer.RingState.SeekThenFind` | aesd-char-driver/main.c:263-278 | from position 0, the lookup at an accepted position answers that command's slot and that offset exactly when the sought position fits an int |
| `CircularBuffer.Ring.SumSizes` | aesd-char-driver/main.c:201-209 | the summing loops of llseek and ioctl terminate and give the sizes before the c-th live slot, as an int |
| `CircularBuffer.Ring.SeekOffset` | aesd-char-driver/main.c:255-286 | the ioctl under the mutex finds the target on the view; never-written slots are told apart only by their size 0 |
| `DeviceLog.BytesConserved` | aesd-char-driver/main.c:142-165 | over every run of writes: evicted entries, live entries and pending bytes, flattened, are all accepted bytes in order; evicted are the oldest max(0, n - cap) commits |
| `DeviceLog.CommitDiscipline` | aesd-char-driver/main.c:142-165 | in every reachable state pending has no newline and every entry has one, so none is empty |
| `DeviceLog.LinesIffTidy` | aesd-char-driver/main.c:118-165 | the entries and pending bytes are the newline-terminated lines of the stream and its rest exactly when no write has a byte after a newline |
| `DeviceLog.ChunkingIndependent` | aesd-char-driver/main.c:118-165 | two such ways of cutting one stream leave the same ring contents and pending bytes |
| `DeviceLog.LinesConserve` | aesd-char-driver/main.c:146-165 | cutting into lines loses no byte and leaves no newline behind |
| `DeviceFile.ReadWithinEntry` | aesd-char-driver/main.c:82-95 | a read delivers bytes of one entry from the position on, at most count and at most to the entry's end |
| `DeviceFile.ReadIsSlice` | aesd-char-driver/main.c:76-95 | these are the flat file's bytes at the position, and there are some iff count > 0 and the position is in the file |
| `DeviceFile.ReadToEof` | aesd-char-driver/main.c:76-95 | reads with positive counts deliver the file from any position on without gap or repetition; one that returns 0 has the whole rest before it |
| `DeviceFile.ReadsReachEof` | aesd-char-driver/main.c:76-95 | a read returns 0 at the latest after as many reads as bytes were left |
| `DeviceFile.SeeksNumberTheFile` | aesd-char-driver/main.c:263-278 | the accepted (command, offset) pairs below cap reach exactly the positions of the file, each from one pair |
| `DeviceFile.SeekThenRead` | aesd-char-driver/main.c:263-278 | a read after a seek to byte o of command c delivers that entry from byte o on |
| `DeviceFile.IoctlIsSeek` | aesd-char-driver/main.c:263-278 | the target in int and uint32_t arithmetic is the exact one iff neither the entry's size nor the position wraps |
| `DeviceFile.EndSumExact` | aesd-char-driver/main.c:201-215 | the SEEK_END sum is the file size iff the ring is not full and the size fits an int |
| `FileOperations.ReadReturnsZero` | aesd-char-driver/main.c:76-95 | a read of some bytes leaves the buffer iff nothing is committed and the position is not 0; otherwise it returns 0 iff it is at the end of the file or its copy fails |
| `FileOperations.ReadDelivers` | aesd-char-driver/main.c:76-95 | an undisturbed read at byte b of the i-th live entry hands over that entry's bytes from b on, up to count, and returns their number |
| `FileOperations.SeekMoves` | aesd-char-driver/main.c:181-189 | at every loff_t position, negative ones included: SEEK_SET is exact or refused; SEEK_CUR is exact or refused iff the sum does not wrap from below, and otherwise accepted at the wrapped position |
| `FileOperations.SeekEndLands` | aesd-char-driver/main.c:191-227 | for every offset: SEEK_END returns the last byte's position plus the offset iff the ring is not full, that position fits an int and the sum is a position, and is then refused otherwise unless it wraps from below; it never returns the size plus the offset; a full ring counts from -1 |
| `FileOperations.SeekEndRefused` | aesd-char-driver/main.c:191-226 | with offset 0 it is EINVAL on every empty and every full device |
| `FileOperations.SeekEndReadsLastByte` | aesd-char-driver/main.c:191-229 | after such a seek a read gives exactly the last byte of the file |
| `FileOperations.LlseekRefuses` | aesd-char-driver/main.c:193-227 | an unknown whence is EINVAL; ERESTARTSYS is returned for an interrupted SEEK_END and nothing else |
| `FileOperations.IoctlAcceptance` | aesd-char-driver/main.c:255-286 | the ioctl accepts what the interface says except for command cap with an offset in command 0, and entries whose size wraps |
| `FileOperations.LastCommandIsFirst` | aesd-char-driver/main.c:255-263 | command cap does what command 0 does |
| `FileOperations.IoctlLands` | aesd-char-driver/main.c:263-278 | the ioctl adds the bytes of the entries before the command's and the offset, as an int; from any position the handle moves on by just as many while neither wraps, and not at all on an error |
| `FileOperations.IoctlThenRead` | aesd-char-driver/main.c:60-101 | from position 0, a read after an accepted ioctl delivers the command's entry from the offset on |
| `FileOperations.IoctlIsAbsolute` | aesd-char-driver/main.c:277-278 | an accepted ioctl ends at what it adds iff the position was 0, for every loff_t position |
| `DeviceState.Dev.LookupIsFlatIndex` | aesd-char-driver/aesd-circular-buffer.c:29-54 | the byte the lookup names in driver memory is the flat file's byte at the offset, and NULL means past the end, exactly when something has been committed |
| `DeviceState.Dev.CommitKeeps` | aesd-char-driver/main.c:148-165 | freeing the oldest entry of a full ring and adding the pending buffer keeps ownership, contents, order and the difference of all buffers ever committed, for one more commit |
| `DeviceState.Dev.OldestSlot` | aesd-char-driver/main.c:151-160 | in a full ring the slot about to be overwritten holds the oldest live entry, whose block is allocated |
| `DeviceState.Dev.ReallocatedKeeps` | aesd-char-driver/main.c:118-128 | krealloc, in place or moving, keeps the pending bytes; if it fails the device stands for its log iff no buffer was pending |
| `DeviceState.Dev.StoreKeeps` | aesd-char-driver/main.c:131-143 | copying behind the pending bytes, fully or in part, changes nothing that is pending or committed |
| `DeviceState.FreeNext` | aesd-char-driver/aesd-circular-buffer.h:75-78 | freeing slot after slot never frees a block twice |
| `Driver.AesdDev.constructor` | aesd-char-driver/main.c:338-339 | the zeroed device stands for the empty log, has no pending buffer and owns no memory |
| `Driver.AesdDev.Write` | aesd-char-driver/main.c:103-171 | success appends the payload to the log; the number returned is that of the bytes the stream has grown by; which error is returned when; an interrupted lock, failing krealloc or failing copy leaves the log as it was; ring, blocks and log agree afterwards unless krealloc failed on a pending buffer, and then they do not; a pending buffer exists afterwards as before when the lock or krealloc failed, always after a failing copy, and after success iff nothing was committed |
| `Driver.AesdDev.CommitPending` | aesd-char-driver/main.c:148-165 | the pending buffer becomes the newest entry, in the slot at in_offs and no other; in a full ring just the block of that slot is freed, which is the oldest live entry's |
| `Driver.AesdDev.Read` | aesd-char-driver/main.c:60-101 | returns what the flat file has at the position within one entry and moves the handle by as much; 0 on a failing copy; leaves the buffer only on an empty device |
| `Driver.AesdDev.Llseek` | aesd-char-driver/main.c:173-230 | the three whence cases with their wrap-around, ERESTARTSYS, and EINVAL with the position unchanged for others and for negative results |
| `CircularBuffer.RingState.AllSlotsSum` | aesd-char-driver/main.c:201-209 | the sum over all slots, full or not, is the sum over the live entries, which the shipped loop misses when the ring is full |
| `Driver.AesdDev.SeekEndExact` | aesd-char-driver/main.c:201-215 | in every reachable state SEEK_END's file size is right iff fewer than cap entries were committed and it fits an int; the sum over all slots is right always |
| `Driver.AesdDev.Ioctl` | aesd-char-driver/main.c:232-300 | adds the target to the position, in loff_t arithmetic, or returns the error with the position unchanged; which error is returned when |
| `Driver.AesdDev.Cleanup` | aesd-char-driver/main.c:350-365 | all buffers ever committed are different and each has been freed once; only a pending buffer is left, if there is one |
| `Driver.FreeSlots` | aesd-char-driver/aesd-circular-buffer.h:75-78 | the loop over all slots frees their buffers and no others, NULL slots included |
| `Readers.ReaderMonotone` | aesd-char-driver/main.c:60-101 | over every interleaving a handle that starts at 0 and only reads receives increasing, disjoint pieces of the stream of all commits, at evicted bytes + f_pos, and skips exactly what is evicted between two reads |
| `Readers.OpenedReader` | aesd-char-driver/main.c:46-101 | the same holds for a handle from when it is opened |
| `Readers.ReaderStaysDefined` | aesd-char-driver/main.c:76-89 | no read of such a handle ever asks for bytes outside a buffer |
| `Readers.RunConserves` | aesd-char-driver/main.c:60-300 | over every interleaving of writes, refused calls, reads and seeks: evicted, live and pending bytes are those there were and those of the successful writes, in order |
| `Sessions.Execute` | aesd-char-driver/main.c:302-310 | any script of write, read, llseek and ioctl calls through several handles returns for each call the result and bytes that the run of its events gives, and leaves its log and positions, up to a write that finds no memory for a pending buffer |
| `Sessions.SeekAndRead` | aesd-char-driver/main.c:60-300 | one ioctl and one read on the device, from position 0, deliver the command's entry from the offset on and leave the position behind it |
| `Sessions.ReaderInScript` | aesd-char-driver/main.c:60-101 | in any such script, what the calls return to a handle that starts at 0 and never seeks are disjoint pieces of the stream of all commits, in order |
| `Sessions.ScriptConserves` | aesd-char-driver/main.c:302-310 | after any script the evicted, live and pending bytes are those there were and those of the script's successful writes |
| `Sessions.ScriptCounts` | aesd-char-driver/main.c:103-171 | the numbers that the write calls of any script return add up to what the stream has grown by |
| `Echo.EchoLinearizable` | server/aesdsocket.c:322-434 | over every interleaving of client threads and every place where a send breaks off: a request is the last one the receive loop makes of what its connection has received; that of a packet is one of the commits, and its complete echo is the last min(n, cap) commits up to and including it, ending with it; the complete echo of a seek is the named entry from the named byte on and the entries after it, or all of them if there is no such byte; a broken-off echo is a prefix |
| `Echo.StartShows` | server/aesdsocket.c:403-420 | reading from where the ioctl's arithmetic leads shows that much of the live entries, for every command and offset |
| `Echo.RecvAsks` | server/aesdsocket.c:338-417 | a thread that gets a chunk with a newline waits with the request that the receive loop makes of it, and keeps receiving otherwise |
| `Echo.CommitsInServiceOrder` | server/aesdsocket.c:366-434 | the commits are exactly the texts of the packets served, in order of service, and then the mutex holder's own once issued; each packet served has a commit later than those of all services before it |
| `Echo.StepKeeps` | server/aesdsocket.c:322-434 | every step of any thread keeps: only the mutex holder is past waiting, each request is its connection's, the holder's echo is the file from its start to its position, and the commits are those of served packets and its own |
| `Echo.HistoryStays` | server/aesdsocket.c:322-434 | the commits and services of any part of a run begin those of the whole run |
| `Services.WritebackInService` | server/aesdsocket.c:179-229 | for any partial and failing sends, what the partial-send loop has sent of the file from the handle's position on, and how it ends, is what a run of the threads leaves and what the calls of send have taken |
| `Services.ReadAndSend` | server/aesdsocket.c:199-222 | a read whose bytes are sent in part adds just these to the echo, and breaks it off iff some are left |
| `Services.EveryRequestCanBeServed` | server/aesdsocket.c:366-434 | from every state in which a thread waits, with the mutex free or held, the server can go on to serve its request with a complete echo |
| `Receive.ServiceThread` | server/aesdsocket.c:322-435 | the receive loop makes, at each newline, a packet of all text received so far, or a seek if that contains the command, for every sequence of chunks, NULs and allocation failures |
| `Receive.RequestOfChunk` | server/aesdsocket.c:366-417 | there are as many requests as chunks with a newline; that of a chunk is the text up to it, or the pair read with it iff the text has the command |
| `Receive.Grow` | server/aesdsocket.c:338-363 | after every strcpy or strcat the buffer is as large as counted and the string with its terminator fits it |
| `Receive.TextIsComplete` | server/aesdsocket.c:335-363 | the string is all received bytes, as long as byte_string_len, exactly when no chunk has a NUL |
| `Receive.WrittenStep` | server/aesdsocket.c:366-417 | a chunk adds all text so far to what is written iff it has a newline and there is no command up to it |
| `Receive.WrittenArePackets` | server/aesdsocket.c:366-397 | everything written has a newline and no command, and the text written before as a prefix |
| `Receive.NothingAfterCommand` | server/aesdsocket.c:382-417 | once the text contains a command, no later chunk is written |
| `Receive.WrittenOnceIffOneWriter` | server/aesdsocket.c:366-434 | the text up to the last writing chunk is written once iff no other chunk has a newline and no command up to it |
| `Receive.NothingWrittenIffNoWriter` | server/aesdsocket.c:366-434 | nothing is written iff there is no such chunk |
| `Writeback.Writeback` | server/aesdsocket.c:179-229 | for every content and every sequence of partial and failing sends, what is sent is what the calls have taken of what they were offered, a prefix of what getline delivers, and all of it iff true is returned; it is true if each call takes all it is offered and there is one for each line |
| `Writeback.SendLine` | server/aesdsocket.c:208-222 | the inner loop sends a line in pieces until it is sent, fails or waits; the socket then has as much more as the calls have taken |
| `Writeback.TakenIsPrefix` | server/aesdsocket.c:199-222 | what the calls take, each offered the rest of the line the socket is at, is the content from its start on, no byte twice |
| `Writeback.OneCallPerLine` | server/aesdsocket.c:199-222 | calls that take all they are offered send everything, with one for each line |
| `ThreadList.List.InsertHead` | server/aesdsocket.c:628 | a new node at the front; the rest of the list as it was |
| `ThreadList.List.Remove` | server/aesdsocket.c:645 | the walk to the predecessor unlinks just that node |
| `ThreadList.List.ReapPass` | server/aesdsocket.c:635-649 | a pass leaves the nodes not seen complete, in order, and joins and frees the others, in order; the source's pass reads a freed node iff some node is seen complete |
| `ThreadList.List.Drain` | server/aesdsocket.c:656-666 | all remaining nodes are joined and freed, from the head on |
| `ThreadList.PassSorts` | server/aesdsocket.c:638-647 | each node is reaped if it is seen complete and left if not, and nothing else is either |
| `ThreadList.ServeClient` | server/aesdsocket.c:607-649 | a round puts a started thread first, joins the threads then seen complete in list order and leaves just the others |
| `ThreadList.JoinedWhenComplete` | server/aesdsocket.c:635-649 | a thread on the list is joined in the round that sees it complete, and stays on the list until then |
| `ThreadList.JoinedWereComplete` | server/aesdsocket.c:635-649 | no thread is joined while the server runs before a round sees it complete |
| `ThreadList.Serve` | server/aesdsocket.c:594-666 | over any run every created thread is joined once and its node freed once, and no other; the order of the joins is, round by round, that of the completed threads on the list, and then that of the list at shutdown |
| `Departures.EmptyRingAnswers` | aesd-char-driver/aesd-circular-buffer.c:36-51 | an empty ring answers its first slot for position 0 |
| `Departures.FullRingHasNoEnd` | aesd-char-driver/main.c:201-226 | on ten one-byte entries SEEK_END is EINVAL with offset 0 and goes to the first byte with offset 1 |
| `Departures.FailedCopyReadsZero` | aesd-char-driver/main.c:89-92 | a failing copy returns 0 at the start of a one-byte file |
| `Departures.CommandTenIsAccepted` | aesd-char-driver/main.c:255-263 | command 10 with one entry is accepted |
| `Departures.SeekIsRelative` | aesd-char-driver/main.c:277-278 | seeking byte 1 from position 1 ends at 2 |
| `Departures.SeekGoesNegative` | aesd-char-driver/main.c:263-278 | seeking the entry behind one of 2^31 bytes adds -2^31 |
| `Departures.SeekCurWraps` | aesd-char-driver/main.c:186-189 | from position -1 SEEK_CUR by the least loff_t is accepted at the greatest |
| `Departures.UntidyWrite` | aesd-char-driver/main.c:146-160 | a byte behind a newline is committed with it |
| `Departures.ReallocFails` | aesd-char-driver/main.c:118-124 | a krealloc failing on a pending byte leaves a device that does not stand for its log |
| `Departures.CleanupLeavesBlock` | aesd-char-driver/main.c:358-361 | cleanup with a pending byte leaves its block |
| `Departures.PassReadsFreedNode` | server/aesdsocket.c:638-648 | a pass over one finished thread reads its freed node |
| `Departures.SecondNewlineRepeats` | server/aesdsocket.c:366-434 | two newline chunks write the first one twice |
| `Departures.CommandStopsWriting` | server/aesdsocket.c:366-434 | of three newline chunks with a command in the second only the first is written, in three requests |
| `Departures.NulCutsChunk` | server/aesdsocket.c:335-363 | bytes behind a NUL are counted and lost |

## Left out

- Driver.AesdDev.Read: what happens when the copy leaves the entry's buffer is not modelled beyond the outcome that says so; positions and file size are taken to fit a `size_t`, as they do in one address space.
- Driver.AesdDev.Write: a call after a failed `krealloc` on a pending buffer, which would use freed memory, is outside the model.
- FileOperations.SeekEndLands: the file is taken to have at most 2^63 - 1 bytes, the greatest position.
- Sessions.Execute: a read at a negative position, which the kernel refuses before the driver sees it, returns `EINVAL`.
- Echo.EchoLinearizable: one device write per `fprintf`, no other writer, and successful locks, opens and reads; `getline`'s reading ahead of what is sent is not told apart from reading in step with it.
- Receive.ServiceThread: the pair that `sscanf` reads is an input for each chunk, so nothing is said of how it parses; buffer sizes are unbounded, where the source counts them in an `int`.
- ThreadList.List.ReapPass: saves the next pointer before the node is freed; what the source reads out of the freed node is not modelled.
- Writeback.Writeback: a line's length is unbounded; the source counts sent bytes in an `int`.
- CircularBuffer.Ring.AddEntry: offsets are naturals below the capacity, without the `uint8_t` they are kept in; 10 fits it.
- `krealloc` and `kfree`: addresses are never reused, and a block of length 0 is a block like any other.
- `aesd_open`, `aesd_release`, device registration, debug output: no property.
- Sockets, signals, daemonizing, syslog and the timer that is compiled out.
- `finder-app`, the other example programs and the scripts: thin wrappers over system calls.
