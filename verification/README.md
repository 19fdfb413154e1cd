# A verified model of the AESD character driver and its socket server

The repository has a Linux character driver that keeps the last ten newline-terminated
commands written to it, and a socket server whose threads write client messages to that
driver and echo its contents back. This project models both in Dafny, in layers, and proves
what each layer promises to the next.

- `Bytes.dfy`: byte strings, concatenation, what C's string functions see of a buffer.
- `CircularBuffer.dfy`: the ten-slot ring, as a value and as the object with an array, two
  offsets and a sticky `full` flag. Both wrapping do-while loops are loops here too.
- `DeviceLog.dfy`: what the device promises. A `Log` is every command committed since
  initialisation plus the pending fragment. `Phys` is the driver's view: the 128-byte write
  buffer, its index, the committed history. `AtomicWrite` is the specification of a write,
  `WriteBody` is the body of `aesd_write` for any sampled `write_count`, fresh or stale.
- `CharDevice.dfy`: the driver object with its ring, write buffer and kernel allocations.
- `ClientText.dfy`: the received message, `strstr`, `atoi`, the seek-command parser and printer.
- `ClientSession.dfy`: the receive loop, the parser with its reused scratch array, the echo
  loop and `handle_client`, proved equal to one atomic session on the log.
- `ReapList.dfy`: the singly linked list of threads and the loop that empties it.
- `Server.dfy`: main and unboundedly many workers as an interleaved step system. A run is any
  sequence of enabled steps; the theorems hold in every reachable state.

Kernel memory is a map from addresses to blocks. `Kfree` requires a live block, so the
verifier itself rules out a double free, and an address may be handed out again after it was
freed. What the outside world decides is a parameter: an interrupted lock wait, a failing
`copy_from_user` (with the bytes it leaves behind), `copy_to_user` or `kmalloc`, the chunks a
socket delivers, and what the uninitialised `tmp_str` happens to hold.

Where the code and its own comments disagree, the model follows the code, and a lemma says
exactly when the two agree:

- `aesd_circular_buffer_size(in_offs)` sums nothing on a full ring, and `SEEK_END` ignores its
  offset (`CharDevice.AesdDevice.SeekEndMeetsStandardIff`).
- The seek command's number is a slot of the array, not an age
  (`DeviceLog.SeekMeetsDocumentationIff`).
- `aesd_adjust_file_offset` returns the new position where its comment says 0
  (`DeviceLog.SeekReturnsZeroIff`).
- `write_count` is sampled before the lock is taken
  (`DeviceLog.SampleServesIff`, `DeviceLog.SampleServesEveryWriteIffFresh`).
- A write of nothing onto an empty fragment reads outside the write buffer, because
  `write_count - 1` is unsigned (`DeviceLog.FreshSampleDefinedIff`); a client that connects and
  sends nothing brings it about (`Server.FaultIff`, `Server.FaultsOccur`).
- A client that sends more than 2147483391 bytes before the end of its line overflows the `int`
  that the receive loop counts in (`Server.FaultIff`, `Server.FaultsOccur`).
- A client that ends neither its line nor its connection holds up every other client for good
  (`Server.UnheardHoldsUpAll`, `Server.OneCanHoldUpAny`).
- 127 pending bytes without a newline block the device for good
  (`DeviceLog.StuckIffPendingFull`).
- Digits left in `tmp_str` by the first number can join the second
  (`ClientText.ParseInvertsPrintIff`).

## Model

| member | source | states |
|---|---|---|
| CircularBuffer.AddEnqueues | aesd-char-driver/aesd-circular-buffer.c:79-109 | for every well-formed ring, full, empty or wrapped, adding is enqueueing on a queue of capacity ten that drops its oldest element, and a full ring overwrites exactly its oldest entry |
| CircularBuffer.ReachableContents | aesd-char-driver/aesd-circular-buffer.c:79-117 | after any run of additions from initialisation the ring holds exactly the last min(n,10) entries, oldest first |
| CircularBuffer.ReachableRing | aesd-char-driver/aesd-circular-buffer.c:79-117 | closed form after n additions: `in_offs` is n mod 10, `full` iff n >= 10, `out_offs` is 0 up to ten additions and n mod 10 after, slots never written are still zero |
| CircularBuffer.SlotOfRank | aesd-char-driver/aesd-circular-buffer.c:79-117 | in a reachable ring slot k holds the ((k - out_offs) mod 10)-th oldest entry, or is still zero |
| CircularBuffer.LocatesUnique | aesd-char-driver/aesd-circular-buffer.c:21-29 | a flat position belongs to one slot and one byte offset only |
| CircularBuffer.AesdCircularBuffer.constructor | aesd-char-driver/aesd-circular-buffer.c:114-117 | initialisation gives the empty queue |
| CircularBuffer.AesdCircularBuffer.AddEntry | aesd-char-driver/aesd-circular-buffer.c:79-109 | the new queue, and the returned pointer is the oldest entry's when the ring was full and NULL otherwise |
| CircularBuffer.AesdCircularBuffer.FindEntryOffsetForFpos | aesd-char-driver/aesd-circular-buffer.c:30-70 | finds an entry exactly when the position is below the total size, and then the sizes before it plus the byte offset add up to the position, with the offset inside the entry |
| CircularBuffer.AesdCircularBuffer.Size | aesd-char-driver/aesd-circular-buffer.c:119-137 | terminates and returns the bytes in the slots from `out_offs` up to the given slot, 0 on an empty ring or when the slot is `out_offs` |
| DeviceLog.RunConserves | aesd-char-driver/main.c:148-231 | any run of writes, failing ones included, appends exactly the bytes it reported as accepted and never rewrites a committed command |
| DeviceLog.Conservation | aesd-char-driver/main.c:148-231 | from initialisation the accepted bytes are evicted commands, then stored commands, then the pending fragment |
| DeviceLog.WriteAnswers | aesd-char-driver/main.c:148-231 | a write is refused with -512, -22, -14 or -12 iff the lock wait is interrupted, fragment and data reach 128 bytes, the copy fails, or a completed command cannot be allocated, in that order; any other write consumes all its bytes |
| DeviceLog.PiecesMakeOneCommand | aesd-char-driver/main.c:178-224 | however a line is cut into undisturbed writes, with a newline only at its end and within 127 bytes, one command is committed: the pending fragment and all the pieces |
| DeviceLog.ResultsAreAnswers | aesd-char-driver/main.c:148-231 | the i-th result of a run is what its i-th write returns on the device the earlier ones left |
| DeviceLog.LongLinesFill | aesd-char-driver/aesd-circular-buffer.h:34-35 | eleven of the longest lines leave exactly ten commands, 1270 bytes, and evict the first |
| DeviceLog.RunsAreShaped | aesd-char-driver/main.c:166-222 | in every reachable state each command has 1 to 127 bytes and ends in a newline, and the fragment has at most 127 bytes and does not |
| DeviceLog.ReachableIffShaped | aesd-char-driver/main.c:166-222 | the shapes so described are exactly those some run from initialisation produces: wrapped, full and stuck devices all occur |
| DeviceLog.StuckIffPendingFull | aesd-char-driver/main.c:166-222 | no run of writes can ever change the device exactly when 127 bytes are pending |
| DeviceLog.ContentsBound | aesd-char-driver/main.c:166-176 | a device never holds more than 1270 readable bytes |
| DeviceLog.FreshSampleRefines | aesd-char-driver/main.c:156-231 | with a fresh sample the body of the write acts as the atomic write on stored commands, fragment and return value, and is in bounds whenever a byte is gathered |
| DeviceLog.FreshSampleInBounds | aesd-char-driver/main.c:178-188 | the body stays in the write buffer for every outcome iff index plus count is at least 1 |
| DeviceLog.FreshSampleDefinedIff | aesd-char-driver/main.c:160-188 | for each write and outcome: the body stays in the write buffer iff a byte is gathered, or the lock wait or the copy fails first |
| DeviceLog.BodyAnswers | aesd-char-driver/main.c:160-226 | for any sample at all that stays in bounds: which error is returned when, that errors keep index and commands, and that a success commits the bytes up to the sample if they end in a newline and gathers the data otherwise |
| DeviceLog.SampleServesIff | aesd-char-driver/main.c:156-231 | for one write and outcome a sample taken at another index makes the body atomic iff it is not looked at, is refused with either count, or with both counts in range the copy fails, both checked bytes are plain, or both are newlines and the sample is fresh or the failing allocation leaves the pending bytes alone |
| DeviceLog.SampleServesEveryWriteIffFresh | aesd-char-driver/main.c:156-164 | a sampled count makes the body atomic for every non-empty write iff the index has not moved since the sample |
| DeviceLog.FailedWriteKeepsLog | aesd-char-driver/main.c:160-205 | every error exit leaves stored commands and fragment as they were; only a failing copy or allocation may alter bytes past the index |
| DeviceLog.ReadPieceIsSlice | aesd-char-driver/main.c:90-138 | a read returns consecutive bytes from the position on, and nothing iff it asks for nothing or is at or past the end |
| DeviceLog.ReadPieceAt | aesd-char-driver/main.c:98-122 | a read inside a command never leaves that command |
| DeviceLog.ReadsReassemble | aesd-char-driver/main.c:70-146 | for any positive counts successive reads return consecutive pieces of the contents, and as many reads as bytes remain reach the end |
| DeviceLog.ReadsPastEnd | aesd-char-driver/main.c:90-96 | at or past the end reads return nothing and the position stays |
| DeviceLog.SeekFindsCommand | aesd-char-driver/main.c:481-512 | as long as the i-th command ever written is stored it is in slot i mod 10, and a seek there is accepted iff the offset is inside it, wrapped ring or not |
| DeviceLog.SeekRefusesOthers | aesd-char-driver/main.c:481-491 | numbers from ten on and slots never written refuse every seek |
| DeviceLog.SeekLands | aesd-char-driver/main.c:487-516 | an accepted seek stays inside the contents and the next read starts at the requested byte of the command in that slot |
| DeviceLog.SeekMeetsDocumentationIff | aesd-char-driver/main.c:460-522 | any one seek that the code accepts, or that its comment says should be accepted, goes where the comment says iff the oldest command is in slot 0 |
| DeviceLog.AllSeeksMeetDocumentationIff | aesd-char-driver/main.c:460-522 | seeking by command number means the n-th oldest command for all numbers and offsets iff the oldest command is in slot 0 |
| DeviceLog.DocumentedLands | aesd-char-driver/main.c:458-466 | the documented target is the byte asked for of the n-th oldest command |
| DeviceLog.SeekReturnsZeroIff | aesd-char-driver/main.c:464-521 | a successful seek returns the documented 0 iff it targets the very first byte |
| CharDevice.OwnsCommitted | aesd-char-driver/main.c:190-214 | committing keeps one distinct live block per stored command, holding its bytes, and frees exactly the oldest block of a full ring |
| CharDevice.OwnedBySlots | aesd-char-driver/main.c:437-443 | the live entry allocations are exactly the non-NULL slot pointers, pairwise distinct |
| CharDevice.LocatedEntry | aesd-char-driver/main.c:90-109 | the slot a lookup finds owns a live block holding the command whose place in the concatenation is the position |
| CharDevice.SlotSizes | aesd-char-driver/main.c:487-497 | a slot's size is its command's length, 0 if unoccupied, and the sizes up to it add up to the length of the older commands |
| CharDevice.AesdDevice.constructor | aesd-char-driver/main.c:379-409 | a successful init gives an empty device owning two blocks |
| CharDevice.AesdDevice.AllocationsAreSlots | aesd-char-driver/main.c:192-214 | in every valid state the module's live blocks are the ring, the write buffer and one per non-NULL slot |
| CharDevice.AesdDevice.CommitGathered | aesd-char-driver/main.c:190-216 | one more command on the log in a fresh block of its own, the new entry in the ring, and exactly the block of the slot overwritten on a full ring freed; ring and kernel heap untouched when the allocation fails |
| CharDevice.AesdDevice.WriteLocked | aesd-char-driver/main.c:160-231 | for any sampled count that stays in bounds, buffer, index, history and return value are those of the body's specification, and ring and kernel heap change only by one commit, or not at all |
| CharDevice.AesdDevice.Write | aesd-char-driver/main.c:148-231 | every call with a defined outcome is the atomic write, and ring and kernel heap change by exactly one commit when a command is completed and not at all otherwise |
| CharDevice.AesdDevice.Read | aesd-char-driver/main.c:70-146 | returns the tail of one command cut to the count, advances the position by what it returned, and changes nothing on an error |
| CharDevice.AesdDevice.Llseek | aesd-char-driver/main.c:233-274 | the position for each `whence`, with 64-bit wrap-around, the position kept on every error, and exactly which `SEEK_END` offsets land at length plus offset |
| CharDevice.AesdDevice.SeekEndMeetsStandardIff | aesd-char-driver/main.c:254-268 | on the ring as the driver sizes it, `SEEK_END` reaches length plus offset iff the offset is 0 on a ring that is not full, or minus the length on a full one |
| CharDevice.AesdDevice.AdjustFileOffset | aesd-char-driver/main.c:468-522 | moves to the seek target and returns it, or refuses; it accepts iff the number is below ten and the offset below the size recorded in that slot; the NULL lookup branch is unreachable |
| CharDevice.AesdDevice.SeekLocates | aesd-char-driver/main.c:493-512 | the lookup for an accepted seek finds the requested slot with the requested offset |
| CharDevice.AesdDevice.Cleanup | aesd-char-driver/main.c:433-455 | frees every live block of the module exactly once |
| CharDevice.ModuleLifetime | aesd-char-driver/main.c:368-458 | from load to unload any run of writes with defined outcomes returns what the log says and leaves no kernel memory allocated |
| ClientText.ReceivedIsPrefix | server/client.c:178-218 | the message is the concatenation of the chunks up to the first that ends in a newline, or of all of them |
| ClientText.CarriedIsBeforeNewline | server/client.c:201-212 | what the loop adds to `xbuf` and `size` is every byte before the chunk that ends in a newline, or all of them |
| ClientText.FindFirstIsFirst | server/client.c:224 | the command is found wherever it occurs, at its first occurrence |
| ClientText.AtoiReads | server/client.c:232-235 | white space, then an optional plus or minus sign, then any digits up to a non-digit give the signed value, 0 without digits, when it fits an `int` |
| ClientText.AtoiRunsOff | server/client.c:232-235 | an array that ends before the number does gives no value |
| ClientText.ToUint32Wraps | server/client.c:233-235 | a negative `int` becomes its value plus 2^32 as an unsigned number |
| ClientText.ParseSeekReads | server/client.c:230-235 | whatever the two fields hold and whatever follows, the numbers are what `atoi` reads of the scratch array after each field is copied in, in that order |
| ClientText.ParseSeekNeedsBoth | server/client.c:232-235 | without a comma, or a newline after it, there is no result |
| ClientText.Spelled | server/client.c:224-235 | the command word, separators, digits, white space and `int` range, spelled out |
| ClientText.ParseInvertsPrintIff | server/client.c:224-235 | for all non-negative int pairs the parser returns the printed pair iff the second number is printed at least as long as the first, or is 0 and the first ends in zeros only; always so for one-digit commands |
| ClientSession.Receive | server/client.c:170-218 | for any chunking into reads of 1 to 255 bytes that stays within what an `int` counts every store is in bounds, `size` never overflows and ends as 256 plus the bytes carried over, and the buffer is the message followed by a NUL |
| ClientSession.OverflowsIff | server/client.c:174-206 | `size` overflows iff more than 2147483391 bytes come before the chunk that ends in a newline |
| ClientSession.PlainTextIsWritten | server/client.c:247-249 | received text without a seek command is written as it came, newline included, up to its first NUL |
| ClientSession.SeekTextIsSought | server/client.c:224-237 | received text with one asks for the two numbers behind its first occurrence, in that order |
| ClientSession.PrintedSeekIsSoughtIff | server/client.c:224-237 | a printed seek command asks for exactly the numbers printed iff stale digits leave the second intact, always for one-digit commands |
| ClientSession.ParseSeekArgs | server/client.c:230-235 | the two numbers through one scratch array that is never cleared |
| ClientSession.EchoBuffer | server/client.c:126-166 | stays inside 4096 bytes, terminates after any finite number of failing reads, hands the contents from the file position on, as a C string, to the socket once, of which as much leaves as the socket takes, and returns 1 iff the socket write fails or one of the reads it takes to the end fails, 0 otherwise |
| ClientSession.HandleClient | server/client.c:168-263 | device and reply afterwards are those of the atomic session, errors included; what leaves the socket is the beginning of the reply, as long as the socket takes, nothing when it fails; the return value is 1 iff the request, a read of the echo or the socket write fails |
| DeviceLog.ReadsToEndStep | aesd-char-driver/main.c:90-138 | how many reads the echo needs: none returns nothing before that many have returned something, and each that does uses up one |
| ClientSession.SessionKeeps | server/client.c:246-257 | sessions keep the device well shaped and free of NUL bytes |
| ClientSession.WriterSeesWholeDevice | server/client.c:246-257 | a client whose text is written is sent the whole device as it is right after the write of its received bytes |
| ClientSession.SeekerSeesSuffix | server/client.c:224-245 | a seeker changes nothing and is sent the rest of the command in the slot it named, from the byte it named, and all younger commands; nothing if there is no such byte |
| ClientSession.LineIsCommitted | server/client.c:247-257 | an undisturbed client that sends a line has exactly that line committed, after what was pending, and is sent the device with it |
| ClientSession.SeekIsAnswered | server/client.c:224-245 | a client that sends a printed seek command for slot x and byte y is sent that command from byte y and everything after it |
| ClientSession.NegativeSeeksRefused | aesd-char-driver/main.c:481-491 | negative numbers in a seek command are refused by every device |
| ClientSession.HelloExample | server/client.c:168-263 | on an empty device the chunks `hel` and `lo` with a newline commit and echo `hello` |
| ClientSession.SeekExample | server/client.c:168-263 | seeking to 1,2 on a device holding `aaaa`, `bbbb` and `cccc` echoes `bb` and `cccc` |
| ClientSession.MeaninglessIff | server/client.c:174-249 | a client has no defined outcome on a device iff it sends more than an `int` counts, its seek command has no numbers, or it sends nothing, nothing is pending and the write is carried through |
| ReapList.HavingWithout | server/slist.c:33-50 | removing the first completed entry takes the first of the completed ones and keeps the order of all others |
| ReapList.ExceptWithout | server/slist.c:45-46 | taking one entry out of what a loop has left is leaving it out of the original list, whatever was taken before |
| ReapList.ThreadList.InsertThreadData | server/slist.c:15-31 | a fresh node at the head, the rest unchanged, no cycle |
| ReapList.ThreadList.Remove | server/slist.c:45-46 | unlinks exactly that node, wherever it is, and frees it for the first time |
| ReapList.ThreadList.CheckList | server/slist.c:33-50 | hands out and removes exactly the first completed entry, or finds none and changes nothing |
| ReapList.ThreadList.FreeList | server/slist.c:52-69 | hands out and removes the first entry, NULL on an empty list |
| ReapList.ThreadList.ReapAll | server/aesdsocket.c:290-333 | terminates having handed out each entry at most once and only completed ones, workers completing at will while it runs; what is left is the original list without them, in order, and holds no completed entry; if nobody completes meanwhile the completed ones come out in list order |
| Server.InitialExists | server/aesdsocket.c:195-200 | the server may come up on any device that writes without NULs have left |
| Server.RunKeepsInv | server/threading.c:19-39 | every run of any threads' steps keeps the protocol invariant |
| Server.Serializable | server/threading.c:24-35 | in every interleaving the device is at every moment what the whole sessions settled so far, run one at a time in acquisition order, give, the current holder's counting from its request on, and every worker out of the mutex has sent the reply of its session in that run |
| Server.WritersSeeTheirWrite | server/client.c:249-256 | in every interleaving a client whose text was written was sent exactly the device right after the write of its received bytes |
| Server.SeekersSeeSuffix | server/client.c:237-244 | in every interleaving a seeker was sent the rest of the command in the slot it named, from the byte it named, and all younger ones, as they stood at its turn, or nothing if there was no such byte |
| Server.LinesAreCommitted | server/client.c:247-257 | in every interleaving an undisturbed client that sent a line had it committed at its turn, and was sent the device with it |
| Server.SeeksAreAnswered | server/client.c:224-245 | in every interleaving a client that sent a printed seek command was sent its slot's command from its byte on and everything after it |
| Server.ServerConserves | server/client.c:249-256 | at every moment of every interleaving the bytes evicted, stored and pending are those the device had when the server came up, then those accepted from the settled sessions in acquisition order |
| Server.DeviceStaysShaped | aesd-char-driver/main.c:166-222 | at every moment of every run commands and fragment have their shape, hold no NUL and amount to at most 1270 bytes |
| Server.SampleStaysFresh | aesd-char-driver/main.c:156-164 | under the server mutex the sampled count is index plus length when the body runs, so the body is the atomic write whenever that is defined |
| Server.MutualExclusion | server/threading.c:24-35 | two workers inside a session are the same worker, the mutex holder |
| Server.EchoFitsBuffer | server/client.c:139-155 | what a session has read plus its next read fits the 4096-byte buffer |
| Server.LifetimeSafe | server/aesdsocket.c:290-333 | a worker's socket, `thread_data` and handle are closed or freed at most once, in that order, only after it set its flag, and freed only after it returned |
| Server.NoUseAfterFree | server/threading.c:19-39 | a worker's steps up to setting its flag never meet anything closed or freed |
| Server.MainFreesLive | server/aesdsocket.c:295-327 | main never reads, starts, closes or frees what it has already freed, including the flags it reads down the list |
| Server.ReapedOrListed | server/aesdsocket.c:276-333 | whenever main accepts, every worker is still listed and untouched or released in full |
| Server.FaultIff | server/client.c:178-249 | a step of a reachable state leaves defined behaviour iff it receives more than an `int` counts, parses a seek command whose numbers are undefined with `tmp_str` as it is, or carries through a write of nothing onto an empty fragment |
| Server.FaultIsTheHolders | server/threading.c:24-35 | after a fault the mutex is held, by a client with no defined outcome on the device its predecessors left |
| Server.EndedSessionsMeantSomething | server/threading.c:24-35 | every session that got out of the mutex had a defined outcome on the device it met |
| Server.HistoryServedIff | server/aesdsocket.c:200-334 | some run serves exactly these clients in this order and returns to accept with everybody reaped iff each has a defined outcome on the device its predecessors leave |
| Server.FreeMutexMeansAllAnswered | server/threading.c:24-35 | whenever the mutex is free every worker that took it is out and was answered as in the sequential run |
| Server.HistoryFaultsIff | server/threading.c:19-39 | some run leaves defined behaviour on this client after this history iff all of the history had defined outcomes and this client has none on the device they leave |
| Server.FirstSessionFaultsIff | server/threading.c:19-39 | the same for an empty history: only the first client and the device the server found decide |
| Server.FaultsOccur | server/client.c:178-249 | a client that sends nothing, or two gigabytes without a newline, faults a server that came up on an empty device |
| Server.ReachableInRange | server/aesdsocket.c:200-334 | the range conditions on steps exclude none in a reachable state |
| Server.NoDeadlock | server/aesdsocket.c:287-333 | the mutex holder can move iff it is not waiting for its client, and main can move unless it waits for a new client, any of which it accepts, or joins a worker that can |
| Server.WorkerCanMoveIff | server/threading.c:19-39 | a worker can move iff it has been started, has not returned, and waits neither for its client nor for a mutex that is taken; waiting workers may take it in any order |
| Server.UnheardHoldsUpAll | server/threading.c:24-35 | while the holder's client has not been heard out, no run takes the mutex from it, lets another worker into a session, changes the device or answers anyone |
| Server.OneCanHoldUpAny | server/client.c:178-218 | from any initial state any first client can be in that position with any number of started workers waiting behind it |
| Server.LastPassVisitsEveryone | server/slist.c:33-50 | when main goes back to accept, its last pass left the list as it was and looked at each entry, finding it incomplete at that moment |
| Server.VisitedWasIncomplete | server/threading.c:35-38 | an entry found incomplete during a pass was incomplete at every earlier moment of it |
| Server.LastPassMissesNobody | server/aesdsocket.c:290-333 | when main goes back to accept, no worker left on the list had completed when its last pass began |
| Server.EveryReturnEndsInLastPass | server/aesdsocket.c:290-333 | every run from a client just started, or from a worker being reaped, to accept ends in a pass that keeps the list and finds every entry on it incomplete |
| Server.DrainTerminates | server/aesdsocket.c:290-333 | each step of the drain loop shortens the list or the pass |
| Server.EchoTerminates | server/client.c:139-155 | each successful read ends the echo or moves the position towards the end |

## Left out

- Kernel registration, `aesd_open`, `aesd_release`, ioctl decoding (including its positive `EFAULT`) and `access_ok`: wrappers over code outside the repository.
- Init failures before the ring is initialised: cleanup there walks memory nobody initialised; ownership is stated from a successful init.
- The pointers left behind after cleanup, and the module's static device object itself.
- Socket setup, signals, timers, the server's logging and daemonizing, and the signal handler's calls of `free_list` in the middle of a list update; `free_list` is modelled as an ordinary operation.
- The driver's debug prints (`PDEBUG` is `printk`): `aesd-char-driver/main.c:126`, `:184` and `:207` and `aesd-char-driver/aesd-circular-buffer.c:99` print buffers without a terminator with `%s` and so read past them; every bound proved here is about the other accesses.
- The branches for `USE_AESD_CHAR_DEVICE == 0`, switched off in `server/client.h`.
- Other processes using the device at the same time: the server theorems assume its workers are the only users.
- Failing `malloc`, `realloc`, `open`, `pthread_create` and `pthread_join` in the server, and the descriptors of the device that the server never closes.
- Weak-memory effects: setting the completion flag is one atomic step.
- Server.AfterSubmit: parsing and the seek are one step, because only the seek touches shared state; receiving is the step before it, which waits for the client.
- ClientText.Atoi: has no result outside the `int` range or when digits run off the array, where C leaves it undefined; `ClientText.ParseInvertsPrintIff` assumes `tmp_str` starts without digits.
- ClientSession.HandleClient: requires a client with a defined outcome on the device it meets (`ClientSession.MeaninglessIff` says exactly which have none), and reads of 1 to 255 bytes; the same goes for the message length in `ClientSession.Receive`.
- Server.AfterRead: hands the reply to the socket whole and never waits there; short and failing socket writes are in `ClientSession.EchoBuffer` and `ClientSession.HandleClient` only, since no other thread sees them.
- CharDevice.AesdDevice.Write: requires a defined outcome, because the code reads outside its buffer otherwise; `DeviceLog.FreshSampleDefinedIff` says exactly when.
- CharDevice.ModuleLifetime: covers runs of writes with defined outcomes, for the same reason.
- ClientSession.Receive: end of input and a failing read are not told apart, because the return value the failing read sets is overwritten later.
- CharDevice.KernelHeap: the ring and the write buffer are objects of their own, so only the addresses of their two blocks are in the heap map.
