# Verification of the AESD character device, its server and its queues

This project models, in Dafny, the parts of the repository that keep state, and proves what
that state always is.

- **The device** (`aesd-char-driver/`). A log of the last ten newline-terminated lines ever
  written, plus the line not yet finished. `aesd_write` cuts an arbitrary byte stream into
  lines; a ten-slot ring keeps the finished ones; `aesd_read`, `aesd_lseek` and the seek ioctl
  address the ring as one flat string. The lines live in `kmalloc` blocks that the driver
  allocates, copies, links and frees by hand, under one mutex.
- **The server's critical sections** (`server/socket_core.c`). Any number of connection threads
  share one open file, and so one file position; a seek and the reads after it are meaningful
  only because of `file_mutex`. The receive buffer that doubles as a message arrives is there too.
- **The intrusive queues** (`server/queue.h`): the tail queue, list and singly-linked tail queue
  macros, whose back links are addresses of pointers and whose `TAILQ_LAST`/`TAILQ_PREV` read an
  element as if it were a head.
- **The thread list** (`server/linkedlist.c`).

Code that updates fields and blocks in place is modelled by classes and arrays with explicit
frames; what the operations mean is said by functions on sequences, and the two are tied
together by the methods' contracts. `dafny verify dfyconfig.toml` checks everything.

| file | content |
|---|---|
| `Bytes.dfy`, `Positions.dfy` | byte strings; the flat address space of (command, offset) pairs, searches and reads in it |
| `LineLog.dfy` | what the device stores, one byte at a time, with no ring and no heap |
| `Ring.dfy`, `CircularBuffer.dfy` | the ring as a value and its closed form; `aesd-circular-buffer.c` in place |
| `DeviceSpec.dfy` | what each system call may answer, and what follows for histories of calls |
| `Kernel.dfy`, `AesdDevice.dfy`, `Lifecycle.dfy` | `kmalloc`, user copies, mutex; `main.c` in place; whole runs from load to unload |
| `DeviceSteps.dfy`, `LockSections.dfy` | what the lock holder does, one store to the device at a time; many threads inside the driver at that grain |
| `ServerDrain.dfy`, `ServerThreads.dfy`, `ReceiveLoop.dfy` | the server's loops; many connection threads on one file position |
| `QueueLinks.dfy`, `TailQueue.dfy`, `TailQueueRuns.dfy`, `TailQueueTraversal.dfy` | pointer addresses; the TAILQ macros, runs of them over many queues, safe traversal |
| `ListQueue.dfy`, `SingleTailQueue.dfy`, `ThreadList.dfy` | the LIST and STAILQ macros; `linkedlist.c` |

## Main results

1. *Content.* After any history of calls, failures included, ring and pending line are the last
   ten lines of the bytes taken in and the bytes after their last newline, however the bytes
   were cut into writes (`HistoryKeepsLastTenLines`, `ContentsInPlainTerms`, `OnlyTheBytesMatter`); the blocks in memory
   hold exactly those (`BlocksHoldTheLastTenLines`), and `AesdDev.Write` produces them through
   its splitting loop, its five allocations and every way each of them, the user copy or the
   lock can fail.
2. *Memory and files.* Between calls the live blocks are exactly the pairwise distinct ones the
   ring and the pending line hold; no block is freed twice or used after it is freed. Any run
   from load to unload is a lawful history in which each request gets what it is due at the
   position that the calls before it on the same file gave that file, and errors and failures
   are equally many; after unload no block is live (`LoadServeUnload`).
3. *Positions.* The search that walks from `in_offs`, the seek that walks from `out_offs` and the
   size that walks from slot 0 agree with one linear search over the stored lines; seek and find
   are inverse (`FindEntryOffsetForFpos`, `SeekTarget`, `GetTotalSize`, `EveryPositionHasOneCommand`).
   The ring invariant they rely on is exactly reachability (`InvIsReachability`).
4. *Serializability.* Steps of any number of threads are interleaved at the grain of one store to
   the device (`EachStepStoresOnce`): an addition to a full ring takes eight (save the entry that
   falls out, `out_offs`, the slot, `in_offs`, `full`, free the block, clear size and pointer), and
   the pending line is extended in three and reset in two.
   Every such interleaving is equivalent to whole calls in the order of taking `dev->lock`: each
   call answered as the log left by the calls before it allows, with an error exactly when a
   failure of that kind or a seek to nowhere is its cause, and what a thread was given is the
   answer of its own latest call (`Serializable`, `EveryReturnIsAccountedFor`). No reader or seeker
   ever sees a line half stored, every access is in bounds (`InsideIsSafe`), the lock is always
   given back (`HolderCanFinish`), and with the lock free any call can be made (`AnyCallCanBeMade`).
5. *Shared file position.* Under every interleaving a thread forwards a stretch of the contents
   the device had when it took `file_mutex`, from the byte it asked for, and all of the rest
   unless a read failed (`ForwardedIsTheSoughtSuffix`). Without the mutex this is false whatever
   the device holds and for any two different stored bytes that two threads seek: one of them
   is sent the contents from the other's byte on (`WithoutTheMutexForwardingGoesWrong`). The mutex
   is always given back, and every request reaches the device once and in order
   (`OwnerCanFinish`, `RequestsAreHandedOn`).
6. *Queues.* Every macro does to the pointers what its sequence operation says, and any run of
   TAILQ macros over any number of queues does so to all of them at once (`DoAll`). What those
   operations mean is pinned by laws: insertions land where they are named and removal undoes
   them, a swap is its own inverse (`InsertedWhereNamed`, `RemoveUndoesInsert`). That two
   queues never share an element is a consequence of the back links, not an assumption. The
   `_SAFE` loops visit everything although their body overwrites the links of the elements it
   removes, or moves them to a second queue (`ForeachSafe`, `ForeachReverseSafe`).

## Where the code and its comments differ

- `aesd-circular-buffer.c:42` says that `in_offs` can never be greater than `out_offs`. It is,
  exactly in the rings that are partly filled. What holds is that `in_offs` is never *below*
  `out_offs` (`InOffsIsNeverBelowOutOffs`), so the early return at lines 52-56 is dead
  (`FindEntryOffsetForFpos`).
- `main.c:234-235` says that the last branch of `aesd_write` should not normally happen. It is
  taken by exactly the writes without a newline that find bytes pending (`TailMeetsPendingBytes`).
- `socket_core.c:104-106` looks for a seek command in every buffer read. On a connection that
  sends text it can find one only in a first read that is short: after a full read the buffer
  has no NUL left (`OnlyAShortFirstReadIsACommand`).
- `aesd_cleanup_module` frees the pending block and leaves the pointer to it in place.
  `Cleanup` proves that nothing is live afterwards; it does not claim that the pointer is NULL.

## Model

| member | source | states |
|---|---|---|
| LineLog.FeedAppend | aesd-char-driver/main.c:161-250 | feeding two byte strings one after the other is feeding their concatenation |
| LineLog.FeedAllIsFeed | aesd-char-driver/main.c:161-250 | any sequence of writes leaves what one write of their concatenation leaves |
| LineLog.ChunkingDoesNotMatter | aesd-char-driver/main.c:126-131 | two ways to cut the same bytes into writes leave the same ring and pending line |
| LineLog.FeedNextLine | aesd-char-driver/main.c:165-211 | the bytes up to the next newline complete the pending line, which enters the ring |
| LineLog.FeedUnfinished | aesd-char-driver/main.c:215-250 | bytes without a newline only extend the pending line |
| LineLog.FeedSplit | aesd-char-driver/main.c:161-250 | from any state: the first line of the input completes the pending one, the others follow, ten are kept, the rest is pending |
| LineLog.SplitExists | aesd-char-driver/main.c:163-213 | every byte string can be cut into lines, as many as it has newlines |
| LineLog.SplitIsUnique | aesd-char-driver/main.c:163-213 | and in one way only |
| LineLog.ContentsAreTheLastTenLines | aesd-char-driver/main.c:130-131 | from an empty device the stored lines are exactly the last ten lines written, the pending bytes exactly those after the last newline |
| LineLog.ContentsInPlainTerms | aesd-char-driver/main.c:161-250 | after any bytes with k newlines the device holds min(10, k) lines, each with one newline, its last byte, and pending bytes without one; in that order they are the end of what was written |
| LineLog.BytesAreConserved | aesd-char-driver/main.c:199-210 | evicted lines, stored lines and pending bytes are, in order, all bytes taken in; the sizes add up |
| LineLog.FeedKeepsLines | aesd-char-driver/main.c:165-211 | every stored entry is one whole line and the pending bytes hold no newline |
| LineLog.TailMeetsPendingBytes | aesd-char-driver/main.c:214-249 | what is left of a buffer after its last newline meets pending bytes exactly when the buffer has no newline and bytes were pending before |
| Positions.LocateSound | aesd-char-driver/aesd-circular-buffer.c:24-32 | the search finds a stored byte at the position asked for, and finds none exactly at or past the total length |
| Positions.LocateInvertsPosition | aesd-char-driver/main.c:294-322 | finding the position of a seek gives its command and offset back |
| Positions.EveryPositionHasOneCommand | aesd-char-driver/main.c:288-324 | positions below the total length and stored (command, offset) pairs correspond one to one |
| Positions.LocateSkipsEmpty | aesd-char-driver/aesd-circular-buffer.c:48-64 | empty slots in front of the lines shift the slot index and nothing else |
| Positions.ReadIsSlice | aesd-char-driver/main.c:99-112 | a read returns the flat contents at its position, all it asked for unless the entry ends first, and never crosses an entry |
| Positions.ReadIsEmptyOnlyAtTheEnd | aesd-char-driver/main.c:92-97 | a read returns nothing exactly at or past the end, or when asked for nothing |
| Positions.DrainReturnsTheRest | aesd-char-driver/main.c:91-115 | successive reads of any positive counts return a stretch of the contents, reach the end when one returns nothing, and one does after at most as many reads as bytes are left, plus one |
| Ring.AddAppends | aesd-char-driver/aesd-circular-buffer.c:72-106 | an addition keeps the ring invariant, appends in logical order, drops the oldest of ten, and is full exactly at ten |
| Ring.LogicalSlot | aesd-char-driver/main.c:296-299 | command i is in slot (out_offs + i) mod 10 |
| Ring.BeyondLogicalIsZero | aesd-char-driver/main.c:300-304 | that slot is empty when there is no command i |
| Ring.InOffsIsNeverBelowOutOffs | aesd-char-driver/aesd-circular-buffer.c:42-56 | in_offs is below out_offs in no ring, and above it exactly in those partly filled |
| Ring.ClosedForm | aesd-char-driver/aesd-circular-buffer.c:86-105 | after n additions: in_offs is n mod 10, full iff n >= 10, out_offs is 0 or n mod 10, each slot holds the latest addition with its number, and the logical order is the last ten |
| Ring.EvictedIsTenBefore | aesd-char-driver/aesd-circular-buffer.c:86-95 | addition n evicts addition n - 10, and earlier ones evict nothing |
| Ring.InvIsReachability | aesd-char-driver/aesd-circular-buffer.c:78-115 | a ring satisfies the invariant if and only if some run of additions since initialisation produces it |
| Ring.WalkAgreesWithLogicalOrder | aesd-char-driver/aesd-circular-buffer.c:48-67 | the walk from in_offs and the search in logical order find the same entry and offset at every position; both orders and slot order have the same total size |
| Ring.WalkStops | aesd-char-driver/aesd-circular-buffer.c:57-63 | where the walk stops is where the logical search stops |
| CircularBuffers.CircularBuffer.Initialise | aesd-char-driver/aesd-circular-buffer.c:112-115 | the struct is the empty ring |
| CircularBuffers.CircularBuffer.AddEntry | aesd-char-driver/aesd-circular-buffer.c:78-107 | the whole new ring; the entries are the last ten of the old ones and the new one; what is reported overwritten is the old oldest entry, exactly when there were ten |
| CircularBuffers.CircularBuffer.FindEntryOffsetForFpos | aesd-char-driver/aesd-circular-buffer.c:33-69 | the slot and offset found are those of the linear search in logical order; NULL exactly at or past the total length; the early return is never taken |
| CircularBuffers.CircularBuffer.GetTotalSize | aesd-char-driver/main.c:256-264 | the sum over slots is the total size of the stored entries |
| DeviceSpec.LawfulAt | aesd-char-driver/main.c:78-325 | every call of a lawful history answered as the log left by the calls before it allows |
| DeviceSpec.ReplayIsFeed | aesd-char-driver/main.c:118-255 | a history of calls leaves what the bytes it took in leave |
| DeviceSpec.HistoryKeepsLastTenLines | aesd-char-driver/main.c:118-255 | after any history, with any failures, the device holds the last ten lines of the bytes taken in and the bytes after the last newline |
| DeviceSpec.NoFailureTakesAll | aesd-char-driver/main.c:251-254 | when no write fails, the bytes taken in are the written buffers end to end |
| DeviceSpec.OnlyTheBytesMatter | aesd-char-driver/main.c:118-255 | two failure-free histories that wrote the same bytes, cut any way and mixed with any reads and seeks, leave the same device |
| DeviceSpec.FailedWriteCanBeResumed | aesd-char-driver/main.c:171-192 | a failed write leaves the old state or one at a line boundary, and writing the bytes it did not take gives what a successful write would have given |
| DeviceSpec.SeeksAreDecidedByTheLines | aesd-char-driver/main.c:288-324 | a seek that takes the lock succeeds if and only if it names a stored byte, and two seeks land on one position only if they are the same seek |
| DeviceSpec.SeekThenRead | aesd-char-driver/main.c:78-116 | a read after a successful seek returns the sought line from the sought offset |
| DeviceSpec.EvictionShiftsPositions | aesd-char-driver/main.c:199-210 | an eviction moves every surviving byte down by the evicted size and every seek command down by one |
| Kernel.Heap.Kmalloc | aesd-char-driver/main.c:143-149 | NULL and nothing changed, or a fresh live block of the size asked for |
| Kernel.Heap.Kfree | aesd-char-driver/main.c:156 | frees a live block; freeing NULL does nothing |
| AesdDevice.AesdDev.constructor | aesd-char-driver/main.c:395-405 | a freshly initialised device is empty, unlocked and owns no block |
| AesdDevice.JoinInNewBlock | aesd-char-driver/main.c:184-194 | the new block holds the old bytes followed by the new piece, or nothing changed |
| AesdDevice.AesdDev.StartPartial | aesd-char-driver/main.c:168-180 | the first piece of a line becomes the pending line, or nothing changes when allocation fails |
| AesdDevice.AesdDev.GrowPartial | aesd-char-driver/main.c:181-198 | a later piece is appended to the pending line and the old block freed, or nothing changes when allocation fails |
| AesdDevice.AesdDev.ExtendPartial | aesd-char-driver/main.c:219-249 | either of the two, by whether something is pending |
| AesdDevice.AesdDev.EnterRing | aesd-char-driver/main.c:199-207 | the pending entry enters the ring and the overwritten block is freed; what the ring then holds spells the lines with the pending one |
| AesdDevice.AesdDev.PushPartial | aesd-char-driver/main.c:199-210 | the pending line enters the ring, the evicted block is freed, nothing is pending |
| AesdDevice.AesdDev.StoreLine | aesd-char-driver/main.c:165-212 | one newline: the piece before it completes a line that enters the ring, or nothing changes |
| AesdDevice.AesdDev.StoreLines | aesd-char-driver/main.c:161-213 | the scan feeds exactly the prefix up to the last line start it reports, and on success no newline follows |
| AesdDevice.AesdDev.StoreBuffer | aesd-char-driver/main.c:161-250 | the whole buffer is fed, or on an allocation failure a prefix that ends at a line start |
| AesdDevice.AesdDev.WriteLocked | aesd-char-driver/main.c:143-252 | inside the lock: what is fed, what is returned, and which failure caused which error; no transient block survives |
| AesdDevice.AesdDev.Write | aesd-char-driver/main.c:118-255 | the device takes in the buffer, or a prefix ending at a line start; each error code is returned exactly when its failure happened; the lock is free again and the live blocks are the held ones |
| AesdDevice.AesdDev.FindForRead | aesd-char-driver/main.c:90-102 | the entry, offset and length to copy are those of the read at that position |
| AesdDevice.AesdDev.ReadLocked | aesd-char-driver/main.c:90-112 | the bytes read and the new file position, or EFAULT exactly on a fault |
| AesdDevice.AesdDev.Read | aesd-char-driver/main.c:78-116 | the bytes are the rest of the entry cut to the count; the position advances by what was read; the device does not change |
| AesdDevice.AesdDev.SlotOfCommand | aesd-char-driver/main.c:296-312 | a slot in seek order is empty exactly when its command is not stored |
| AesdDevice.AesdDev.StartOfCommand | aesd-char-driver/main.c:294-309 | the walk from out_offs gives the position where a command starts, and fails exactly when the lines end before it |
| AesdDevice.AesdDev.SeekTarget | aesd-char-driver/main.c:288-321 | succeeds exactly on a stored byte, with its flat position; EINVAL otherwise |
| AesdDevice.AesdDev.AdjustFileOffset | aesd-char-driver/main.c:277-325 | moves the file position to the sought byte exactly when it is stored, and not at all otherwise |
| AesdDevice.AesdDev.SizeForLseek | aesd-char-driver/main.c:266-272 | the size the seek is bounded by is the length of the flat contents |
| AesdDevice.AesdDev.FreeSlots | aesd-char-driver/main.c:38-48 | every block of the ring is freed once and no other, and every slot is zero |
| AesdDevice.AesdDev.Trim | aesd-char-driver/main.c:36-53 | the ring is empty again; the pending line stays |
| AesdDevice.AesdDev.Cleanup | aesd-char-driver/main.c:416-431 | no block is live, the lock is free |
| Lifecycle.BlocksHoldTheLastTenLines | aesd-char-driver/main.c:163-250 | in every state between calls the blocks in memory hold, in order, the last ten lines and the pending bytes, and there are no other blocks |
| Lifecycle.AnswerServes | aesd-char-driver/main.c:78-325 | an allowed answer is what its request is due: a write takes in a prefix of its buffer, all of it on success; a read delivers the bytes at its position; a seek that took the lock succeeds exactly on a stored byte and then stands there |
| Lifecycle.Perform | aesd-char-driver/main.c:78-325 | each call on the device is one answer its specification allows and what its request is due, by the log and at the file position it found; each error is one failure that happened |
| Lifecycle.LawfulRunServes | aesd-char-driver/main.c:78-325 | in a lawful run every request got what it is due |
| Lifecycle.Serve | aesd-char-driver/main.c:78-325 | any sequence of calls on any files is a lawful history, one event per call in order, each what its request is due at the position the earlier calls on its file left; the device is its replay, every file stands where the calls on it moved it, and errors and failures are equally many |
| Lifecycle.LoadServeUnload | aesd-char-driver/main.c:383-431 | the same from load through any calls with any failures to unload, from the empty log; no block outlives the module |
| DeviceSteps.EachStepStoresOnce | aesd-char-driver/main.c:140-253 | a step of the lock holder changes at most one field of one entry, one whole entry, one offset or the full flag |
| DeviceSteps.ExtendKeeps | aesd-char-driver/main.c:168-198 | the stores that extend the pending line end with the old bytes followed by the piece, and copy from and free only a whole block |
| DeviceSteps.AddStepCompletes | aesd-char-driver/aesd-circular-buffer.c:86-105 | no store of the addition changes the ring it completes to |
| DeviceSteps.AddKeeps | aesd-char-driver/main.c:199-210 | through the addition and the reset after it the overwritten block is there until it is freed, the pending line until it is reset; at the end the line has entered and nothing dangles |
| DeviceSteps.FindKeepsProgress | aesd-char-driver/aesd-circular-buffer.c:48-68 | each turn of the search keeps the sum of the sizes passed, and ends at the slot of the position or past the end |
| DeviceSteps.CopyKeepsProgress | aesd-char-driver/main.c:99-113 | what is copied out of the slot found is the abstract read, within its block, and a copy that completes is a read that succeeds |
| DeviceSteps.SeekKeepsProgress | aesd-char-driver/main.c:288-324 | each turn of the seek keeps the position of the command reached; it ends with success and the position exactly for a stored byte, with EINVAL otherwise |
| DeviceSteps.SumKeepsProgress | aesd-char-driver/main.c:256-272 | each turn of the size loop keeps the sum over the slots passed, and ends with the length of the contents |
| DeviceSteps.AdvanceKeepsProgress | aesd-char-driver/main.c:140-253 | every step inside the lock is in bounds and takes the device one store further along one call; a call that meets no failure ends with success, unless it seeks a byte that is not stored |
| DeviceSteps.FailureKeepsProgress | aesd-char-driver/main.c:143-192 | a refused allocation ends the call with ENOMEM, a faulting copy with EFAULT, and the device shows exactly what the call took in |
| DeviceSteps.EveryStepCounts | aesd-char-driver/main.c:140-253 | every step inside the lock lowers the number of steps left |
| LockSections.OtherStillFits | aesd-char-driver/main.c:88-253 | a step of one thread leaves what every other thread was answered, and who holds the lock, as it was |
| LockSections.NextKeepsInvariant | aesd-char-driver/main.c:88-253 | every step of every thread keeps the invariant of all threads |
| LockSections.RunKeepsInvariant | aesd-char-driver/main.c:88-253 | every state of every run satisfies it |
| LockSections.Serializable | aesd-char-driver/main.c:88-253 | with the lock free, the device is that of the finished calls run whole in the order of taking the lock; each of them answered as the log before it allows, with ENOMEM exactly after a refused allocation, EFAULT exactly after a faulting copy, EINVAL exactly for a seek to nowhere, and success otherwise; what a thread holds is the answer of its latest call in that order |
| LockSections.InsideIsSafe | aesd-char-driver/main.c:88-253 | in every state of every run one thread at most is inside, its next access is in bounds and not freed, and unless it writes it sees the log of whole calls |
| LockSections.UnlockedContents | aesd-char-driver/main.c:88-253 | with the lock free the device holds the last ten lines of all bytes taken in |
| LockSections.EveryReturnIsAccountedFor | aesd-char-driver/main.c:88-253 | a call returns with the answer its section put on the log, interrupted before the lock with nothing changed, or as an empty write |
| LockSections.HolderCanFinish | aesd-char-driver/main.c:140-253 | from every state that satisfies the invariant the lock holder can run on alone, meets nothing, and gives the lock back with its answer within its bound |
| LockSections.AnyCallCanBeMade | aesd-char-driver/main.c:78-325 | with the lock free any thread can make any call whole, and gets success unless it seeks a byte that is not stored |
| ServerDrain.ForwardRest | server/socket_core.c:129-133 | the read loop forwards the contents from the file position to the end, or up to the failed read |
| ServerDrain.SeekAndForward | server/socket_core.c:115-135 | one seek and forward: the ioctl answers for the stored byte; the bytes sent are the contents from it to the end unless a read failed |
| ServerThreads.DeviceHistoryIsLawful | server/socket_core.c:118-135 | with or without the mutex, the device calls of a run are a lawful history, and the device is its replay |
| ServerThreads.RequestsAreHandedOn | server/socket_core.c:112-200 | each thread hands the device exactly the writes and seeks its connections asked for, each once and in order |
| ServerThreads.ForwardStaysMeaningful | server/socket_core.c:129-133 | each read of the mutex holder extends what it forwarded by the next bytes of the contents it found |
| ServerThreads.RunKeepsInvariant | server/socket_core.c:121-135 | in every state of every run the mutex is held by exactly the one thread between lock and unlock, if any, and the shared position is its own |
| ServerThreads.SnapshotIsFromTheLock | server/socket_core.c:121-122 | the contents a thread forwards from are those at the moment it took the mutex |
| ServerThreads.ForwardedIsTheSoughtSuffix | server/socket_core.c:118-135 | under every interleaving the forwarded bytes are those contents from the sought byte on, all of the rest unless a read failed |
| ServerThreads.CutShortByAFailure | server/socket_core.c:129-133 | a thread stops forwarding before the end only because one of its own reads failed |
| ServerThreads.OwnerCanFinish | server/socket_core.c:118-135 | from every state that satisfies the invariant the mutex owner can move on alone, and gives it back within as many moves as there are bytes to forward, plus three |
| ServerThreads.AnyRequestCanBeServed | server/socket_core.c:112-200 | with the mutex free any thread can serve any request in full: a seek with the contents from its byte to the end, a write by storing its bytes |
| ServerThreads.WithoutTheMutexForwardingGoesWrong | server/socket_core.c:118-120 | without the mutex, for any contents and any two different stored bytes, a run forwards the contents from the second byte on to the thread that asked for the first, and its loop ends normally |
| ReceiveLoop.HearsAPrefix | server/socket_core.c:101-174 | the loop takes full reads, then at most one short one, and stops only at an end of stream, a short read or a recognised seek command |
| ReceiveLoop.ContainsIsSubstring | server/socket_core.c:103-106 | the key is found exactly in the texts that have it somewhere |
| ReceiveLoop.OnlyAShortFirstReadIsACommand | server/socket_core.c:103-107 | a connection that sends text is taken for a seek command if and only if its first read is short and has the key in it |
| ReceiveLoop.CommandIsRecognised | server/socket_core.c:103-107 | a first read of fewer than 1024 bytes of text with AESDCHAR_IOCSEEKTO: anywhere in it ends the loop as a seek command |
| ReceiveLoop.Append | server/socket_core.c:155-168 | after at most one doubling the bytes fit with room for one more, and are appended; NULL only when a needed doubling was refused |
| ReceiveLoop.Receive | server/socket_core.c:80-175 | for any read lengths: every copy in bounds, current_count below size, the buffer holds exactly what was read and is at most twice that; a message is reported only when the loop meets no seek command, a seek command only when it meets one, and always for a short first read of text with the key; a refused realloc only in messages of 1024 bytes and more |
| TailQueue.LinksPoint | server/queue.h:570-592 | every address in a well-formed queue dereferences to the element it is for |
| TailQueue.ContentsAreUnique | server/queue.h:570-592 | the pointers determine the contents |
| TailQueue.QueuesAreSeparate | server/queue.h:587-592 | two tail queues never share an element |
| TailQueue.Init | server/queue.h:690-694 | the queue is empty |
| TailQueue.Next | server/queue.h:747 | the next element, or NULL for the last |
| TailQueue.Last | server/queue.h:744-745 | reading the last element as a head gives the last element, or NULL when empty |
| TailQueue.Prev | server/queue.h:749-750 | reading the predecessor as a head gives the predecessor, or NULL for the first |
| TailQueue.InsertHead | server/queue.h:721-732 | inserts at the front, all links valid |
| TailQueue.InsertTail | server/queue.h:734-742 | inserts at the back, all links valid |
| TailQueue.InsertAfter | server/queue.h:696-709 | inserts after the element, all links valid |
| TailQueue.InsertBefore | server/queue.h:711-719 | inserts before the element without the head, writing only it, the new one and the pointer to it |
| TailQueue.Remove | server/queue.h:752-768 | removes the element without searching, writing only its neighbours or the head |
| TailQueue.Concat | server/queue.h:635-644 | appends the second queue to the first and empties it |
| TailQueue.Swap | server/queue.h:770-785 | exchanges the contents, also of a queue with itself |
| TailQueueRuns.WorldIsSeparate | server/queue.h:587-592 | no two queues of a program share an element |
| TailQueueRuns.OrdinaryCallsAreLegal | server/queue.h:635-785 | any element on no queue may be inserted, any on a queue removed, two different queues concatenated, any two swapped |
| TailQueueRuns.RemoveUndoesInsert | server/queue.h:696-768 | removing the element that any of the four insertions brought gives all queues back |
| TailQueueRuns.InsertedWhereNamed | server/queue.h:696-742 | the element is first after an insertion at the head, last at the tail, and directly after or before the one named |
| TailQueueRuns.RemoveTakesOutOne | server/queue.h:752-768 | the removed element is gone, and put back in one place it gives the old queue |
| TailQueueRuns.ConcatJoins | server/queue.h:635-644 | the first queue is in front, the second behind it, and the second is empty |
| TailQueueRuns.SwapIsItsOwnInverse | server/queue.h:770-785 | the contents are exchanged, and a second swap brings them back |
| TailQueueRuns.OnlyNamedQueuesChange | server/queue.h:635-785 | an initialised queue is empty, and no macro changes a queue it does not name |
| TailQueueRuns.PointersAfter | server/queue.h:696-742 | in the pointers: the inserted element and its named neighbour point at each other |
| TailQueueRuns.Do | server/queue.h:635-785 | a macro does to its queues what its sequence operation says and to all others nothing |
| TailQueueRuns.LastCallOfRun | server/queue.h:635-785 | the last macro of a run does what it means to what the run before it left |
| TailQueueRuns.DoAll | server/queue.h:635-785 | so does any run of macros over any number of queues |
| TailQueueTraversal.PartMembers | server/queue.h:660-663 | the elements that stay are exactly those the body did not remove, and the others exactly those it did |
| TailQueueTraversal.PartsAreTheWhole | server/queue.h:660-663 | no element is lost or doubled between the two |
| TailQueueTraversal.Body | server/queue.h:660-663 | a body that removes its element, overwrites its links and may put it on a second queue leaves both queues well-formed |
| TailQueueTraversal.ForeachSafe | server/queue.h:660-663 | visits every original element once, in order, whatever subset the body removes and does to the links of; leaves the others in order; a second queue receives the removed ones in order |
| TailQueueTraversal.ForeachReverseSafe | server/queue.h:680-683 | the same from the last to the first: visit i is element n - 1 - i |
| ListQueue.ListsAreSeparate | server/queue.h:426-430 | two lists never share an element |
| ListQueue.ContentsAreUnique | server/queue.h:413-430 | the pointers determine the contents |
| ListQueue.Prev | server/queue.h:539-542 | the predecessor, or NULL for the first |
| ListQueue.InsertHead | server/queue.h:529-535 | inserts at the front |
| ListQueue.InsertAfter | server/queue.h:512-519 | inserts after the element, without the head |
| ListQueue.InsertBefore | server/queue.h:521-527 | inserts before the element, without the head |
| ListQueue.Remove | server/queue.h:544-555 | removes the element with neither head nor search |
| ListQueue.Concat | server/queue.h:467-482 | appends the second list to the first and empties it |
| ListQueue.Swap | server/queue.h:557-565 | exchanges the contents, also of a list with itself |
| SingleTailQueue.SharedTail | server/queue.h:280-298 | queues that share an element share the rest, and their tail address |
| SingleTailQueue.SeparateIffTailsDiffer | server/queue.h:280-298 | two queues share no element exactly when their tail addresses differ |
| SingleTailQueue.Last | server/queue.h:363-366 | the element around the tail address is the last one, or NULL when empty |
| SingleTailQueue.InsertHead | server/queue.h:351-355 | inserts at the front |
| SingleTailQueue.InsertTail | server/queue.h:357-361 | inserts at the back |
| SingleTailQueue.InsertAfter | server/queue.h:345-349 | inserts after the element |
| SingleTailQueue.RemoveHead | server/queue.h:390-394 | removes the first element |
| SingleTailQueue.RemoveAfter | server/queue.h:384-388 | removes the element after the given one |
| SingleTailQueue.Remove | server/queue.h:370-382 | finds and removes the element |
| SingleTailQueue.Concat | server/queue.h:308-314 | appends the second queue to the first and empties it |
| SingleTailQueue.Swap | server/queue.h:396-407 | exchanges the contents and writes no element |
| ThreadList.RemoveUndoesInsert | server/linkedlist.c:35-44 | a new record is the first match of its thread, and removing that thread undoes the insertion |
| ThreadList.RemovalSparesOthers | server/linkedlist.c:83-110 | removing one thread leaves what is found for every other thread |
| ThreadList.UpdateSparesOthers | server/linkedlist.c:186-203 | so does setting its status |
| ThreadList.StatusIsSet | server/linkedlist.c:186-203 | the first match carries the status, and is otherwise unchanged |
| ThreadList.LastOperationDecides | server/linkedlist.c:35-257 | what the last operation of a run leaves to be found: for its thread the new record, the new status or one record less, for every other thread what was there |
| ThreadList.LinkedList.constructor | server/linkedlist.c:9-13 | the list is empty |
| ThreadList.LinkedList.InsertNoMutex | server/linkedlist.c:35-44 | one fresh live node in front of the old ones |
| ThreadList.LinkedList.SearchWithPrev | server/linkedlist.c:85-108 | the first node of the thread and the one before it |
| ThreadList.LinkedList.RemoveNoMutex | server/linkedlist.c:83-110 | the first match and no other is unlinked and freed |
| ThreadList.LinkedList.SetStatusNoMutex | server/linkedlist.c:186-203 | the status of the first match is set and nothing else changes |
| ThreadList.LinkedList.Search | server/linkedlist.c:239-254 | the first node of the thread, or NULL |
| ThreadList.LinkedList.GetNoMutex | server/linkedlist.c:237-257 | a fresh copy of the first match, or NULL; the list does not change |
| ThreadList.LinkedList.FreeAll | server/linkedlist.c:112-121 | every node is freed once, and read only before that |
| ThreadList.Run | server/linkedlist.c:35-257 | any run of operations refines the sequence operations; the copies handed out are, in order, what its lookups find; live nodes are exactly the list's and those copies |
| ThreadList.Lifetime | server/linkedlist.c:9-257 | after any run and free_linked_list only the copies handed out are live |

## Left out

- `fixed_size_llseek`: its body is not part of the repository and it runs after the lock is released; only the size passed to it is modelled. Since evictions shrink the contents, a file position may lie past their end, and no claim to the contrary is made.
- Machine integers: sizes and positions are unbounded. The sums at `main.c:99` and `main.c:261` stay in range because the kernel bounds a read count and no live blocks can exceed memory; the ring offsets never leave 0..9.
- Kernel plumbing: character device registration, open and release, `container_of`, the ioctl number check and the copy of the ioctl argument, logging.
- What a faulting `copy_to_user` has already put into the user's buffer.
- The page allocator's reasons: an allocation or user copy may fail at any time, so every contract holds for every pattern of failures.
- The source writes the code that extends the pending line twice (`main.c:168-198` and `main.c:219-249`); it is one method in `AesdDevice.dfy`, while `DeviceSteps.dfy` keeps the two orders of its stores.
- LockSections.Serializable: a step may read several device fields before its one store; the copy of a struct buffer_entry (`aesd-circular-buffer.c:90` and `97`) and each `memcpy` are one store. A pointer there stands for the bytes of its block; which block it is, and that no two pointers share one, is proved in `AesdDevice.dfy`.
- ServerThreads.ForwardedIsTheSoughtSuffix: a process other than the server that writes to the device, which `file_mutex` cannot keep out, is not part of this model.
- Whether `send` reaches the client: its result is ignored, as in the source.
- ReceiveLoop.Receive: the source does not handle a failing `realloc` and copies through the null pointer; the model ends there with `NoMemory`. The first `malloc` is taken to succeed. The numbers `sscanf` reads from a seek command are parameters of `SeekAndForward`.
- ServerThreads.DeviceHistoryIsLawful: a device call of the server is one move there; that interleaved calls of the driver are such a history is `Serializable`, and the two machines are not composed into one.
- The server's accumulation of all messages in `to_write`, its reply, the joining thread, the signal handler, sockets and timestamps.
- ThreadList.LinkedList.InsertNoMutex: `malloc` is taken to succeed, as the source takes it to.
- The thread-list functions that search before they take the mutex, and the lookup by file descriptor.
- SLIST macros, the `_FROM` traversals and the trace fields of `queue.h`: they add no case beyond those proved.
- TAILQ macros used against their contract (inserting an element that is on a queue, concatenating a queue to itself): the macros do not check, and nothing is claimed.
