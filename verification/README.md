# NetServe: a verified model of its hardest parts

NetServe serves its event loop with libuv 1.48.0, whose sources it vendors under
`depend/libuv-1.48.0`, and adds modules of its own under `src`. This project models the parts of
both whose correctness cannot be read off the code, and proves what they promise, with Dafny 4.11.
`dafny verify dfyconfig.toml` checks everything.

## What is modelled

**Timers** (`Storage`, `QueueRing`, `IntrusiveHeap`, `TimerSpec`, `TimerLoop`). The storage of a
timer is shared: the same two or three pointers are a node of the loop's heap while the timer is
active and a link of a ring while it is not. The intrusive rings of `queue.h` refine sequences. The
parent-linked binary heap of `heap-inl.h`, which finds its slots from the bits of the element count,
refines a complete array heap in level order. On these two stand the operations of `timer.c`, proved
against a specification on values, and a pass of `uv__run_timers` with callbacks that may start,
stop, re-arm and close any timers, and initialise new ones.

**Concurrent protocols.** Each section that holds a mutex, and each atomic operation or system call,
is one step of any of any number of threads; a thread that waits on a condition is asleep until it is
signalled or wakes spuriously. The results hold in every state of every run.
`PoolSpec`/`PoolProof` are libuv's thread pool with its slow-I/O marker and cancellation, and
`ThreadPool` its worker loop as code. `Async` is the `pending`/`busy` protocol of `uv_async_send`.
`Barrier` is the hand-written two-phase barrier and `BarrierWait` its code.
`BoundedPool` is NetServe's own bounded thread pool and `WorkQueues` its linked lists and counters.

**A priority message queue** (`MessageQueue`): the doubly linked list of the thread communication
module is one FIFO per priority level, served highest first.

**Codecs.** `Utf8`, `Punycode` and `Idna` are the conversion of domain names to ASCII, down to the
32-bit arithmetic, the overflow guards and the bounded output buffer. `Wtf8` is the conversion of
UTF-16 to WTF-8 and back. `Inet` and `InetText` print and parse IPv4 and IPv6 addresses. `Json` and
`JsonText` print and parse JSON, and `JsonMemory` is its `json_free` on a heap of blocks. In each pair
of modules the first has the meaning of the text as functions and the round trips, the second the
loops and buffers that compute it.

**Search trees** (`SplayTree`, `RedBlackModel`, `RedBlackShift`, `RedBlack`): the macros of `tree.h`
on a heap of linked nodes refine insertion into and deletion from a sorted sequence. The red-black
proofs are made on a table of records indexed by in-order position and carried to the pointers by a
relation between the two.

## How it is built

A class has the fields of the C structure, and ghost fields for what it stands for: the sequence of
its nodes, mostly, and the position of each node in it. A loop of the source is a loop here, or two
methods where its body is long. Where the source works on shared fields under a mutex, the section is
a method proved equal to a step of the value model, and safety is proved over the steps.

## Where the code departs from what is said about it

- `docs/src/misc.rst` of libuv says that `uv_utf16_to_wtf8` reports the size it needs with
  `UV_ENOBUFS`. If the given buffer has some room, but not enough for the first character, the report
  is too large by the size of the buffer. `Wtf8.AskedExactly` gives the exact condition and
  `Wtf8.AskedTooMuch` an input.
- The JSON parser frees each element and member value after it has stored a copy of it, and
  `json_free` always frees the place that a value stands in, also inside an array or an object.
  Freeing a container that is not empty is therefore undefined behaviour (`JsonMemory.FreeExactly`).
  So is reading a container that is not empty inside another or with text behind it, a repeated key,
  or a null in a container; `Json.ArrayInArray`, `Json.ObjectInObject`,
  `Json.RepeatedKeyLost`, `Json.NullInArray` and `Json.TrailingText` are inputs. `Json.RoundTrip` gives
  the exact condition for a value to come back. What the grammar alone would give back, up to 100
  levels, is `Json.GrammarRoundTrip`; `Json.NestedBack` sets the two side by side.
- `json_stringify` prints `null`, but `parse_null` stores no value (`Json.NullLost`).
- `uv__utf8_decode1` takes some malformed sequences for characters, for two reasons: the marks of the
  continuation bytes are tested only through their exclusive or, and the switch over the length falls
  through, so that a character of which too few bytes are left is read as a shorter one.
  `Utf8.Decode1Exactly` says exactly when what is accepted is well formed, `Utf8.WellFormedExactly`
  says it of whole texts, and `Utf8.UnmarkedAccepted`, `Utf8.TruncatedThree` and
  `Utf8.TruncatedFour` are inputs of both kinds. The results on labels hold for whatever decodes.
- An ASCII label that begins with `xn--` is passed through by `uv__idna_toascii`, and whoever reads it
  takes it for an encoded one. `Idna.LabelRoundTrip` and `Idna.DomainRoundTrip` give the exact
  condition, `Idna.PrefixedLost` an input.

## Model

| member | source | states |
|---|---|---|
| `QueueRing.InsertTail` | depend/libuv-1.48.0/src/queue.h:77-83 | a node that is in no ring becomes the last of the ring of h; every link of the longer ring is right in both directions |
| `QueueRing.InsertHead` | depend/libuv-1.48.0/src/queue.h:69-75 | the same at the front |
| `QueueRing.Remove` | depend/libuv-1.48.0/src/queue.h:85-88 | the ring that is left holds the other nodes in their order, whether the node stood in a queue or was alone |
| `QueueRing.Split` | depend/libuv-1.48.0/src/queue.h:51-60 | one ring becomes two: the nodes before the split point stay with h, those from it on go to n, in order |
| `QueueRing.Move` | depend/libuv-1.48.0/src/queue.h:62-67 | n takes over the whole ring of h, empty or not, and h is empty |
| `QueueRing.Add` | depend/libuv-1.48.0/src/queue.h:44-49 | the ring of n is appended to that of h |
| `IntrusiveHeap.PathTo` | depend/libuv-1.48.0/src/heap-inl.h:119-124 | the path read off the bits of the element count leads, followed from the root, to exactly that level-order slot |
| `IntrusiveHeap.Heap.Walk` | depend/libuv-1.48.0/src/heap-inl.h:126-136 | following the path ends at the address of the pointer of that slot, with the address of the pointer one level up beside it |
| `IntrusiveHeap.Heap.NodeSwap` | depend/libuv-1.48.0/src/heap-inl.h:72-104 | exchanging a node with its parent is the exchange of two slots of the complete tree, whatever nodes are around them; all links stay doubly right |
| `IntrusiveHeap.SwapUp` | depend/libuv-1.48.0/src/heap-inl.h:145-147 | a step up moves the only unordered edge one level towards the root |
| `IntrusiveHeap.SwapDown` | depend/libuv-1.48.0/src/heap-inl.h:216-229 | exchange with the smaller child moves the disorder one level down and repairs it behind |
| `IntrusiveHeap.ReplaceOrder` | depend/libuv-1.48.0/src/heap-inl.h:195-214 | the last node put in the place of any other leaves disorder around that place only, above or below it, so that both later loops are needed |
| `IntrusiveHeap.RootIsLeast` | depend/libuv-1.48.0/src/heap-inl.h:67-69 | no node of an ordered heap is less than the one in slot 1 |
| `IntrusiveHeap.Heap.Insert` | depend/libuv-1.48.0/src/heap-inl.h:107-148 | the tree stays complete, doubly linked and min-ordered and holds exactly the old nodes and the new one |
| `IntrusiveHeap.Heap.Remove` | depend/libuv-1.48.0/src/heap-inl.h:150-237 | for any node of the heap: complete, doubly linked, min-ordered, and exactly that node is gone |
| `IntrusiveHeap.Heap.Dequeue` | depend/libuv-1.48.0/src/heap-inl.h:239-241 | the least node is gone |
| `TimerSpec.ClampSaturates` | depend/libuv-1.48.0/src/timer.c:78-80 | the due time is the exact sum, or all ones exactly when the 64-bit sum would wrap |
| `TimerSpec.StartOverwrites` | depend/libuv-1.48.0/src/timer.c:68-95 | what a start does to an active timer is what it does to a stopped one |
| `TimerSpec.ApplyWellFormed` | depend/libuv-1.48.0/src/timer.c:58-128 | every operation keeps active timers distinguishable by (timeout, start id) and the ready queue free of active timers |
| `TimerSpec.ApplyReady` | depend/libuv-1.48.0/src/timer.c:98-123 | an operation takes a timer out of the ready queue exactly if it stops, closes, restarts or re-arms it |
| `TimerSpec.CollectedOnce` | depend/libuv-1.48.0/src/timer.c:174-183 | the ready queue of a pass is determined: the due timers in the order of timer_less_than, whatever shape the heap has |
| `TimerSpec.RunTimersPass` | depend/libuv-1.48.0/src/timer.c:165-195 | whatever the callbacks do to old timers and to ones they initialise, a pass fires every timer at most once, only timers due when it began, in strictly ascending (timeout, start id), and leaves out a due timer exactly if an earlier callback stopped, closed, restarted or re-armed it |
| `TimerSpec.RepeatRearmed` | depend/libuv-1.48.0/src/timer.c:185-194 | before its callback a repeating timer is active again, due one repeat interval from now, behind all timers started before |
| `TimerLoop.Loop.StartTimer` | depend/libuv-1.48.0/src/timer.c:68-95 | on the shared storage: an active timer is a node of the heap and an inactive one a ring link, before and after; UV_EINVAL exactly for a closing handle or a missing callback, and then nothing changes |
| `TimerLoop.Loop.StopTimer` | depend/libuv-1.48.0/src/timer.c:98-110 | the storage changes from heap node to lone ring link, or leaves the ready ring; the abstract state changes as specified |
| `TimerLoop.Loop.AgainTimer` | depend/libuv-1.48.0/src/timer.c:113-123 | UV_EINVAL exactly without a callback; otherwise a repeating timer is stopped and started with its repeat value |
| `TimerLoop.Loop.CloseTimer` | depend/libuv-1.48.0/src/timer.c:198-200 | closing stops the timer |
| `TimerLoop.Loop.NextTimeout` | depend/libuv-1.48.0/src/timer.c:144-162 | -1 exactly if no timer is active; otherwise the time until the first active timer is due, not less than 0 and cut off at INT_MAX |
| `TimerLoop.Loop.RunTimers` | depend/libuv-1.48.0/src/timer.c:165-195 | the two loops over heap and ring terminate and do what TimerSpec.Fire and TimerSpec.Collected say, for callbacks that perform any operations, uv_timer_init among them |
| `PoolProof.SectionEffect` | depend/libuv-1.48.0/src/threadpool.c:71-117 | for every queue a worker may find: it sleeps only if the wait condition holds of the queue it leaves, moves the marker without losing work, and takes slow work only below the threshold |
| `PoolProof.ScheduledStep` | depend/libuv-1.48.0/src/threadpool.c:57-160 | every step keeps both counters exact, the marker linked while slow work is pending, and no wakeup lost |
| `PoolProof.InvariantStep` | depend/libuv-1.48.0/src/threadpool.c:57-345 | every step of workers, submitters, cancellers and loops keeps the whole invariant |
| `PoolProof.EveryRun` | depend/libuv-1.48.0/src/threadpool.c:57-345 | so it holds in every state of every run, for any number of workers, loops and requests |
| `PoolProof.NeverAllAsleep` | depend/libuv-1.48.0/src/threadpool.c:71-78 | never are all live workers asleep and unsignalled while the condition they wait for is over |
| `PoolProof.SlowWorkBounded` | depend/libuv-1.48.0/src/threadpool.c:45-117 | slow_io_work_running is the number of workers on slow work, at most (nthreads + 1) / 2, so that with two workers one is never slow; while slow work is pending the marker is linked exactly once |
| `PoolProof.QueuedWorkHasWorker` | depend/libuv-1.48.0/src/threadpool.c:142-160 | a request in either queue always has a worker awake or the pool has been shut down |
| `PoolProof.DoneWorkIsNotified` | depend/libuv-1.48.0/src/threadpool.c:126-131 | a finished request waits only for a loop that has been notified or is about to look |
| `PoolProof.DeliveredOnce` | depend/libuv-1.48.0/src/threadpool.c:281-335 | a request is delivered at most once, with UV_ECANCELED exactly if a cancel succeeded, and exactly the others have run |
| `PoolProof.CancelSucceedsIff` | depend/libuv-1.48.0/src/threadpool.c:281-305 | cancelling succeeds exactly for requests that no worker has taken, or that are cancelled already and not delivered |
| `PoolProof.RunsOnce` | depend/libuv-1.48.0/src/threadpool.c:80-121 | a step runs a request only if it is queued, not cancelled and has not run |
| `ThreadPool.Pool.PostRequest` | depend/libuv-1.48.0/src/threadpool.c:142-160 | post over the fields is the specified step, the early return included |
| `ThreadPool.Pool.Worker` | depend/libuv-1.48.0/src/threadpool.c:57-139 | the loop of a worker between lock and unlock does the specified step to every field |
| `Async.InvariantStep` | depend/libuv-1.48.0/src/unix/async.c:46-178 | every atomic operation of any sender and of the loop keeps: busy is the number of senders inside, and a pending open handle has its wakeup on the way |
| `Async.EveryRun` | depend/libuv-1.48.0/src/unix/async.c:46-178 | so it holds in every state of every run |
| `Async.WakeupNotLost` | depend/libuv-1.48.0/src/unix/async.c:65-178 | while an open handle is pending, the descriptor is readable, a sender is between its exchange and its write, or the loop has that handle to visit in the current pass |
| `Async.CallsAnswerSends` | depend/libuv-1.48.0/src/unix/async.c:72-174 | every change of pending from 0 to 1 is answered by one callback, and only the visit clears it |
| `Async.NoWriteAfterSpin` | depend/libuv-1.48.0/src/unix/async.c:92-129 | after uv__async_spin has returned no sender is ever again about to write for that handle, however far it had come |
| `Barrier.InvariantStep` | depend/libuv-1.48.0/src/thread-common.c:98-119 | every step, spurious wakeups included, keeps in and out below the threshold, one of them zero, and both equal to the number of counted threads |
| `Barrier.EveryRun` | depend/libuv-1.48.0/src/thread-common.c:85-120 | so it holds in every state of every run |
| `Barrier.NoEarlyReturn` | depend/libuv-1.48.0/src/thread-common.c:98-119 | a call returns only when threshold calls have been counted into its round |
| `Barrier.RoundsDoNotOverlap` | depend/libuv-1.48.0/src/thread-common.c:98-119 | all calls of a round have returned, exactly one with a non-zero result, before the next round counts one |
| `Barrier.NobodyLeftAsleep` | depend/libuv-1.48.0/src/thread-common.c:100-116 | no thread sleeps once the condition it waits for is over |
| `BarrierWait.UvBarrier.Wait` | depend/libuv-1.48.0/src/thread-common.c:98-119 | a call over the fields of the barrier, up to its first wait or its return, is the specified step; the result is non-zero exactly in the step that ends the round |
| `BarrierWait.UvBarrier.Resume` | depend/libuv-1.48.0/src/thread-common.c:100-119 | the same for a call that goes on after a wait |
| `BoundedPool.InvariantStep` | src/thread/threadpool_module.c:34-312 | every step keeps the counters exact, the limit, and a wakeup given or owed for everyone who could go on |
| `BoundedPool.EveryRun` | src/thread/threadpool_module.c:34-312 | so it holds in every state of every run |
| `BoundedPool.NeverStuck` | src/thread/threadpool_module.c:228-312 | while work is queued or a submitter is blocked, a worker or a submitter is awake |
| `BoundedPool.NothingLost` | src/thread/threadpool_module.c:34-312 | queued_work is the length of both queues and at most the limit; every accepted item is queued, running or finished exactly once; ordinary items are taken in the order accepted |
| `WorkQueues.Pool.SubmitWork` | src/thread/threadpool_module.c:228-272 | on the linked lists: the walk to the last item and the counters are the specified step |
| `WorkQueues.Pool.SubmitPriorityWork` | src/thread/threadpool_module.c:275-312 | a priority item goes to the head of its list; both lists stay well linked and apart |
| `WorkQueues.Pool.Fetch` | src/thread/threadpool_module.c:34-64 | a worker takes the first priority item, or else the first ordinary one, or sleeps |
| `WorkQueues.Pool.Finish` | src/thread/threadpool_module.c:72-75 | the section after the work function is the specified step |
| `MessageQueue.InsertDescending` | src/thread/thread_comm_module.c:901-923 | insertion keeps the priorities descending and adds exactly the one message |
| `MessageQueue.InsertLevel` | src/thread/thread_comm_module.c:901-923 | insertion appends to the level of its priority and leaves every other level as it is |
| `MessageQueue.Levels` | src/thread/thread_comm_module.c:901-923 | the queue is its levels one after the other, highest first: the stable order |
| `MessageQueue.ApplySplits` | src/thread/thread_comm_module.c:875-970 | one operation on the queue is the same operation on four FIFOs, with the same report |
| `MessageQueue.RunIsFifoPerPriority` | src/thread/thread_comm_module.c:875-1569 | any sequence of enqueue, dequeue and clear reports what one FIFO per priority, served highest first, would report |
| `MessageQueue.Queue.Enqueue` | src/thread/thread_comm_module.c:875-931 | on the doubly linked list: refused exactly when full, otherwise the stable insertion; all links, head, tail and size right |
| `MessageQueue.Queue.Dequeue` | src/thread/thread_comm_module.c:933-970 | -1 exactly on the empty queue, otherwise the first message |
| `MessageQueue.Queue.Clear` | src/thread/thread_comm_module.c:1556-1565 | the loop empties the queue and terminates |
| `Utf8.Decode1Encode1` | depend/libuv-1.48.0/src/idna.c:71-149 | the decoder reads back every scalar value from its UTF-8 form, whatever follows |
| `Utf8.DecodeEncode` | depend/libuv-1.48.0/src/idna.c:138-149 | and so every text |
| `Utf8.Decode1Exactly` | depend/libuv-1.48.0/src/idna.c:71-149 | an accepted character is the UTF-8 form of its code point (section 3 of RFC 3629) if and only if it has the length its first byte calls for and each further byte has its mark |
| `Utf8.WellFormedExactly` | depend/libuv-1.48.0/src/idna.c:71-149 | among all byte sequences the well-formed ones are exactly those that decode and pass that test throughout |
| `Utf8.UnmarkedAccepted` | depend/libuv-1.48.0/src/idna.c:117-118 | bytes without a mark that are taken for a character: the test looks only at their exclusive or |
| `Utf8.TruncatedThree` | depend/libuv-1.48.0/src/idna.c:82-115 | a three-byte character broken off after two bytes that is taken for another one: the switch falls through |
| `Utf8.TruncatedFour` | depend/libuv-1.48.0/src/idna.c:82-115 | the same with a four-byte character broken off after three |
| `Utf8.Decode1Cut` | depend/libuv-1.48.0/src/idna.c:71-149 | the decoder does not look behind the character it returns |
| `Utf8.TiledSlice` | depend/libuv-1.48.0/src/idna.c:331-360 | a label cut out of a text at character boundaries decodes to the same characters |
| `Punycode.IntegerRoundTrip` | depend/libuv-1.48.0/src/idna.c:261-287 | a delta written as a variable-length integer is read back (section 5 of RFC 3492), whatever follows |
| `Punycode.PlaceAt` | depend/libuv-1.48.0/src/idna.c:240-311 | where the encoder stands in its walk is where the decoder inserts (sections 6.2 and 6.3 of RFC 3492) |
| `Punycode.ScanReplays` | depend/libuv-1.48.0/src/idna.c:249-308 | one walk over the label for one code point, decoded, inserts that code point at all its positions |
| `Punycode.RoundTrip` | depend/libuv-1.48.0/src/idna.c:197-314 | decoding by section 6.2 of RFC 3492 undoes the encoding, for every label |
| `Idna.PutInteger` | depend/libuv-1.48.0/src/idna.c:261-287 | the digit loop writes exactly that integer, and nothing in its 32-bit arithmetic wraps |
| `Idna.AdaptBias` | depend/libuv-1.48.0/src/idna.c:289-305 | the bias adaptation of section 6.1 of RFC 3492, for every delta |
| `Idna.GuardIsExact` | depend/libuv-1.48.0/src/idna.c:240-246 | the test before delta is raised fails exactly if the sum would pass 2^32 - 1, and wraps nowhere itself (section 6.4 of RFC 3492) |
| `Idna.TooBigRound` | depend/libuv-1.48.0/src/idna.c:227-312 | a walk stopped by the guard is one whose delta does not fit 32 bits, and the other way round |
| `Idna.PutExtended` | depend/libuv-1.48.0/src/idna.c:222-314 | the main loop writes the digits of all deltas, or answers UV_E2BIG exactly if some delta is past 2^32 - 1 |
| `Idna.ToAsciiLabel` | depend/libuv-1.48.0/src/idna.c:152-315 | for any bytes: UV_EINVAL for text that does not decode, otherwise the label itself or its xn-- form is written |
| `Idna.LabelRoundTrip` | depend/libuv-1.48.0/src/idna.c:152-315 | a reader that decodes behind xn-- recovers the characters of a label from what is written for it if and only if it is not an ASCII label that begins with xn-- itself |
| `Idna.DomainRoundTrip` | depend/libuv-1.48.0/src/idna.c:318-367 | such a reader, taking the name apart at its full stops, recovers all labels in order if and only if none of them is of that kind |
| `Idna.PrefixedLost` | depend/libuv-1.48.0/src/idna.c:197-215 | a label of that kind, written unchanged and read as something else |
| `Idna.ToAscii` | depend/libuv-1.48.0/src/idna.c:318-367 | a non-negative result means that the whole encoded name and its NUL are in the buffer and nothing was dropped; otherwise the error is that of the first label in error, if it ends before any bytes that do not decode, and UV_EINVAL for such bytes, for an empty name and for lack of space |
| `Idna.Output.Put` | depend/libuv-1.48.0/src/idna.c:207-208 | a byte is stored if there is room, and otherwise dropped; what has been asked for is remembered |
| `Wtf8.Decode1Encode1` | depend/libuv-1.48.0/src/idna.c:28-68 | uv__wtf8_decode1 reads back every code point, lone surrogates included |
| `Wtf8.RoundTrip` | depend/libuv-1.48.0/src/idna.c:28-560 | the WTF-8 text of any UTF-16, decoded character by character, gives the code points with surrogates paired |
| `Wtf8.Advance` | depend/libuv-1.48.0/src/idna.c:412-424 | each iteration takes the next code point, one unit or a surrogate pair, in counted and in NUL-terminated mode |
| `Wtf8.Length` | depend/libuv-1.48.0/src/idna.c:427-457 | the length is that of the WTF-8 text |
| `Wtf8.Fill` | depend/libuv-1.48.0/src/idna.c:494-560 | a buffer holds as much of the text as fits and a NUL, never past its end; UV_ENOBUFS exactly if it is too small |
| `Wtf8.Utf16ToWtf8` | depend/libuv-1.48.0/src/idna.c:460-560 | with nowhere to write: always succeeds, writes exactly the length asked for, and a NUL |
| `Wtf8.AskedTooMuch` | depend/libuv-1.48.0/src/idna.c:535-557 | a three-byte character and a buffer of one byte: four bytes are asked for |
| `Wtf8.AskedExactly` | depend/libuv-1.48.0/src/idna.c:535-557 | the size reported with UV_ENOBUFS is the right one if and only if the buffer had no room at all or room for the first character |
| `Inet.Pton4Exactly` | depend/libuv-1.48.0/src/inet.c:175-211 | inet_pton4 accepts a text if and only if it is what inet_ntop4 prints for the four bytes it returns |
| `Inet.RoundTrip` | depend/libuv-1.48.0/src/inet.c:62-298 | inet_pton6 of the text of an address gives the same 16 bytes, for every address and whichever run of zeros is left out, IPv4 tails included |
| `Inet.DigitsRead` | depend/libuv-1.48.0/src/inet.c:235-243 | up to four hexadecimal digits are read as the number they spell |
| `Inet.DottedReads` | depend/libuv-1.48.0/src/inet.c:262-270 | an IPv4 tail is read as four bytes although its first octet has been read as a hexadecimal word |
| `InetText.Ntop4` | depend/libuv-1.48.0/src/inet.c:48-59 | the dotted form, or UV_ENOSPC exactly if it does not fit |
| `InetText.FindBest` | depend/libuv-1.48.0/src/inet.c:83-106 | the leftmost longest run of at least two zero words (section 4.2 of RFC 5952) |
| `InetText.Format` | depend/libuv-1.48.0/src/inet.c:108-141 | the loop writes the text of section 2.2 of RFC 4291, and never past its 46 bytes |
| `InetText.Ntop6` | depend/libuv-1.48.0/src/inet.c:62-143 | the text with a NUL, or UV_ENOSPC exactly if it does not fit, and then nothing is written |
| `InetText.ReadDotted` | depend/libuv-1.48.0/src/inet.c:175-211 | the loop of inet_pton4 decides and stores what Pton4 says |
| `InetText.Shift` | depend/libuv-1.48.0/src/inet.c:283-292 | the bytes behind the :: move to the end of the buffer in place and zeros fill the gap |
| `InetText.ReadAddress` | depend/libuv-1.48.0/src/inet.c:214-298 | the loop of inet_pton6 decides and stores what Pton6 says, and leaves the target alone on UV_EINVAL |
| `JsonMemory.InsideNever` | src/json/json_parser_module.c:571-598 | json_free of a value that stands inside a block, and not at its start, is undefined, whatever the value |
| `JsonMemory.ArrayNever` | src/json/json_parser_module.c:600-612 | freeing an array that is not empty is undefined: the first element is freed with the block it begins, and the block is used or freed again |
| `JsonMemory.ObjectNever` | src/json/json_parser_module.c:614-627 | freeing an object that is not empty is undefined: the value of the first pair stands behind its key |
| `JsonMemory.FreeExactly` | src/json/json_parser_module.c:571-627 | json_free of a value in a block of its own is defined if and only if the value is a scalar or an empty container, and then frees exactly the blocks of the value |
| `JsonMemory.CopyRemains` | src/json/json_parser_module.c:367-371 | the copy that was stored stays whole when the original is freed |
| `JsonMemory.Heap.JsonFree` | src/json/json_parser_module.c:571-598 | the code, on a heap of live blocks, does what FreeValue says or stops where behaviour is undefined |
| `JsonMemory.Heap.JsonFreeArray` | src/json/json_parser_module.c:600-612 | its loop over the elements |
| `JsonMemory.Heap.JsonFreeObject` | src/json/json_parser_module.c:614-627 | its loop over the pairs |
| `JsonMemory.Release` | src/json/json_parser_module.c:961 | run on a value just laid out in memory it is valid exactly for a scalar or an empty container |
| `JsonMemory.ReleaseMember` | src/json/json_parser_module.c:435 | run on a member value in its place it never is |
| `Json.UnescapeEscape` | src/json/json_parser_module.c:1076-1105 | unescaping undoes escaping, for every NUL-free string |
| `Json.ValueBack` | src/json/json_parser_module.c:766-1031 | what becomes of the printed form of any value, nulls, repeated keys, depth and invalid frees included, whatever follows; both for the code and for its grammar alone |
| `Json.RereadExactly` | src/json/json_parser_module.c:766-1031 | by the grammar alone a value comes back if and only if it is storable |
| `Json.GrammarRoundTrip` | src/json/json_parser_module.c:766-1031 | if no memory were freed, printing and parsing would give the value back if and only if it has no null, nests at most 100 deep and has distinct keys in every object |
| `Json.RoundTrip` | src/json/json_parser_module.c:44-1105 | printing and parsing gives the value back, with every free valid, if and only if it is storable in that sense and every element or member value of it is a scalar or an empty container |
| `Json.Refines` | src/json/json_parser_module.c:44-1105 | on any text the code does what its grammar says or something undefined |
| `Json.NullLost` | src/json/json_parser_module.c:1065-1074 | null is printed and nothing is stored when it is read |
| `Json.NullInArray` | src/json/json_parser_module.c:953-961 | a null in an array: a pointer that was not set is copied from and freed |
| `Json.ArrayInArray` | src/json/json_parser_module.c:960-961 | an array in an array: undefined, where the grammar gives it back |
| `Json.ObjectInObject` | src/json/json_parser_module.c:897-899 | an object in an object: undefined, where the grammar gives it back |
| `Json.RepeatedKeyLost` | src/json/json_parser_module.c:431-441 | an object with the same key twice: undefined, where the grammar replaces the value |
| `Json.TrailingText` | src/json/json_parser_module.c:67-76 | text behind an array: undefined, where the grammar gives an error |
| `Json.NestedGrammar` | src/json/json_parser_module.c:834-989 | by the grammar n + 1 nested arrays come back if and only if n is less than 100 |
| `Json.NestedBack` | src/json/json_parser_module.c:834-989 | in fact one and two come back, from three to a hundred are undefined, and more are refused as too deep |
| `JsonText.StringifyString` | src/json/json_parser_module.c:155-181 | the escaping loop writes the quoted form into a block that is always large enough |
| `JsonText.StringifyArray` | src/json/json_parser_module.c:183-211 | with every realloc size sufficient |
| `JsonText.StringifyObject` | src/json/json_parser_module.c:213-245 | with every realloc size sufficient |
| `JsonText.StringifyValue` | src/json/json_parser_module.c:133-250 | the text is Stringify of the value |
| `JsonText.UnescapeString` | src/json/json_parser_module.c:1076-1105 | the in-place copy is the unescaped text and ends with its NUL |
| `JsonText.ObjectValue.Set` | src/json/json_parser_module.c:423-461 | a new key goes to the end; for a known key the old value is freed in its place, which is undefined |
| `JsonText.Parser.ParseText` | src/json/json_parser_module.c:991-1031 | the string up to the closing quote, or the exact error |
| `JsonText.Parser.ParseArray` | src/json/json_parser_module.c:929-989 | the elements, or the exact error, or exactly where it is undefined the free of an element that is a container and not empty; the depth counter is restored on every path and every iteration advances |
| `JsonText.Parser.ParseObject` | src/json/json_parser_module.c:834-927 | the members, or the exact error, or exactly where it is undefined the free of a member value or of one it replaces; the depth counter is restored on every path and every iteration advances |
| `JsonText.Parser.ParseValue` | src/json/json_parser_module.c:766-832 | the mutable parser does what the parsing function says, undefined behaviour included |
| `JsonText.ParseJson` | src/json/json_parser_module.c:44-80 | json_parse returns 0 with the value, or -1 with the error that was met, or comes to an invalid free exactly where Parse is undefined; at a numeral outside the model, 0 without an error or -1 with one |
| `SplayTree.Head.RotateRight` | depend/libuv-1.48.0/include/uv/tree.h:88-92 | the rotation keeps the three parts and the order of the tree |
| `SplayTree.Head.LinkLeft` | depend/libuv-1.48.0/include/uv/tree.h:100-104 | the root and what is right of it join the right part |
| `SplayTree.Head.Assemble` | depend/libuv-1.48.0/include/uv/tree.h:112-117 | the parts become one tree with the same order again |
| `SplayTree.Head.SplayLoop` | depend/libuv-1.48.0/include/uv/tree.h:215-240 | the loop terminates with the node nearest to the key as the root of the middle part |
| `SplayTree.Head.Splay` | depend/libuv-1.48.0/include/uv/tree.h:209-242 | the in-order sequence is unchanged and the key, or else an in-order neighbour of it, is at the root |
| `SplayTree.NearestFinds` | depend/libuv-1.48.0/include/uv/tree.h:133-136 | so one comparison at the root decides whether the key is in the tree |
| `SplayTree.Head.Find` | depend/libuv-1.48.0/include/uv/tree.h:129-137 | the node with the key, or null exactly if there is none |
| `SplayTree.Head.Insert` | depend/libuv-1.48.0/include/uv/tree.h:164-186 | sorted-set insertion: the sequence gets the element at its place, or the equal one is returned |
| `SplayTree.Head.Remove` | depend/libuv-1.48.0/include/uv/tree.h:188-207 | sorted-set deletion: exactly the node with the key leaves the sequence; null exactly if there is none |
| `SplayTree.InOrderIsStretch` | depend/libuv-1.48.0/include/uv/tree.h:64-117 | the sequence of the model is the in-order walk of the pointers |
| `RedBlackModel.TurnLeftLinked` | depend/libuv-1.48.0/include/uv/tree.h:342-360 | a left rotation keeps search-tree shape and parent links for all nodes |
| `RedBlackModel.TurnRightLinked` | depend/libuv-1.48.0/include/uv/tree.h:362-380 | and so does a right one |
| `RedBlackModel.RecolorKeeps` | depend/libuv-1.48.0/include/uv/tree.h:416-421 | with a red uncle the only red node under a red one moves two levels up |
| `RedBlackModel.InnerLeft` | depend/libuv-1.48.0/include/uv/tree.h:422-427 | straightening an inner grandchild keeps the invariant of the loop |
| `RedBlackModel.OuterRightKeeps` | depend/libuv-1.48.0/include/uv/tree.h:428-429 | the last rotation leaves no red node under a red parent and black heights equal |
| `RedBlackModel.InsertDone` | depend/libuv-1.48.0/include/uv/tree.h:448 | blackening the root ends in a valid tree |
| `RedBlackModel.ShrinkKeeps` | depend/libuv-1.48.0/include/uv/tree.h:465-471 | a red sibling for a black one moves the missing black one level up |
| `RedBlackModel.RaiseLeft` | depend/libuv-1.48.0/include/uv/tree.h:460-464 | a rotation over a red sibling keeps the shortage where it is and makes the sibling black |
| `RedBlackModel.NephewLeft` | depend/libuv-1.48.0/include/uv/tree.h:473-482 | a red near nephew is turned into a far one |
| `RedBlackModel.SettleLeft` | depend/libuv-1.48.0/include/uv/tree.h:483-489 | the last rotation makes all black heights equal |
| `RedBlackModel.RemoveDone` | depend/libuv-1.48.0/include/uv/tree.h:526-527 | blackening the node that stopped the loop ends in a valid tree |
| `RedBlackShift.AddLeafLinked` | depend/libuv-1.48.0/include/uv/tree.h:616-624 | a leaf hung below a node with room is in order exactly at that place |
| `RedBlackShift.DropLinked` | depend/libuv-1.48.0/include/uv/tree.h:533-593 | a node with at most one child leaves a tree of the others in order |
| `RedBlackShift.DropBlack` | depend/libuv-1.48.0/include/uv/tree.h:590-593 | and if it was black, exactly the loop invariant of RB_REMOVE_COLOR holds, at its parent |
| `RedBlackShift.HeightBound` | depend/libuv-1.48.0/include/uv/tree.h:60-61 | the height is at most 2 * log2(n + 1) |
| `RedBlack.Tree.RotateLeft` | depend/libuv-1.48.0/include/uv/tree.h:342-360 | on the pointers: the rotation of the model, with parent links and root |
| `RedBlack.Tree.RotateRight` | depend/libuv-1.48.0/include/uv/tree.h:362-380 | the mirror image |
| `RedBlack.Tree.InsertColor` | depend/libuv-1.48.0/include/uv/tree.h:407-449 | the loop terminates and ends in a valid tree of the same sequence |
| `RedBlack.Tree.Insert` | depend/libuv-1.48.0/include/uv/tree.h:598-626 | on any valid tree: order, parent links, colours and black heights are valid again and the sequence has exactly the new element more, or the equal element is returned and nothing changes |
| `RedBlack.Tree.RemoveColor` | depend/libuv-1.48.0/include/uv/tree.h:451-527 | the loop terminates and ends in a valid tree of the same sequence |
| `RedBlack.Tree.Remove` | depend/libuv-1.48.0/include/uv/tree.h:530-595 | on any valid tree and for any of its nodes: valid again, and the sequence is exactly without that node, which is returned |
| `RedBlack.Tree.Find` | depend/libuv-1.48.0/include/uv/tree.h:628-644 | the node with the key, or null exactly if there is none |
| `RedBlack.Tree.FindNext` | depend/libuv-1.48.0/include/uv/tree.h:647-665 | the first node whose key is not less, or null exactly if there is none |
| `RedBlack.Tree.Next` | depend/libuv-1.48.0/include/uv/tree.h:668-687 | the in-order successor, or null at the end |

## Left out

- TimerLoop.Loop.StartTimer: the start counter does not wrap; it would take 2^64 starts.
- TimerLoop.Loop.RunTimers: memory that a callback initialises as a timer exists when the pass begins.
- IntrusiveHeap.Heap.Insert: the element count is unbounded and the comparison is `timer_less_than`, the one the timers use, instead of any function.
- SplayTree.Head.Splay: keys are integers, standing for any comparison function that is a total order.
- RedBlack.Tree.Insert: keys are integers, as above; the empty `RB_AUGMENT` hook is not modelled.
- PoolProof.EveryRun: requests are identified by name and submitted once, work and done callbacks have no effect on the pool, and semaphores of thread start-up are not modelled.
- PoolProof.CancelSucceedsIff: only for calls from the loop's own thread before delivery, as libuv requires.
- Async.EveryRun: every access is sequentially consistent, also the first, relaxed read of `uv_async_send`; handles have a callback; `uv__async_stop` and `uv__async_fork` are not modelled.
- Async.NoWriteAfterSpin: a handle is not initialised again after it was closed.
- Async.InvariantStep: on values only, as each step is a single atomic operation; the ring of handles is a sequence, its code is in `QueueRing`.
- Barrier.EveryRun: creation and destruction, and the test for a null pointer, are not modelled.
- BoundedPool.EveryRun: before shutdown and with a fixed limit; that shutdown drops queued work is not modelled.
- WorkQueues.Pool.SubmitWork: work functions are names, allocation succeeds and a missing pool or function is not modelled.
- MessageQueue.RunIsFifoPerPriority: clear is one operation; between its dequeues others may run, which are then further operations of the sequence.
- MessageQueue.Queue.Dequeue: the copying of message data and its release are not modelled.
- Idna.ToAscii: for inputs shorter than 2^32 bytes, the range of the unsigned counters.
- Wtf8.RoundTrip: the way back is the single-character decoder; `uv_wtf8_to_utf16` is not modelled.
- InetText.Ntop6: `snprintf` and `strchr` are taken at their documented meaning; the scope identifier that `uv_inet_pton` cuts off at a percent sign is not modelled.
- Json.RoundTrip: numbers are 32-bit integers; other numerals are read as an unknown value, and what `strtod` takes for a numeral is over-approximated by it. What comes behind such a numeral is not modelled.
- JsonText.ParseJson: allocation succeeds, the pointer passed in is not set, and memory that is never freed is not counted.
- JsonMemory.Heap.JsonFree: in `Release` and `ReleaseMember` a value is laid out in fresh blocks; that the containers under construction hold such layouts is not carried through the parser.
- The rest of the JSON module: files, merging, cloning and getters are easy or foreign calls.
- `SPLAY_NEXT`, `SPLAY_MIN_MAX`, `RB_PREV` and `RB_MINMAX`: mirror images or part of what is proved.
- Sockets, files, System V IPC, HTTP serving, logging, platform files and polling: I/O and foreign calls; the wakeup descriptor is a counter.
- Clocks, signals, creation of threads and allocation failure: time is an input, the others are taken to work.
- The XML parser, memory pool, database, configuration, logger and module manager: easy, or foreign calls.
- The rest of the thread communication module: mostly stubs.
