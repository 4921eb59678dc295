# A verified model of the otrix kernel

otrix is a small single-core kernel with its own heap allocator, scheduler, blocking
primitives, virtio driver and TCP/IP stack. This project models the parts of it that carry
state from call to call and proves what they keep over whole runs. Code that works in place
is modelled in place: a class holds the fields, its methods follow the source statement by
statement, and each method is proved against a specification function. The theorems about
runs are lemmas over those functions.

`dafny verify dfyconfig.toml` checks the whole project.

## What is proved, part by part

- **Intrusive lists and the heap** (`Memory`, `IntrusiveList`, `HeapModel`, `HeapRuns`,
  `KmemMemory`, `Kmem`). Memory is a map from byte addresses to 64-bit words; a store destroys
  every word it overlaps. The list operations are proved on rings in that memory. The
  allocator is proved to keep an address-ordered ring of free blocks in the heap's own bytes,
  and free blocks, live blocks and slack partition the heap after every run.
- **Split virtqueue** (`VirtqueueModel`, `VirtqueueProof`, `Virtqueue`, `VirtqueueLayout`). A
  sender, the interrupt handler and a device interleave statement by statement. Every accepted
  buffer is answered at most once with its own context, address and length, across any number
  of wraps of the 16-bit indices.
- **Scheduler and blocking primitives** (`SchedulerModel`, `Scheduler`, `WaitQueue`, `Mutex`,
  `MsgQueue`, `RingBuffer`). Each interrupt-off region is one step; any number of threads. The
  scheduler's queues and the wait queues are rings in memory.
- **Hash maps** (`RingFamily`, `HashMap`, `TcpTables`). Buckets and pool are rings sharing one
  memory; the pooled map is a finite map for every hash function.
- **TCP and IP** (`TcpListen`, `TcpDemux`, `TcpReceive`, `TcpRecvWait`, `TcpSend`, `Checksum`,
  `Wire`, `Sockbuf`). Passive open, demultiplexing over the tables in memory, receive
  accounting, segmentation, and the round trip of a packet through the headers and the
  checksum.
- **Clock** (`KvmClock`). The fixed-point conversions, their error bound, and the retry loop
  that reads the host's parameters.

## Properties that do not hold as one might expect

Each is kept as the code has it. The members in brackets give the exact condition, and after a
semicolon an example, except where the condition is about all inputs of one call.

- Freed memory does not always come back: a remainder under 64 bytes is never free again
  (`HeapRuns.NoSlackExactlyWhen`, `RunFreedCompletely`; `SlackExample`).
- `intrusive_list_insert_sorted` puts its node on a ring exactly when the ring had one node
  (`IntrusiveList.InsertSortedLinksOnlyIntoOne`, which fails it for every longer ring).
- A thread that does not hold a mutex may still unlock it harmfully, exactly when the owner
  field names it, which it does right after a handover (`Mutex.UnlockByNonHolder`;
  `SecondUnlockExample`).
- A waiter can be left asleep on a free mutex, exactly through the gap between the owner test
  and the wait (`Mutex.StrandedExactlyByTheGap`; `GapExample`).
- A current thread need not be runnable (`SchedulerModel.CurrentReadyExactlyWhen`;
  `AsleepYetCurrent`).
- A message queue overwrites an unread message exactly when every slot is owed to a reader that
  has been given a token and has not run yet (`MsgQueue.OverwritesExactlyWhen`;
  `OverwriteExample`).
- A segment queued in front of a half-read buffer breaks the receive accounts exactly when it is
  shorter than what has been read (`TcpReceive.SegmentKeepsExactlyWhen`;
  `BrokenAccountsExample`), and otherwise still mixes up the bytes (`QueueContent`;
  `HalfReadExample`).
- A segment delivered twice is counted twice, exactly when it does not start before the new
  acknowledgement number and the window has room (`TcpReceive.TakenOnceExactlyWhen`;
  `TakenTwiceExample`).
- `recv` can sleep with something to read, exactly through the gap between its test and its wait
  (`TcpRecvWait.StrandedExactlyByTheGap`; `GapExample`).
- `recv` returns nothing and keeps its mutex locked exactly past the peer's FIN
  (`TcpReceive.KReceiver.Recv`, for every such state).
- The ACK that follows a SYN+ACK is accepted exactly when the SYN carried no data
  (`TcpListen.SynDataRefused`, for every SYN).
- The handshake payload counts twice against the window; one that fits once but not twice is
  dropped although its connection is opened (`TcpReceive.AcceptedAck`, for every size).
- `ip_checksum` agrees with RFC 1071 exactly when the two halves of the sum add without a
  carry; otherwise the receiver drops the packet (`Checksum.FoldOnceIsRfcExactlyWhen`,
  `Wire.RoundTrip`; `CarryExample`).

## Where code and comments differ

The code is followed. `intrusive_list_push_back` is documented as attaching at the end, but
returns the new node, which every caller stores as the head: it is a prepend, so wait queues
wake the newest waiter. `virtq_create` is documented to report a queue size of zero and does
not; the model starts from a size of at least one.

## Assumptions

- One core; an interrupt-off region is atomic. A context switch changes no scheduler data.
- Virtqueue: the size is a power of two up to 32768, one sender per queue, the completion
  handler does not send on its own queue, the device returns each entry it holds once, and the
  decrement of the free counter is a single step.
- All waits are without a time limit.
- A port is closed, or listened on again, only while no accept call is in progress on it.
- Callers free only what they allocated, add only threads that are in no ring, insert a key only
  after a failed `find`, and destroy only sockets that are in a table.
- Randomness (initial sequence numbers), uninitialised fields (the peer's window in a new
  socket) and the lower layer's result are parameters.

## Model

| member | source | states |
|---|---|---|
| IntrusiveList.RingFrame | common/include/common/list.h:18-21 | a ring survives any change of memory outside its nodes |
| IntrusiveList.InitRing | common/include/common/list.h:29-35 | an initialised node is a ring of one, and no other word changes |
| IntrusiveList.PushBackRing | common/include/common/list.h:55-73 | the node is appended for the old head and prepended for the returned one; only the ring's nodes change; a null head gives a ring of one |
| IntrusiveList.UnlinkRing | common/include/common/list.h:79-87 | the rest is a ring, and unlinking the same node again changes no word |
| IntrusiveList.DeleteRing | common/include/common/list.h:119-131 | the returned head starts the ring without the node, or is null if it was alone |
| IntrusiveList.InsertRing | common/include/common/list.h:163-176 | the node follows the given one in the ring and only ring nodes change |
| IntrusiveList.RotateRing | common/include/common/list.h:18-21 | following next from the head gives the rotated ring |
| IntrusiveList.InsertSortedLinksOnlyIntoOne | common/include/common/list.h:186-218 | into a list that is not empty: the inserted node is on some ring afterwards if and only if the ring had one node |
| IntrusiveList.InsertSortedIntoNone | common/include/common/list.h:191-193 | into an empty list: the returned node is a list if and only if its links were set up before |
| IntrusiveList.NodeMemory.Init | common/include/common/list.h:29-35 | the stores InitRing speaks of |
| IntrusiveList.NodeMemory.PushBack | common/include/common/list.h:55-73 | the stores PushBackRing speaks of; the new node is returned |
| IntrusiveList.NodeMemory.UnlinkNode | common/include/common/list.h:79-87 | the stores UnlinkRing speaks of; nothing for null |
| IntrusiveList.NodeMemory.Delete | common/include/common/list.h:119-131 | the stores and the head DeleteRing speaks of |
| IntrusiveList.NodeMemory.Insert | common/include/common/list.h:163-176 | the stores InsertRing speaks of |
| IntrusiveList.NodeMemory.InsertSorted | common/include/common/list.h:186-218 | the walk ends in front of the first node compared behind the new one, or the head; the stores the two lemmas speak of; the returned head |
| HeapModel.FirstFit | kernel/kmem.cpp:28-40 | every block before the chosen one is too small and the chosen one fits |
| HeapModel.Position | kernel/kmem.cpp:106-112 | exactly the leading blocks not above the pointer are passed |
| HeapModel.InitInv | kernel/kmem.cpp:6-17 | the initial heap is partitioned |
| HeapModel.AllocSound | kernel/kmem.cpp:19-76 | null exactly when no free block holds 64 bytes and the request plus 16; otherwise the lowest fitting block is carved, 64 bytes or the request plus 16 are recorded for it, the payload lies in the heap and overlaps no free, live or slack interval, and the partition is kept |
| HeapModel.AllocLeaves | kernel/kmem.cpp:42-70 | what stays of the carved block: a free block in its place from 64 bytes on, otherwise slack; every other free block stays |
| HeapModel.MergeTwice | kernel/kmem.cpp:127-140 | merging with predecessor and successor leaves no two touching blocks and neither gains nor loses a byte |
| HeapModel.CoalesceSound | kernel/kmem.cpp:102-140 | the free list stays ordered without touching neighbours and gains exactly the block's bytes |
| HeapModel.FreeSound | kernel/kmem.cpp:78-141 | freeing keeps the partition; exactly the recorded bytes of the block become free and slack stays |
| HeapRuns.StepSound | kernel/kmem.cpp:19-141 | each call keeps partition and byte count; slack entries stay and grow by less than 64 bytes, only in an allocation |
| HeapRuns.RunSound | kernel/kmem.cpp:6-141 | after every run the heap is partitioned, free, live and slack bytes sum to its size, and slack is at most 63 bytes an allocation |
| HeapRuns.SlackNeverShrinks | kernel/kmem.cpp:42-73 | slack present at some point of a run is present at every later one |
| HeapRuns.EmptyHeapIsOneBlock | kernel/kmem.cpp:96-140 | the free list is one block covering the heap if and only if nothing is live and there is no slack |
| HeapRuns.NoSlackExactlyWhen | kernel/kmem.cpp:42-73 | a run leaves no slack if and only if every allocation took the first fitting block whole or left at least 64 bytes of it |
| HeapRuns.SlackExample | kernel/kmem.cpp:42-73 | one block allocated and freed in a heap of 100 bytes loses 36 of them |
| HeapRuns.RunFreedCompletely | kernel/kmem.cpp:6-141 | a run that has freed everything it allocated ends in the initial heap if and only if every allocation took the first fitting block whole or left at least 64 bytes of it |
| KmemMemory.DeleteBlock | kernel/kmem.cpp:43-44 | taking a block off the list in memory yields the list without it |
| KmemMemory.ReplaceBlock | kernel/kmem.cpp:50-67 | unlinking a block and inserting its remainder behind the predecessor puts the remainder in its place, also at the head |
| KmemMemory.InsertBlock | kernel/kmem.cpp:120-122 | the block enters the list in memory behind its predecessor |
| KmemMemory.PushBlock | kernel/kmem.cpp:114-119 | the block becomes the head of the list in memory |
| KmemMemory.JoinBlocks | kernel/kmem.cpp:128-140 | adding the sizes and unlinking the second block merges two neighbours in memory |
| KmemMemory.TouchingTest | kernel/kmem.cpp:127-136 | the comparison with the ring neighbour never succeeds around the ends of the ring |
| Kmem.KmemHeap.constructor | kernel/kmem.cpp:6-17 | memory represents a heap with one free block; only heap bytes change |
| Kmem.KmemHeap.FindFit | kernel/kmem.cpp:28-36 | the walk round the ring ends and finds the first fitting block |
| Kmem.KmemHeap.SplitHead | kernel/kmem.cpp:46-56 | the remainder of the head block becomes the head in memory |
| Kmem.KmemHeap.SplitInner | kernel/kmem.cpp:61-67 | the remainder of another block takes its place in memory |
| Kmem.KmemHeap.Take | kernel/kmem.cpp:42-69 | the list in memory is that of the carved heap |
| Kmem.KmemHeap.HandOut | kernel/kmem.cpp:42-75 | the block is carved in memory and its two header words are written |
| Kmem.KmemHeap.Alloc | kernel/kmem.cpp:19-76 | memory and result follow the interval model; null exactly when nothing fits; the header in front of the result holds the magic word and 64 or the request plus 16; only bytes of blocks that were free change |
| Kmem.KmemHeap.FindPlace | kernel/kmem.cpp:103-112 | the walk ends and finds the last block not above the pointer |
| Kmem.KmemHeap.LinkIn | kernel/kmem.cpp:102-125 | the block enters the list in memory by address, in all three cases |
| Kmem.KmemHeap.MergePrev | kernel/kmem.cpp:127-133 | merges with the predecessor exactly when they touch |
| Kmem.KmemHeap.MergeNext | kernel/kmem.cpp:135-140 | merges with the successor exactly when they touch |
| Kmem.KmemHeap.Free | kernel/kmem.cpp:78-141 | memory follows the interval model; only bytes that are free afterwards change; a pointer outside the heap or without the magic word changes nothing |
| Kmem.KmemHeap.ClientWrite | kernel/include/kernel/kmem.hpp:20-29 | a client storing in its own payload disturbs no header and no link |
| VirtqueueProof.StartInv | dev/virtio.cpp:175-179 | the created queue satisfies the invariant with every descriptor on the free chain |
| VirtqueueProof.PopFindsFree | dev/virtio.cpp:218-225 | a sender past the guards pops a descriptor of the free chain, never the terminator |
| VirtqueueProof.NoneFree | dev/virtio.cpp:218-220 | the counter is zero exactly when the chain is empty, and the list head is never -1 |
| VirtqueueProof.SlotIsFree | dev/virtio.cpp:235-242 | the ring slot being written holds no entry the device has still to read |
| VirtqueueProof.FetchStep | dev/virtio.cpp:235-242 | what the device reads is the oldest published entry |
| VirtqueueProof.ReapFindsUsed | dev/virtio.cpp:261-276 | the entry reaped is the oldest returned one and still holds the values of the request that put it in flight |
| VirtqueueProof.ReapStep | dev/virtio.cpp:261-276 | reaping keeps the invariant and answers that request |
| VirtqueueProof.StepInv | dev/virtio.cpp:211-276 | every step of sender, handler and device keeps the invariant |
| VirtqueueProof.RunInv | dev/virtio.cpp:211-276 | so does every run |
| VirtqueueProof.NoFault | dev/virtio.cpp:211-276 | in every run each descriptor is in exactly one of free chain, being prepared, available, held, being posted, used; the counter is the chain length plus a popped uncounted one; no party ever touches memory out of range; a send is refused exactly when nothing is free |
| VirtqueueProof.CompletionsMatchSends | dev/virtio.cpp:223-275 | in every run the handler calls answer distinct sends, each with its own context, address and length, and every send not answered is still in flight unchanged |
| VirtqueueProof.DeviceSees | dev/virtio.cpp:227-242 | in every run, whatever the device holds or reads next has the address and length of an unanswered request, is not chained, and is marked with 2 exactly when the request is writable (section 2.4.5 of VIRTIO 1.0) |
| VirtqueueProof.QuietQueue | dev/virtio.cpp:211-276 | once nothing is outstanding, every send has been answered and every descriptor is free |
| Virtqueue.VirtQueue.constructor | dev/virtio.cpp:129-194 | the chained descriptors are the start state of the protocol |
| Virtqueue.VirtQueue.SendBuffer | dev/virtio.cpp:211-249 | refused exactly for a null or empty buffer or with no free descriptor; otherwise the head of the chain holds address, length, direction and context of the request, is published, and the counter is down by one |
| Virtqueue.VirtQueue.Take | dev/virtio.cpp:222-225 | pops the head of the chain as one protocol step |
| Virtqueue.VirtQueue.Fill | dev/virtio.cpp:227-233 | the descriptor carries the request and the counter is down by one |
| Virtqueue.VirtQueue.Publish | dev/virtio.cpp:235-242 | slot and index are two protocol steps |
| Virtqueue.VirtQueue.ReapOne | dev/virtio.cpp:264-275 | the handler gets the values of the request answered |
| Virtqueue.VirtQueue.HandleIrq | dev/virtio.cpp:261-276 | the loop ends with every returned entry reaped, oldest first, one handler call each with its request's context, address and length, and as many descriptors free again |
| VirtqueueLayout.PartsFit | dev/virtio.cpp:134-173 | descriptors, rings and contexts lie apart inside the allocation |
| VirtqueueLayout.PartsAligned | dev/virtio.cpp:134-173 | each part is aligned as its entries need, the rings the device looks for on page boundaries |
| VirtqueueLayout.SameLayoutExactlyWhen | dev/virtio.cpp:134-173 | the used ring is where section 2.4.2 of VIRTIO 1.0 puts it if and only if 18 times the size is not 4092 modulo 4096 |
| VirtqueueLayout.LayoutIsStandard | dev/virtio.cpp:134-173 | for every size that divides 65536 it is |
| VirtqueueLayout.OddSizeExample | dev/virtio.cpp:134-173 | for size 910 it would be a page too low |
| SchedulerModel.StartInv | kernel/kthread.cpp:34-45 | the constructed scheduler satisfies the invariant |
| SchedulerModel.AddKeeps | kernel/kthread.cpp:52-67 | adding a thread keeps every thread in the ring its state names and owes a reschedule if it outranks the current one |
| SchedulerModel.RemoveKeeps | kernel/kthread.cpp:69-82 | removing keeps it |
| SchedulerModel.ScheduleKeeps | kernel/kthread.cpp:84-117 | scheduling keeps it and leaves a thread running that no runnable one outranks |
| SchedulerModel.ParkedKeeps | kernel/kthread.cpp:137-141 | moving the current thread to its blocked ring keeps it |
| SchedulerModel.WakeKeeps | kernel/kthread.cpp:168-186 | waking keeps it, for blocked and other threads |
| SchedulerModel.AddEffect | kernel/kthread.cpp:52-67 | the thread is runnable at the head of its ring and in no blocked ring, a reschedule is owed if it outranks the current thread, and no other thread changes state, ring or order |
| SchedulerModel.RemoveEffect | kernel/kthread.cpp:69-82 | the thread is in no ring, and no other thread changes state, ring or order |
| SchedulerModel.ParkedEffect | kernel/kthread.cpp:137-141 | the caller is blocked at the head of its blocked ring and in no runnable ring, and no other thread changes |
| SchedulerModel.WakeEffect | kernel/kthread.cpp:168-186 | a blocked thread is runnable at the head of its ring and in no blocked ring, a reschedule is owed if it outranks the current thread, and no other thread changes; any other thread is left alone |
| SchedulerModel.ScheduleEffect | kernel/kthread.cpp:84-117 | the head of the highest ring is current and active, that ring turns by one, the reschedule is settled and nothing else changes; nothing happens with preemption off |
| SchedulerModel.SleepEffect | kernel/kthread.cpp:129-166 | the caller is blocked and another, runnable thread at the head of the highest ring left is current |
| SchedulerModel.EnableEffect | kernel/kthread.cpp:195-205 | the outermost call schedules exactly when it may and a reschedule is owed; every other call only counts |
| SchedulerModel.BlockedExactlyWhen | kernel/kthread.cpp:129-186 | in every run a thread is blocked if and only if it has gone to sleep and nobody has woken it since |
| SchedulerModel.EnableKeeps | arch/x86_64/irq_manager.cpp:102-116 | leaving the outermost interrupt leaves a thread running that no runnable one outranks |
| SchedulerModel.RunKeeps | kernel/kthread.cpp:52-205 | every run keeps the invariant |
| SchedulerModel.EveryRun | kernel/kthread.cpp:34-205 | from the constructor on, a higher-priority runnable thread always means an owed reschedule, and every effective schedule, sleep or outermost interrupt exit that finds a thread settles it |
| SchedulerModel.IdleSuffices | kernel/kthread.cpp:95-107 | while the idle thread is queued there is always a thread to run |
| SchedulerModel.AlwaysSomethingToRun | kernel/kthread.cpp:34-205 | in every run that neither removes the idle thread nor puts it to sleep there is always a thread to run, nothing a caller may ask for is held up by an empty queue, and schedule, sleep and interrupt exit settle on a thread no runnable one outranks |
| SchedulerModel.CurrentReadyExactlyWhen | kernel/kthread.cpp:129-166 | in every run the current thread is runnable if and only if it has not gone to sleep with preemption off, or been removed, without an effective schedule or its own wakeup since |
| SchedulerModel.AsleepYetCurrent | kernel/kthread.cpp:129-166 | such a sleeping current thread |
| SchedulerModel.RoundRobin | kernel/kthread.cpp:95-109 | as many schedule calls as the top ring has threads pick each exactly once and restore the ring |
| Scheduler.KScheduler.constructor | kernel/kthread.cpp:34-45 | the rings in memory hold the idle thread only, which is current |
| Scheduler.KScheduler.Add | kernel/kthread.cpp:52-67 | null is refused; otherwise the rings in memory follow AddThread |
| Scheduler.KScheduler.Remove | kernel/kthread.cpp:69-82 | null is refused; otherwise the rings in memory follow RemoveThread |
| Scheduler.KScheduler.Schedule | kernel/kthread.cpp:84-117 | the downward scan over the heads picks the head of the highest ring in memory and turns it; no runnable thread outranks the choice |
| Scheduler.KScheduler.Sleep | kernel/kthread.cpp:129-166 | the caller's node moves to the blocked ring in memory and a top-priority thread runs |
| Scheduler.KScheduler.Wake | kernel/kthread.cpp:168-186 | succeeds exactly for a blocked thread, whose node moves back to the runnable ring in memory |
| Scheduler.KScheduler.PreemptDisable | kernel/kthread.cpp:188-193 | nests and changes nothing else |
| Scheduler.KScheduler.PreemptEnable | kernel/kthread.cpp:195-205 | the outermost call with rescheduling leaves a top-priority thread running |
| WaitQueue.KWaitQueue.Wait | kernel/waitq.cpp:18-31 | the caller's item is linked in as the head of the ring in memory |
| WaitQueue.KWaitQueue.NotifyOne | kernel/waitq.cpp:33-49 | the newest waiter, if any, leaves the ring in memory and is marked as woken |
| WaitQueue.KWaitQueue.EmptyExactlyWhen | kernel/include/kernel/waitq.hpp:21-24 | the null test agrees with the ring |
| Mutex.LockKeeps | kernel/mutex.cpp:16-25 | taking or being refused keeps at most one holder |
| Mutex.WaitKeeps | kernel/waitq.cpp:18-31 | queueing after the interrupt gap keeps it |
| Mutex.ResumeKeeps | kernel/mutex.cpp:26-31 | a woken waiter becoming the owner keeps it |
| Mutex.UnlockKeeps | kernel/mutex.cpp:35-48 | handing over or freeing keeps it |
| Mutex.LockEffect | kernel/mutex.cpp:16-33 | lock takes the mutex exactly when there is no owner; a waiter becomes the first of the queue; a resumed thread is holder and owner; no other thread changes place |
| Mutex.UnlockEffect | kernel/mutex.cpp:35-48 | the newest waiter is handed the mutex, or it is freed; no other thread changes place |
| Mutex.RunKeeps | kernel/mutex.cpp:16-48 | every run keeps it |
| Mutex.MutualExclusion | kernel/mutex.cpp:16-48 | in every run at most one thread holds the mutex or has been handed it, and the owner field is set exactly when one does |
| Mutex.UnlockByNonHolder | kernel/mutex.cpp:35-48 | a call by a thread that does not hold it is harmless if and only if the owner field does not name that thread |
| Mutex.SecondUnlockExample | kernel/mutex.cpp:35-48 | after a handover, a second unlock by the previous holder lets two threads in |
| Mutex.StrandedExactlyByTheGap | kernel/mutex.cpp:20-27 | a run ever leaves a waiter asleep on a free mutex if and only if some thread waits after the mutex was freed behind its owner test |
| Mutex.GapExample | kernel/mutex.cpp:20-27 | such a run |
| Mutex.KMutex.TryLock | kernel/mutex.cpp:16-25 | succeeds exactly when there is no owner, and follows the model |
| Mutex.KMutex.Wait | kernel/waitq.cpp:18-31 | the caller's item joins the wait queue in memory |
| Mutex.KMutex.Resume | kernel/mutex.cpp:26-31 | the woken thread becomes the owner |
| Mutex.KMutex.Unlock | kernel/mutex.cpp:35-48 | by any thread: the newest waiter in memory is handed the mutex, or it is freed, or nothing happens; exclusion is kept exactly when the caller holds it or is not named as owner |
| MsgQueue.TakeKeeps | kernel/semaphore.cpp:17-31 | waiters exist only when the count is zero; otherwise a token is taken |
| MsgQueue.GiveKeeps | kernel/semaphore.cpp:33-49 | a new message is announced by one count or one token handed over |
| MsgQueue.CopyKeeps | kernel/msgq.cpp:27-32 | a reader with a token copies the oldest message not copied yet |
| MsgQueue.TakeEffect | kernel/semaphore.cpp:17-31 | with a count the reader gets a token at once, without it becomes the first waiter; nobody else changes |
| MsgQueue.WriteEffect | kernel/msgq.cpp:37-52 | a full ring with a count refuses; otherwise the slot at the write pointer is filled, the pointer moves on, and the newest waiter gets a token or the count goes up unless it is at the size |
| MsgQueue.CopyEffect | kernel/msgq.cpp:27-32 | the slot at the read pointer is returned and the pointer moves on; nothing else changes |
| MsgQueue.RejectsWhenFull | kernel/msgq.cpp:40-43 | the full test holds exactly for a full ring with a non-zero count |
| MsgQueue.AcceptKeeps | kernel/msgq.cpp:45-48 | a write into a ring with room appends |
| MsgQueue.OverwritesExactlyWhen | kernel/msgq.cpp:37-52 | a write keeps the queue intact if and only if fewer tokens than slots are outstanding |
| MsgQueue.Fifo | kernel/msgq.cpp:21-52 | in every run with fewer outstanding tokens than slots at each write, what was accepted is what was read followed by what is stored, and a write is refused exactly when the ring is full |
| MsgQueue.OverwriteExample | kernel/msgq.cpp:37-52 | otherwise a message is lost and another read twice |
| MsgQueue.CopySane | kernel/msgq.cpp:27-32 | even when messages have been overwritten, a reader copies an accepted message |
| MsgQueue.WriteSane | kernel/msgq.cpp:37-52 | a write keeps that, refused or not |
| MsgQueue.ReadsWereWritten | kernel/msgq.cpp:21-52 | in every run at all, a read returns only an accepted message and there are no more reads than accepted writes |
| MsgQueue.KMsgQueue.TakeToken | kernel/semaphore.cpp:17-31 | the caller goes on at once exactly when the count is not zero, and joins the wait queue in memory otherwise |
| MsgQueue.KMsgQueue.CopyOut | kernel/msgq.cpp:27-34 | returns the oldest message |
| MsgQueue.KMsgQueue.GiveToken | kernel/semaphore.cpp:33-49 | a waiter in memory gets the token, or the count goes up unless it is at its limit |
| MsgQueue.KMsgQueue.Write | kernel/msgq.cpp:37-52 | appends or refuses, and keeps the queue intact exactly when fewer tokens than slots are outstanding |
| RingFamily.FamilyPush | common/include/common/hash_map.hpp:49-53 | pushing onto one ring leaves every other ring alone |
| RingFamily.FamilyDelete | common/include/common/hash_map.hpp:55-59 | deleting from one ring leaves every other ring alone |
| RingFamily.DeleteThroughBoth | net/tcp_socket.cpp:24-29 | deleting a node through a foreign head and then its own has the effect of the second deletion alone |
| RingFamily.DeleteAgain | net/tcp_socket.cpp:24-29 | deleting it through its own head and then a foreign one has the effect of the first alone |
| HashMap.InsertState | common/include/common/hash_map.hpp:121-133 | taking the pool head for an absent key extends the map by that key only, and buckets and pool still partition the entries |
| HashMap.RemoveState | common/include/common/hash_map.hpp:135-142 | returning a node to the pool removes its key only |
| HashMap.UsedNodes | common/include/common/hash_map.hpp:97-142 | the nodes in use are exactly the entries outside the pool ring |
| HashMap.PoolEmptyWhenFull | common/include/common/hash_map.hpp:123-125 | the pool ring is empty if and only if every entry is in use |
| HashMap.PooledHashMap.constructor | common/include/common/hash_map.hpp:97-106 | every entry is in the pool and the map is empty |
| HashMap.WalkBucket | common/include/common/hash_map.hpp:63-79 | the walk round a bucket ring ends, and finds a node with the key or there is none |
| HashMap.PooledHashMap.Find | common/include/common/hash_map.hpp:63-79 | the walk round the bucket ends and returns the key's node, or null exactly when the key is absent |
| HashMap.PooledHashMap.Insert | common/include/common/hash_map.hpp:121-133 | fails exactly when all entries are in use; otherwise the map gains the key with its value |
| HashMap.PooledHashMap.Remove | common/include/common/hash_map.hpp:135-142 | the map loses exactly the node's key |
| HashMap.PooledHashMap.RemoveKey | common/include/common/hash_map.hpp:144-150 | the map loses exactly the key, if it was there |
| TcpTables.SocketTables.constructor | net/tcp.cpp:26-28 | both tables are empty |
| TcpTables.SocketTables.Bind | net/tcp.cpp:59-72 | refused exactly when the port is bound; otherwise the listen table maps the port to the node |
| TcpTables.SocketTables.FindListen | net/tcp.cpp:110-111 | the node stored in the listen table under the id, or null |
| TcpTables.SocketTables.FindConnected | net/tcp.cpp:106-107 | the node stored in the connected table under the id, or null |
| TcpTables.SocketTables.AddConnected | net/tcp.cpp:80-92 | refused exactly when the listen table holds the id; otherwise the connected table maps the id to the node |
| TcpTables.SocketTables.Destroy | net/tcp_socket.cpp:24-29 | removing a socket from both tables takes its id out of the one it was in and changes nothing else |
| TcpListen.Lookup | net/tcp.cpp:106-107 | finds a socket with the id exactly when the table holds one |
| TcpListen.SynKeeps | net/tcp_socket.cpp:212-238 | a SYN keeps the invariant: new, repeated, contradicting or without room |
| TcpListen.AcceptKeeps | net/tcp_socket.cpp:171-210 | so does an ACK that reaches the listener |
| TcpListen.AcceptTable | net/tcp.cpp:80-92 | the accepted id is not in the connected table yet, although only the listen table is checked |
| TcpListen.DeliverKeeps | net/tcp_socket.cpp:304-326 | so does delivery to a connected socket |
| TcpListen.OpensExactlyWhen | net/tcp_socket.cpp:171-210 | a packet opens a connection if and only if it has ACK and no SYN, no connected socket has its id, the port listens, the cache holds the id, both numbers are one past those of SYN and SYN+ACK modulo 2^32, and the backlog count is not its size |
| TcpListen.OpenEffect | net/tcp_socket.cpp:191-209 | then exactly one socket is new, with id and numbers of the handshake; its entry leaves the cache; a lookup finds it unless the listen table holds its id; its number goes to the backlog unless that ring is full with a count; nothing else changes |
| TcpListen.RefusedEffect | net/tcp_socket.cpp:176-189 | any other ACK for the port draws a reset, or is ignored if only the backlog stands in its way |
| TcpListen.SynEffect | net/tcp_socket.cpp:212-238 | a new SYN with room is cached and answered with a SYN+ACK carrying isn and the next number; without room it is ignored; a repeated one is answered again; a contradicting one is reset; nothing else changes |
| TcpListen.DeliverEffect | net/tcp_socket.cpp:304-326 | a packet for a connected socket reaches that socket and no other: handled, reset without ACK, closed by RST past the FIN, ignored when closed |
| TcpListen.StrayEffect | net/tcp.cpp:117-118 | a packet nobody listens for is reset and changes nothing else |
| TcpListen.HandshakeOpens | net/tcp_socket.cpp:171-238 | from any reachable state, a first SYN without data that finds room and the ACK of its SYN+ACK open a connection if the id is not connected and the backlog is not full |
| TcpListen.UnlistedKeeps | net/tcp.cpp:94-98 | so does removal |
| TcpListen.RunKeeps | net/tcp.cpp:100-123 | every run keeps the invariant |
| TcpListen.PassiveOpen | net/tcp_socket.cpp:171-238 | in every run each accepted socket goes back to a SYN of its own peer answered by a SYN+ACK with its isn, its ACK matched both numbers modulo 2^32, it starts right behind them, one cache entry yields at most one socket, a socket is put on a backlog at most once and accept returns only sockets put there, and no two connected sockets share an id |
| TcpListen.SynDataRefused | net/tcp_socket.cpp:328-346 | the ACK that follows the SYN+ACK is accepted if and only if the SYN carried no data |
| TcpListen.AcceptingListener | net/tcp_socket.cpp:186-209 | the entry leaves the cache and the socket goes to the backlog, whatever state the backlog is in |
| TcpListen.BacklogReturns | net/tcp_socket.cpp:139-147 | accept returns a socket that was put on the backlog |
| TcpDemux.LookupFinds | net/tcp.cpp:106-107 | what the connected table in memory holds under an id is the listed socket with that id |
| TcpDemux.LookupMisses | net/tcp.cpp:106-107 | an id the table in memory does not hold is not listed |
| TcpDemux.KTcp.Open | net/tcp_socket.cpp:112-137 | binding is refused exactly for a bound port; otherwise the port listens with empty cache and backlog |
| TcpDemux.KTcp.Close | net/tcp_socket.cpp:24-29 | destroying a listening socket closes its port only |
| TcpDemux.KTcp.Destroy | net/tcp_socket.cpp:24-29 | destroying a connected socket takes it out of the connected table only |
| TcpDemux.KTcp.AcceptCall | net/tcp_socket.cpp:139-147 | the first region of accept on the backlog |
| TcpDemux.KTcp.AcceptReturn | net/tcp_socket.cpp:139-147 | accept returns the socket at the read pointer of the backlog, which exists and was put there |
| TcpDemux.KTcp.ProcessPacket | net/tcp.cpp:100-123 | looks the sockets up in the tables in memory and acts as Process on every packet; the tables keep standing for the list of connected sockets |
| TcpDemux.KTcp.Syn | net/tcp_socket.cpp:212-238 | acts as HandleSyn in all four cases |
| TcpDemux.KTcp.AcceptConnection | net/tcp_socket.cpp:171-210 | acts as Accept in all its cases; the new socket's node enters the connected table in memory unless the listen table holds its id |
| TcpDemux.KTcp.DeliverTo | net/tcp_socket.cpp:304-326 | acts as Deliver in all its cases |
| TcpReceive.SegmentKeepsExactlyWhen | net/tcp_socket.cpp:240-289 | a segment keeps the accounts if and only if it is not queued in front of a buffer of which more has been read than it holds |
| TcpReceive.SegmentEffect | net/tcp_socket.cpp:240-289 | a segment before the acknowledgement number or beyond the free window changes nothing; any other is counted in both, its window and FIN are taken over, and its payload or FIN is queued in front |
| TcpReceive.TakenOnceExactlyWhen | net/tcp_socket.cpp:243-257 | a segment taken once is refused the second time if and only if it then starts before the acknowledgement number or the window has no room |
| TcpReceive.NextTakenOnce | net/tcp_socket.cpp:243-257 | the next expected segment is taken once if it does not reach the wrap of the sequence numbers |
| TcpReceive.TakenTwiceExample | net/tcp_socket.cpp:243-257 | a segment from beyond the next expected byte, and one that ends at the wrap, are taken twice |
| TcpReceive.BrokenAccountsExample | net/tcp_socket.cpp:272-282 | one byte queued after two have been read leaves accounts that nothing balances |
| TcpReceive.RecvKeeps | net/tcp_socket.cpp:73-92 | a read frees as much window as it returns bytes, and returns the next bytes of what remains |
| TcpReceive.QueueKeepsContent | net/tcp_socket.cpp:272-282 | with nothing half read, the new payload is read in full before what was there |
| TcpReceive.QueueContent | net/tcp_socket.cpp:272-282 | for every offset that fits: the new payload is read from the offset on and then everything that was there from its start, so exactly the part already read is skipped in the new and repeated in the old |
| TcpReceive.HalfReadExample | net/tcp_socket.cpp:272-282 | with a buffer half read, bytes are skipped and read twice |
| TcpReceive.AcceptedAccounts | net/tcp_socket.cpp:191-208 | the handshake payload is counted twice, and accepted only if it fits twice |
| TcpReceive.AcceptedAck | net/tcp_socket.cpp:201-208 | the acknowledgement number after the handshake, for every payload size, with the unsigned subtraction |
| TcpReceive.RunAccounts | net/tcp_socket.cpp:62-100 | over every run of segments and reads, the acknowledgement number and the window in use follow the accepted and unread bytes |
| TcpReceive.AcceptedRun | net/tcp_socket.cpp:191-289 | for an accepted socket: ack is remote isn + 1 + accepted bytes modulo 2^32, the window in use is the handshake payload plus the unread bytes, and never exceeds the window |
| TcpReceive.KReceiver.constructor | net/tcp_socket.cpp:194-208 | the receiver of an accepted socket |
| TcpReceive.KReceiver.Handle | net/tcp_socket.cpp:240-289 | a segment before the acknowledgement number or beyond the free window changes nothing and is answered; any other follows SegmentEffect, notifies a sender exactly when it raises the window, and is answered exactly for PSH, FIN or a zero window size |
| TcpReceive.KReceiver.Recv | net/tcp_socket.cpp:52-103 | returns the next bytes in order, frees that much window, stops at the first PSH or FIN buffer, sends a window update exactly when it starts on a full window; past the FIN it returns nothing and stays locked |
| TcpReceive.KReceiver.RecvRegion | net/tcp_socket.cpp:73-92 | one interrupt-off region |
| TcpRecvWait.NeverFaults | net/tcp_socket.cpp:70-74 | in every run a reader that goes on to copy finds a buffer, although the list is not tested again after the wait |
| TcpRecvWait.StrandedExactlyByTheGap | net/tcp_socket.cpp:70-72 | a run ever leaves the reader asleep with something to read if and only if it waits after a segment was queued behind its test |
| TcpRecvWait.StrandedUntil | net/tcp_socket.cpp:70-72 | only another queued segment gets it going again |
| TcpRecvWait.GapExample | net/tcp_socket.cpp:70-72 | such a run |
| TcpSend.ExpectedTiles | net/tcp_socket.cpp:31-50 | the segments are slices of 1 to 1460 bytes, consecutive in data and in sequence numbers modulo 2^32, and only the last has PSH |
| TcpSend.ExpectedAt | net/tcp_socket.cpp:35-47 | segment i holds the bytes from 1460 i to 1460 (i + 1) or the end, its number is the first one plus 1460 i modulo 2^32, and there are as many as needed |
| TcpSend.RunKeeps | net/tcp_socket.cpp:367-377 | bytes sent since the last window update plus what is left are that window, and a sleeping sender lacks window |
| TcpSend.WindowEffect | net/tcp_socket.cpp:367-377 | bytes that fit are sent at once, others sleep until a larger window or a reset wakes them |
| TcpSend.NoLostWakeup | net/tcp_socket.cpp:265-270 | in every run the first accepted segment whose window covers a sleeping sender's bytes wakes it |
| TcpSend.KSender.SendSegment | net/tcp_socket.cpp:365-391 | waits through exactly the updates that leave the window too small, gives up exactly when it finds the socket closed after a wait, is stuck exactly when the updates run out, and otherwise emits one segment with the old sequence number |
| TcpSend.KSender.AwaitWindow | net/tcp_socket.cpp:368-374 | the loop: which updates it meets and how it ends |
| TcpSend.KSender.Send | net/tcp_socket.cpp:31-50 | all segments and the whole count; or up to the first segment i not taken, counting 1460 i; or nothing counted after a close met in a wait; stuck only with no update left and the window below the next slice |
| Checksum.Accumulate | net/include/net/ipv4.hpp:43-54 | the loop computes the word sum modulo 2^32, with an odd last byte |
| Checksum.Compute | net/include/net/ipv4.hpp:43-57 | the method computes ip_checksum |
| Checksum.FoldOnceIsRfcExactlyWhen | net/include/net/ipv4.hpp:56-56 | the checksum is that of section 1 of RFC 1071 if and only if the fold leaves no carry |
| Checksum.VerifiesExactlyWhen | net/ipv4.cpp:42-43 | a header with the computed checksum verifies as zero if and only if the fold left no carry |
| Checksum.StandardVerifies | net/include/net/ipv4.hpp:43-57 | bytes that include their checksum sum to all ones in network byte order, as section 1 of RFC 1071 asks, if and only if the fold left no carry |
| Wire.ParseTcp | net/tcp.cpp:100-106 | every field and the payload of a built segment are read back |
| Wire.ParseIp | net/ipv4.cpp:69-93 | every field of a built IP header is read back |
| Wire.IpBytes | net/ipv4.cpp:30-43 | every byte of the IP header, in the order of RFC 791 |
| Wire.TcpBytes | net/tcp_socket.cpp:379-388 | every byte of the TCP header, in the order of RFC 9293 |
| Wire.StandardIp | net/ipv4.cpp:42-43 | any receiver that follows RFC 1071 finds the IP header correct if and only if its sum folds without a carry |
| Wire.StandardTcp | net/tcp.cpp:41-57 | and the TCP segment with its pseudo header likewise |
| Wire.HeaderVerifies | net/ipv4.cpp:77-80 | a built IP header passes the receiver's check if and only if its sum folds without a carry |
| Wire.RoundTrip | net/ipv4.cpp:69-100 | a sent segment is delivered with the same payload, address, ports, numbers, flags and window if the header sum folds without a carry, and dropped otherwise, whatever padding follows |
| Wire.CarryExample | net/include/net/ipv4.hpp:56-56 | every empty segment from 10.0.2.15 to 55.225.55.225 is dropped, whatever its header and padding |
| Sockbuf.KSockbuf.constructor | net/include/net/sockbuf.hpp:32-46 | the data is the payload, with room for headers in front |
| Sockbuf.KSockbuf.Wrap | net/include/net/sockbuf.hpp:49-56 | the whole frame is data |
| Sockbuf.KSockbuf.AddHeader | net/include/net/sockbuf.hpp:99-112 | three cases: no room, header present, header added in front |
| Sockbuf.KSockbuf.AddParsedHeader | net/include/net/sockbuf.hpp:114-126 | the front of the payload becomes a header, unless present or too long |
| Sockbuf.WriteTcp | net/tcp_socket.cpp:379-390 | the data becomes the TCP segment with its checksum over the pseudo header |
| Sockbuf.WriteIp | net/ipv4.cpp:30-45 | the data gains the IP header with its checksum |
| Sockbuf.BuildPacket | net/tcp_socket.cpp:365-391 | the buffer's data is the packet Wire speaks of, leaving room for the link header |
| Sockbuf.ParseHeaders | net/ipv4.cpp:69-100 | the cursors end at the payload Wire.Receive delivers, and the outcome agrees with it on every frame |
| KvmClock.TicksExact | arch/x86_64/kvmclock.cpp:79-88 | the tick count is the largest one, in units of the left shift, that does not exceed ns 2^32 / (m 2^s) |
| KvmClock.NsToTscMonotone | arch/x86_64/kvmclock.cpp:79-88 | more nanoseconds never give fewer ticks |
| KvmClock.RoundTrip | arch/x86_64/kvmclock.cpp:79-124 | there and back never gains time and loses at most ceil(2^max(s,0) m / 2^32) nanoseconds |
| KvmClock.BoundReached | arch/x86_64/kvmclock.cpp:79-124 | without shift the bound is reached for every multiplier that does not divide 2^32 |
| KvmClock.ConsistentSnapshot | arch/x86_64/kvmclock.cpp:98-106 | when the retry loop ends, the four fields read are those of one even version, unless 2^32 updates went by |
| KvmClock.ReadingExact | arch/x86_64/kvmclock.cpp:108-124 | without overflow the reading is the scaled tick difference plus the base |
| KvmClock.ClockMonotone | arch/x86_64/kvmclock.cpp:108-124 | readings from one set of parameters never go back |

## Left out

- Timers and timed waits (`kernel/timer_service.cpp`, the timed branch of `sleep_until`): they rest on `insert_sorted`, whose defect is stated above, and an expired wait leaves a dead item in its queue.
- The receive list is a sequence in its model, with the operations IntrusiveList proves of rings; its nodes are not placed in memory.
- The SYN cache and the backlog inside TcpDemux are values; HashMap and MsgQueue prove them in place.
- Virtqueue.VirtQueue.SendBuffer: runs without interruption; interleavings with the handler and the device are the steps of VirtqueueModel.
- Virtqueue.VirtQueue.constructor: does not model a queue size of zero, on which the source writes outside the table.
- Virtqueue notification, features, interrupt vectors and destruction: device registers only.
- Kmem.KmemHeap.Free: double free and foreign pointers that carry the magic word are excluded, as the source cannot tell them apart.
- HashMap.PooledHashMap.Remove: only nodes that are in the map; a foreign node is not modelled.
- Sockets that are bound but not listening are not modelled.
- Scheduler.KScheduler.Sleep: only the infinite deadline.
- Virtqueue.VirtQueue.HandleIrq: the device returns nothing while the loop runs; VirtqueueProof.StepInv and CompletionsMatchSends cover a device that does.
- Sockbuf.KSockbuf.constructor: allocation does not fail.
- TcpReceive.KReceiver.Recv: stops where the source would wait for a segment.
- TcpSend.KSender.SendSegment: the events that end a wait are an argument.
- TCP retransmission, ordering of segments, connect, shutdown and the sequence number of FIN: not implemented or not decided by the source. The TCP checksum is not verified on reception by the source either.
- Wire.RoundTrip: a frame whose length fields point outside it is reported as stray where the source reads past it.
- The socket buffer's move constructor, ARP, ICMP, the link layer and the network task: only easy claims.
- KvmClock: host detection and the wall clock; the retry loop is modelled by its last pass.
- Boot, paging, context switching, interrupt controllers, consoles and the C++ runtime.
