# Virtqueues and sound streams of the Windows virtio drivers

A Dafny model of the virtio transport library and of the sound driver built on it, with proofs of the
properties their users rely on.

**Two rings, one queue.** `PackedQueue` and `SplitQueue` hold the packed and the split virtqueue as classes
that update their arrays, registers and shared words in place, a store at a time where a device may look.
What each operation does is written as functions of the state before it in `PackedSpec` and `SplitSpec`, and
every method is proved to do that. `PackedSystem` and `SplitSystem` run these functions against an honest device,
which fetches chains in order and returns them in any order, and prove for every run of client, driver and device:

- free list and chains in flight partition the descriptors (`DescriptorPool`);
- the 16-bit indices and wrap counters encode unbounded positions, and the used and available tests are exact;
- what the device reads is what the client added, and nothing is visible before the publishing store; over whole runs
  the device reads the submitted lists, each with its own token, and the driver gets the answers, all of them and in
  order (`PackedDelivery`, `SplitDelivery`, over `Delivery`);
- both rings are the same abstract queue (`Queues`): nothing is lost, duplicated or invented;
- the kick decision is exact (`EventIndex`).

The pool results hold against any device and after detach_unused_buf; `PackedDetach` and `SplitDetach` say exactly what
a detach does to a ring that the device is working on.

`PackedInterrupts` and `SplitInterrupts` take enable_cb apart into its stores and its final read, interleave them
with the device's stores and reads, and prove that a driver that was told to wait is interrupted; `PackedKicks` and
`SplitKicks` prove that a device that went idle is kicked.

**The sound driver** uses that abstract queue with its returned buffers in order of return, which
`PackedRefinement` and `SplitRefinement` prove both rings to be; they also show that a device step between two
stores of add_buf is as good as one before the call. `ControlCommand` is the synchronous control command with
timeouts and late completions; `Capture` the capture ring over `PcmCopy`; `Resampler`, `Render` and `RenderStream`
the render side with its fallback to 16 kHz, and `RenderTape` what the client wrote beside what was played of it;
`AcxStreams` the ready ring and the periods of the ACX driver.

**Beside them:** the generation-checked configuration read (`ConfigRead`), the memory layout of the split ring
(`SplitLayout`) and the DMA slice allocator (`DmaSlices`). `Rings` and `PacketNumbers` hold the modular arithmetic.

**Where the code falls short of what one would expect of it**, the model follows the code, and the exact condition
is proved:

- a direct chain of exactly num descriptors leaves the packed avail_wrap_counter behind, so that kicks are missed
  until a second such chain brings it back (`KickAfterChainIsRightIff`, `KicksRightIffEvenlyManyFullChains`);
- after detach_unused_buf the packed driver stops on the return of the detached buffer, or takes it for the next one
  (`DetachedReturnStopsIff`, `DetachedReturnGoesToTheNext`); the split ring hides the newest buffer from the device
  (`DetachLeavesTheOthersIff`), and frees free descriptors again (`GetKeepsPoolIff`, `FreedAgain`);
- packet slots collide after 2^32 packets unless the number of slots divides 2^32 (`CollisionFreeIffDivides`);
- a capture packet that failed is handed to the client as if it were audio once a later one succeeds
  (`ReadyIsAudioIff`, `FailedPacketIsGiven`);
- a capture packet that completes after later ones were read makes the driver hand those out again
  (`LateSuccessStepsBackIff`);
- a fallback submission that fails has moved the resampler's phase (`MergeKeepsPhaseIff`, `FailedSubmitKeepsPhaseIff`);
- render writes that are cancelled while the device has them are detached, and the stream may then be paid for blocks
  the device still has (`PaidIsBack`, `DetachPaysTheNext`);
- the client's first packet, written during a submission, can leave the stream at the wrong packet
  (`RacedWriteKeepsOrderIff`);
- a render packet numbered MAXULONG is taken for none (`ForgottenIffMaxulong`);
- the ACX pump pops a packet it has not submitted if the ring overflowed since it peeked (`PopTakesThePeekedIff`);
- a period of the ACX render stream that is filled again before it is counted counts a packet that is not completed
  (`NumberStaysIff`, `OvertakenIsCounted`);
- 256 configuration changes in one pass over several fields go unnoticed, and without a generation any do (`SafeIff`);
- returning an address in another common buffer can free a live slice (`PutIsRightIff`, `MisplacedReturnHandsOutTwice`)
  or write past the bitmap (`ReadsBeyondIff`, `SpillsIff`).

Throughout, locks are atomic steps and memory barriers the program order of a sequentially consistent
interleaving. Queue sizes are 1 to 2^15, powers of two for the split ring; buffers have at least one element and a
non-NULL token.

## Model

| member | source | states |
|---|---|---|
| Queues.Conservation | VirtIO/VirtIORing.c:225-334 | Over every sequence of submissions and returns, what was in flight plus what was accepted is what was returned plus what is in flight, and descriptors balance the same way |
| Queues.ReturnedAtMostOnce | VirtIO/VirtIORing.c:303-334 | From an empty queue no token comes back more often than it was accepted |
| Queues.VqSteps | viosnd/sys/ViosndVirtio.cpp:1806-1808 | Adding to and reading from the queue with a list of returned buffers are steps of the abstract queue and keep returned within in flight |
| Rings.SlotIsMod | VirtIO/VirtIORing-Packed.c:513-517 | The slot and the lap parity that the driver steps along are position mod num and the parity of position div num |
| Rings.Advance | VirtIO/VirtIORing-Packed.c:259-263 | Going k positions forward wraps at most once, and flips the parity exactly when it wraps |
| Rings.MirrorsAppend | VirtIO/VirtIORing-Packed.c:241-264 | After entries were written from the write slot on, across the end of the ring or not, every slot holds the newest entry of its position |
| Rings.MirrorsUpdate | VirtIO/VirtIORing-Packed.c:340-351 | Replacing the entry at a position still in the ring is one store to its slot |
| Rings.NestedSlots | VirtIO/VirtIORing.c:294-294 | Masking a wrapped 16- or 32-bit counter picks the slot of the unbounded one if num divides the wrap |
| DescriptorPool.Take | VirtIO/VirtIORing-Packed.c:245-275 | Taking a chain off the front of the free list keeps free list and chains a partition of all descriptors |
| DescriptorPool.Put | VirtIO/VirtIORing-Packed.c:297-307 | Putting a chain back keeps it, whichever buffer it is |
| DescriptorPool.AbstractAdd | VirtIO/VirtIORing-Packed.c:198-236 | Adding to the pool is adding the token with its cost to the abstract queue |
| DescriptorPool.AbstractRemove | VirtIO/VirtIORing-Packed.c:504-506 | Removing from the pool is returning that token with its cost once |
| DescriptorPool.RemoveFromBoth | VirtIO/VirtIORing-Packed.c:475-526 | Reading the next buffer in ring order removes the same buffer from the pool |
| EventIndex.NeedEventIsMembership | VirtIO/VirtIORing.c:167-175 | vring_need_event holds exactly when an index passed has the requested residue mod 2^16 |
| EventIndex.SplitKickIsExact | VirtIO/VirtIORing.c:351-358 | The split kick test with its wrap-around flag is exact for any number of additions |
| EventIndex.EventPositionIsDecoded | VirtIO/VirtIORing-Packed.c:565-571 | The position that an event word is read as has that slot and that lap parity |
| EventIndex.PackedKickIsExact | VirtIO/VirtIORing-Packed.c:553-573 | The packed kick decision in unbounded positions, for every number of additions; exact with at most 2^15 |
| EventIndex.PackedKickNamesPassed | VirtIO/VirtIORing-Packed.c:565-573 | Over at most a lap the decision is: some position passed has the slot and parity in the event word |
| EventIndex.OffWrapRoundTrip | VirtIO/VirtIORing-Packed.c:567-568 | Slot and wrap bit come back out of the off_wrap word |
| EventIndex.KickAfterChainIsRightIff | VirtIO/VirtIORing-Packed.c:266-268 | The kick after a direct chain is right for every event word if and only if the counter was in step and the chain is shorter than the ring, or it was out of step and the chain is the whole ring |
| EventIndex.KickRightIffInStep | VirtIO/VirtIORing-Packed.c:553-573 | With something added since the last kick the decision is right for every event word if and only if the wrap counter has the parity of the write position |
| PackedProtocol.WordIsFaithful | VirtIO/VirtIORing-Packed.c:242-262 | The flag record stands for the 16-bit flag word, and flipping avail and used is the XOR of the driver |
| PackedProtocol.UsedTestIsExact | VirtIO/VirtIORing-Packed.c:340-351 | The used test at the read position holds exactly when a buffer was returned there in this lap, and finds its id and length |
| PackedProtocol.AvailableTestIsExact | VirtIO/VirtIORing-Packed.c:282-288 | A device sees a buffer available exactly when one is that it has not fetched |
| PackedProtocol.AddKeepsInv | VirtIO/VirtIORing-Packed.c:241-288 | Adding a chain keeps the layout, the lap bits and everything readable |
| PackedProtocol.TakeKeepsInv | VirtIO/VirtIORing-Packed.c:508-512 | Reading a buffer keeps them |
| PackedProtocol.FetchKeepsInv | VirtIO/VirtIORing-Packed.c:282-288 | Fetching a buffer keeps them |
| PackedProtocol.CompleteKeepsInv | VirtIO/VirtIORing-Packed.c:475-497 | Returning any held buffer, in any order, keeps them |
| PackedProtocol.NothingVisibleBeforeTheLastStore | VirtIO/VirtIORing-Packed.c:282-288 | In every memory before the last store of add_buf no new buffer is available and all in flight read as before |
| PackedQueue.PackedVirtqueue.AddBuf | VirtIO/VirtIORing-Packed.c:177-295 | Succeeds iff an indirect page can be used or the list fits; then, from the arguments: the token is under the head id, and either element i stands in the i-th slot from next_avail_idx with its address, length, WRITE from out on, NEXT but in the last and the lap bits of its slot, or one INDIRECT descriptor names the table, which holds the elements in order; no other slot is touched; one store at a time, of which only the last publishes |
| PackedQueue.PackedVirtqueue.AddDirect | VirtIO/VirtIORing-Packed.c:231-292 | The direct branch: the chain in the ring and the record, the head flags last |
| PackedQueue.PackedVirtqueue.AddIndirect | VirtIO/VirtIORing-Packed.c:198-229 | The indirect branch: the table holds the scatter list, one descriptor names it |
| PackedQueue.PackedVirtqueue.WriteChain | VirtIO/VirtIORing-Packed.c:239-264 | The loop writes all descriptors but the head flags, each store leaving the ring unpublished |
| PackedQueue.PackedVirtqueue.WriteTable | VirtIO/VirtIORing-Packed.c:199-204 | One table entry per scatter element, WRITE set from out on |
| PackedQueue.PackedVirtqueue.DetachBuf | VirtIO/VirtIORing-Packed.c:297-307 | detach_buf_packed as specified |
| PackedQueue.PackedVirtqueue.GetBuf | VirtIO/VirtIORing-Packed.c:475-526 | Answer and new state of get_buf, the bad-ring stops included |
| PackedQueue.PackedVirtqueue.DetachUnusedBuf | VirtIO/VirtIORing-Packed.c:309-328 | Detaches the lowest head with a token, or finds none |
| PackedQueue.PackedVirtqueue.DisableCb | VirtIO/VirtIORing-Packed.c:330-338 | Both copies of the flags say DISABLE if they agreed before |
| PackedQueue.PackedVirtqueue.EnableCb | VirtIO/VirtIORing-Packed.c:365-398 | The event index goes out before the flags; true iff the next element is not used |
| PackedQueue.PackedVirtqueue.KickPrepare | VirtIO/VirtIORing-Packed.c:534-576 | num_added is reset; a device that declined notifications is not kicked, one that wants them all is; else the decision on the event position |
| PackedQueue.PackedVirtqueue.constructor | VirtIO/VirtIORing-Packed.c:587-640 | A new queue is in the specified initial state |
| PackedSystem.AddKeepsPool | VirtIO/VirtIORing-Packed.c:193-280 | add_buf keeps the partition and the records and is the abstract add |
| PackedSystem.AddKeepsStep | VirtIO/VirtIORing-Packed.c:213-219 | add_buf keeps the registers in step with the positions, whatever the chain length |
| PackedSystem.DetachKeepsPool | VirtIO/VirtIORing-Packed.c:297-307 | Detaching keeps the partition and returns that token once |
| PackedSystem.HeadIsOwned | VirtIO/VirtIORing-Packed.c:316-318 | A non-NULL token marks the head of a buffer in flight |
| PackedSystem.NothingLeftMeansAllFree | VirtIO/VirtIORing-Packed.c:324-325 | When detach_unused_buf finds nothing all descriptors are free, so its BUG_ON never fires |
| PackedSystem.GetIsExact | VirtIO/VirtIORing-Packed.c:483-505 | With an honest device and nothing detached, get_buf returns nothing iff nothing is unread, else the first returned buffer; the bad-ring stops are unreachable |
| PackedSystem.AnyGetKeepsInv | VirtIO/VirtIORing-Packed.c:475-526 | Whatever the ring holds - after any detach, with any device - get_buf takes one buffer in flight with its own token, or none: partition, records and tables are kept up to the bad-ring stops |
| PackedSystem.GetKeepsEncoding | VirtIO/VirtIORing-Packed.c:508-512 | After get_buf the read index and wrap counter encode the new read position |
| PackedSystem.FetchReadsTheBuffer | VirtIO/VirtIORing-Packed.c:241-288 | A device that finds a descriptor available walks, across the end of the ring too and through the indirect table in memory if there is one, exactly the scatter list that was added, under the id get_buf looks up |
| PackedSystem.CompleteKeepsStep | VirtIO/VirtIORing-Packed.c:475-497 | An out-of-order completion keeps the invariant |
| PackedDetach.DetachedReturnStopsIff | VirtIO/VirtIORing-Packed.c:309-328 | After detach_unused_buf get_buf stops the machine if and only if the buffer detached is the one whose return it reads next |
| PackedDetach.DetachedReturnGoesToTheNext | VirtIO/VirtIORing-Packed.c:309-328 | If another buffer is added first, get_buf answers that return with the token of the new buffer, which the device has not touched, if and only if the descriptors free before the detach were enough for it; else the return is lost |
| PackedDetach.DetachCommutesWithCompletion | VirtIO/VirtIORing-Packed.c:309-328 | Whether the device returns a buffer before a detach or after it leaves the same state |
| PackedSystem.StepKeepsInv | VirtIO/VirtIORing-Packed.c:177-576 | Every step of client, driver and device - get_buf and detach_unused_buf at any time, and a device that stores what it likes - keeps the invariant and is a step of the abstract queue |
| PackedSystem.RunRefinesQueue | VirtIO/VirtIORing-Packed.c:177-576 | Every run of such steps keeps the invariant and refines the abstract queue |
| PackedSystem.StartIsInv | VirtIO/VirtIORing-Packed.c:606-626 | A new queue satisfies it |
| PackedSystem.NothingLostOrDuplicated | VirtIO/VirtIORing-Packed.c:475-526 | From a new queue, over every sequence of add_buf, get_buf and detach_unused_buf against any device, each token is returned at most as often as accepted, and the rest is in flight |
| PackedSystem.RegistersEncodePositions | VirtIO/VirtIORing-Packed.c:177-295 | next_avail_idx = A mod num, the flags the parity of its lap, (last_used_idx, used_wrap_counter) encode U, and A - U = num - num_free <= num |
| PackedSystem.KicksRightIffEvenlyManyFullChains | VirtIO/VirtIORing-Packed.c:266-268 | In every reachable state with something added since the last kick, the kick decision is right for every event word if and only if an even number of direct chains took the whole ring |
| PackedSystem.KickIsExact | VirtIO/VirtIORing-Packed.c:534-576 | kick_prepare never kicks a device that declined notifications and always one that wants them all; in descriptor mode it kicks iff the event position was added since the last kick |
| PackedRefinement.GetBufIsVq | VirtIO/VirtIORing-Packed.c:475-526 | get_buf takes the buffer that the device returned first, as the queue of the drivers above it does |
| PackedRefinement.SubmissionIsVq | VirtIO/VirtIORing-Packed.c:177-295 | add_buf goes in exactly if it fits, as one entry of its cost |
| PackedRefinement.CompletionIsVq | VirtIO/VirtIORing-Packed.c:475-497 | A completion, of whichever buffer, adds it behind the returned ones |
| PackedRefinement.OtherStepsKeepVq | VirtIO/VirtIORing-Packed.c:330-576 | Fetching and the notification steps leave that queue alone |
| PackedRefinement.RunIsVq | VirtIO/VirtIORing-Packed.c:177-576 | Every run of honest steps without detach steps through states of the queue of the drivers above, returned buffers within those in flight |
| PackedRefinement.StartIsVq | VirtIO/VirtIORing-Packed.c:606-626 | A new ring is a new such queue |
| PackedRefinement.CompletionDuringAdd | VirtIO/VirtIORing-Packed.c:241-288 | Between any two stores of add_buf a completion reads what it would have read before, writes none of the slots being filled and leaves nothing published |
| PackedRefinement.CompletionCommutesWithAdd | VirtIO/VirtIORing-Packed.c:241-288 | A completion during add_buf leads to the same state as one before it or after it |
| PackedRefinement.FetchCommutesWithAdd | VirtIO/VirtIORing-Packed.c:241-288 | So does a fetch |
| PackedDelivery.SubmissionQueuesTheList | VirtIO/VirtIORing-Packed.c:177-295 | A submission that fits appends one buffer with the token of the caller whose list is, element by element, the list of the caller, writable from out on |
| PackedDelivery.FetchReadsTheRequest | VirtIO/VirtIORing-Packed.c:241-288 | A fetch reads list and token of the first buffer not yet fetched |
| PackedDelivery.RunDelivers | VirtIO/VirtIORing-Packed.c:177-526 | Over every honest run without detach, requests to be fetched before plus requests submitted are requests fetched plus those to be fetched after, in order; and answers to be read before plus answers given are answers got plus those to be read after |
| PackedDelivery.DeviceReadsWhatWasSubmitted | VirtIO/VirtIORing-Packed.c:177-295 | From a new ring the lists and tokens that the device reads are a prefix of those that clients submitted, as they gave them, and all of them iff its availability test fails |
| PackedDelivery.DriverGetsWhatWasAnswered | VirtIO/VirtIORing-Packed.c:475-526 | The tokens and lengths that get_buf hands out are a prefix of those that the device returned, and all of them iff get_buf finds nothing |
| PackedInterrupts.StepKeepsIrq | VirtIO/VirtIORing-Packed.c:365-398 | Every interleaved step of driver and device keeps: a waiting driver with something unread was interrupted, or will be |
| PackedInterrupts.WaitingDriverIsInterrupted | VirtIO/VirtIORing-Packed.c:519-523 | Also after a get_buf that found nothing: once the device has returned a buffer and decided about it, an interrupt came after that return |
| PackedInterrupts.NoLostInterrupt | VirtIO/VirtIORing-Packed.c:365-398 | Whenever enable_cb returns true, the next returned buffer raises an interrupt - one that comes after its return - in every interleaving, with and without event suppression |
| PackedInterrupts.UsualDeviceIsHonest | VirtIO/VirtIORing-Packed.c:108-116 | A device that decides by the wrap-aware test does what the standard demands, and no more |
| PackedInterrupts.DisabledIsNotAsked | VirtIO/VirtIORing-Packed.c:330-338 | After disable_cb the flags that the device finds demand no interrupt, whatever it returned |
| PackedKicks.StepKeepsBell | VirtIO/VirtIORing-Packed.c:534-576 | Every interleaved step keeps: an idle device that was not woken was last notified before the position it waits for |
| PackedKicks.NoLostKick | VirtIO/VirtIORing-Packed.c:534-576 | In every interleaving an idle device with a buffer to fetch was kicked since it went idle, or the kick_prepare that is still to come kicks; kicks are decided while avail_wrap_counter is in step and with at most 2^15 additions |
| SplitSpec.PowerOfTwoDivides | VirtIO/VirtIORing.c:294-294 | A power of two, as the driver tests it, divides 2^16 |
| SplitSpec.IndexSlot | VirtIO/VirtIORing.c:294-294 | num - 1 masks the 16-bit index to the slot of the unbounded one |
| SplitQueue.SplitVirtqueue.GetUnusedDesc | VirtIO/VirtIORing.c:196-204 | Takes the head of the free list |
| SplitQueue.SplitVirtqueue.PutUnusedDescChain | VirtIO/VirtIORing.c:207-222 | Gives the chain back and ends, after as many steps as it has descriptors |
| SplitQueue.SplitVirtqueue.FillChain | VirtIO/VirtIORing.c:261-290 | The direct branch: the whole chain with NEXT on all but the last |
| SplitQueue.SplitVirtqueue.FillIndirect | VirtIO/VirtIORing.c:239-257 | The indirect branch: the linked table and its one descriptor |
| SplitQueue.SplitVirtqueue.Publish | VirtIO/VirtIORing.c:293-297 | The avail entry, then the index; only the index publishes |
| SplitQueue.SplitVirtqueue.AddBuf | VirtIO/VirtIORing.c:225-300 | Succeeds iff an indirect page can be used (two elements or more) or the list fits; then, from the arguments: opaque of the head is the token and the avail entry the head, and either element i stands in the i-th descriptor of the free list with its address, length, WRITE from out on and NEXT but in the last, or one INDIRECT descriptor names the linked table, which holds the elements in order; no other descriptor is touched; only the last of its stores publishes |
| SplitQueue.SplitVirtqueue.GetBuf | VirtIO/VirtIORing.c:303-334 | Answer and new state of get_buf |
| SplitQueue.SplitVirtqueue.DetachUnusedBuf | VirtIO/VirtIORing.c:445-460 | Detaches the lowest head and steps the avail index back |
| SplitQueue.SplitVirtqueue.DisableCb | VirtIO/VirtIORing.c:412-421 | The copy of the driver says no interrupt; without event suppression the shared flag, too, if the two agreed before |
| SplitQueue.SplitVirtqueue.EnableCb | VirtIO/VirtIORing.c:375-388 | Flag, then event index; true iff nothing is unread |
| SplitQueue.SplitVirtqueue.KickPrepare | VirtIO/VirtIORing.c:344-362 | The counter is reset; without event suppression it kicks iff the device has not declined notifications; else the decision on the event index |
| SplitQueue.SplitVirtqueue.constructor | VirtIO/VirtIORing.c:143-151 | A new queue is in the specified initial state |
| SplitSystem.AddKeepsPool | VirtIO/VirtIORing.c:225-300 | add_buf keeps the partition, the table and the count and is the abstract add |
| SplitSystem.FreeHopsDiffer | VirtIO/VirtIORing.c:196-204 | The descriptors that add_buf takes off the free list one after the other are all different |
| SplitSystem.RemoveKeepsPool | VirtIO/VirtIORing.c:207-222 | Giving a buffer back keeps them, whether the read index steps on or the avail index back |
| SplitSystem.ChainOf | VirtIO/VirtIORing.c:207-222 | The chain of a buffer in flight is the one put_unused_desc_chain follows, so it ends at the last descriptor |
| SplitSystem.HeadIsOwned | VirtIO/VirtIORing.c:452-453 | A non-NULL opaque marks the head of a buffer in flight |
| SplitSystem.IndexDifferenceCountsHeads | VirtIO/VirtIORing.c:405-405 | (u16)(avail idx - last_used) is the number of buffers in flight, across detach and the 16-bit wrap |
| SplitSystem.NothingLeftMeansAllFree | VirtIO/VirtIORing.c:451-458 | When detach_unused_buf finds nothing all descriptors are free |
| SplitSystem.GetIsExact | VirtIO/VirtIORing.c:310-321 | get_buf returns nothing iff nothing is unread, else the head, length and token of the first returned buffer |
| SplitSystem.AnyGetKeepsInv | VirtIO/VirtIORing.c:303-334 | Whatever else the used ring holds, get_buf of an element that names a buffer in flight takes that buffer with its own token, and keeps partition, records, count and tables |
| SplitDetach.GetKeepsPoolIff | VirtIO/VirtIORing.c:207-222 | get_buf leaves a state that can be explained by any buffers in flight if and only if the element it reads names one, that is its opaque is not NULL |
| SplitDetach.FreedAgain | VirtIO/VirtIORing.c:207-222 | The failing input: a new queue and a used element 0 leave 2 num descriptors free |
| SplitSystem.FetchReadsTheBuffer | VirtIO/VirtIORing.c:239-296 | The device sees the index ahead iff a buffer is available, and walking the descriptors from its entry, or the linked indirect table that they name, yields exactly the scatter list that was added |
| SplitSystem.CompleteKeepsStep | VirtIO/VirtIORing.c:303-334 | An out-of-order completion keeps the invariant |
| SplitDetach.DetachLeavesTheOthersIff | VirtIO/VirtIORing.c:445-460 | After detach_unused_buf the device sees exactly the unfetched buffers still in flight if and only if the one detached was the newest and not fetched |
| SplitSystem.StepKeepsInv | VirtIO/VirtIORing.c:225-460 | Every step of client, driver and device - detach_unused_buf at any time, and a device that stores what it likes in the used ring, as long as get_buf finds an element that names a buffer in flight - keeps the invariant and is a step of the abstract queue |
| SplitSystem.RunRefinesQueue | VirtIO/VirtIORing.c:225-460 | Every run of such steps keeps the invariant and refines the same abstract queue as the packed ring |
| SplitSystem.StartIsInv | VirtIO/VirtIORing.c:143-151 | A new queue satisfies it |
| SplitSystem.NothingLostOrDuplicated | VirtIO/VirtIORing.c:303-334 | From a new queue, over every sequence of add_buf, detach_unused_buf and get_buf, as long as get_buf finds an element that names a buffer in flight, each token is returned at most as often as accepted, and the rest is in flight |
| SplitSystem.KickIsExact | VirtIO/VirtIORing.c:344-362 | With event suppression kick_prepare kicks iff a buffer added since the last kick has the index asked for, however many were added; without, iff the device has not declined notifications |
| SplitSystem.NothingVisibleBeforeTheLastStore | VirtIO/VirtIORing.c:293-296 | In every memory before the last store of add_buf a device sees the index, the chains in flight and the unread avail entries as they were |
| SplitRefinement.GetBufIsVq | VirtIO/VirtIORing.c:303-334 | get_buf takes the buffer that the device returned first |
| SplitRefinement.SubmissionIsVq | VirtIO/VirtIORing.c:225-300 | add_buf goes in exactly if it fits, as one entry of its cost |
| SplitRefinement.CompletionIsVq | VirtIO/VirtIORing.c:303-334 | A completion adds the buffer behind the returned ones |
| SplitRefinement.OtherStepsKeepVq | VirtIO/VirtIORing.c:344-421 | Fetching and the notification steps leave that queue alone |
| SplitRefinement.RunIsVq | VirtIO/VirtIORing.c:225-421 | Every run of honest steps without detach steps through states of the same queue |
| SplitRefinement.StartIsVq | VirtIO/VirtIORing.c:143-151 | A new ring is a new such queue |
| SplitRefinement.CompletionCommutesWithAdd | VirtIO/VirtIORing.c:261-297 | A completion writes nothing that add_buf writes, and leads to the same state before, during or after it |
| SplitRefinement.FetchCommutesWithAdd | VirtIO/VirtIORing.c:261-297 | So does a fetch, which writes nothing |
| SplitDelivery.SubmissionQueuesTheList | VirtIO/VirtIORing.c:225-300 | A submission that fits appends one buffer with the token of the caller whose list is, element by element, the list of the caller, writable from out on |
| SplitDelivery.FetchReadsTheRequest | VirtIO/VirtIORing.c:239-296 | A fetch reads list and token of the first buffer not yet fetched |
| SplitDelivery.RunDelivers | VirtIO/VirtIORing.c:225-334 | Over every honest run without detach, requests to be fetched before plus requests submitted are requests fetched plus those to be fetched after, in order; likewise the answers on their way back |
| SplitDelivery.DeviceReadsWhatWasSubmitted | VirtIO/VirtIORing.c:225-300 | From a new ring the lists and tokens that the device reads are a prefix of those that clients submitted, as they gave them, and all of them iff the device has seen the avail index |
| SplitDelivery.DriverGetsWhatWasAnswered | VirtIO/VirtIORing.c:303-334 | The tokens and lengths that get_buf hands out are a prefix of those that the device returned, and all of them iff it finds nothing |
| SplitInterrupts.StepKeepsIrq | VirtIO/VirtIORing.c:375-388 | Every interleaved step keeps: a waiting driver with something unread was interrupted, or will be |
| SplitInterrupts.WaitingDriverIsInterrupted | VirtIO/VirtIORing.c:327-330 | Also after a get_buf that found nothing: once the device has returned a buffer and decided about it, an interrupt came after that return |
| SplitInterrupts.NoLostInterrupt | VirtIO/VirtIORing.c:375-388 | Whenever enable_cb returns true, the next returned buffer raises an interrupt that comes after its return, with and without event suppression |
| SplitInterrupts.UsualDeviceIsHonest | VirtIO/VirtIORing.c:167-175 | A device that decides by vring_need_event does what the standard demands, and no more |
| SplitInterrupts.DisabledIsNotAsked | VirtIO/VirtIORing.c:412-421 | After disable_cb the shared flag demands no interrupt, whatever the device returned; with event suppression nothing shared is written, and the driver no longer waits |
| SplitKicks.StepKeepsBell | VirtIO/VirtIORing.c:344-362 | Every interleaved step keeps: an idle device that was not woken was last notified before the buffer it waits for |
| SplitKicks.NoLostKick | VirtIO/VirtIORing.c:344-362 | In every interleaving an idle device with a buffer to fetch was kicked since it went idle, or the kick_prepare that is still to come kicks, for any number of additions |
| SplitLayout.LayoutFitsExactly | VirtIO/VirtIORing.c:143-161 | For every queue size and power-of-two alignment, with the masks of the source: descriptors, avail ring, used_event right behind it, from the next multiple of the alignment on the used ring, avail_event right behind it, each of its exact length, and the whole as long as the size allocated |
| SplitLayout.ClearRoundsDown | VirtIO/VirtIORing.c:148-158 | Clearing the bits of align - 1 rounds down to a multiple of the power of two, whatever the width |
| ControlCommand.GotIsNotHeld | viosnd/sys/ViosndVirtio.cpp:1029-1031 | A message got from the queue is one it held, and is held no more |
| ControlCommand.FetchedIsMine | viosnd/sys/ViosndVirtio.cpp:1029-1046 | It is in memory with the answer the device gave to its own request |
| ControlCommand.FreedOnce | viosnd/sys/ViosndVirtio.cpp:944-956 | A message that may be freed is not in the queue |
| ControlCommand.ControlChannel.FreeControlMessage | viosnd/sys/ViosndVirtio.cpp:944-956 | Only messages in memory that the queue does not hold are freed |
| ControlCommand.ControlChannel.TakeReturned | viosnd/sys/ViosndVirtio.cpp:1029-1059 | The message waited for gives its response, any other timed out earlier; both are freed |
| ControlCommand.ControlChannel.Delay | viosnd/sys/ViosndVirtio.cpp:1061-1072 | One millisecond passes, a notification follows every hundredth |
| ControlCommand.ControlChannel.Poll | viosnd/sys/ViosndVirtio.cpp:1028-1073 | The loop ends, with the answer to this request, or after exactly one look per millisecond for 5 s that found nothing and 50 more notifications; then the queue has nothing returned, the device still has the message, and it is in memory |
| ControlCommand.ControlChannel.Post | viosnd/sys/ViosndVirtio.cpp:976-1026 | The refusals, and the message in memory and in the queue otherwise |
| ControlCommand.ControlChannel.Command | viosnd/sys/ViosndVirtio.cpp:958-1092 | Which outcome when: a success is the answer of the device to this request; a timeout comes only if, after the 5000th idle look, nothing is returned and the device still has the message; between calls the messages in memory are those the queue holds, each freed once |
| PacketNumbers.PacketOrderIsExact | viosnd/sys/ViosndWaveRT.cpp:320-326 | The signed 32-bit comparison orders packets less than 2^31 apart |
| PacketNumbers.CollisionFreeIffDivides | viosnd/sys/ViosndWaveRT.cpp:1253-1256 | Packets in a row never share a slot if and only if the number of slots divides 2^32 |
| Resampler.ClosedForm | viosnd/sys/ViosndWaveRT.cpp:476-484 | n frames give (phase + n rate) div 48000 outputs and leave the remainder |
| Resampler.OutputIsStep | viosnd/sys/ViosndWaveRT.cpp:477-482 | The j-th output is the frame at which the quotient steps |
| Resampler.Composition | viosnd/sys/ViosndWaveRT.cpp:453-488 | Resampling a concatenation is resampling the parts with the phase carried |
| Resampler.LookedIsFewest | viosnd/sys/ViosndWaveRT.cpp:476-476 | The capped loop looks at all frames or at the fewest that fill the output |
| Resampler.FilledTwice | viosnd/sys/ViosndWaveRT.cpp:780-811 | Filling a period from one packet and then from another is filling it from the two joined, the frames not looked at included |
| Resampler.Downsample | viosnd/sys/ViosndWaveRT.cpp:453-488 | The loop writes exactly the kept frames and the phase; an invalid rate changes nothing |
| Resampler.ThreePacketsFillAPeriod | viosnd/sys/ViosndWaveRT.cpp:780-811 | Any three packets of 512 frames fill exactly 512 frames from any phase, and leave the phase mod 16000 |
| PcmCopy.GainOneIsIdentity | viosnd/sys/ViosndWaveRT.cpp:417-451 | With gain 1 the copy is exact |
| PcmCopy.GainedSample | viosnd/sys/ViosndWaveRT.cpp:429-438 | Written out in bytes: the i-th sample of the copy is the i-th of the source times the gain, held to -32768..32767 |
| PcmCopy.CopyGain | viosnd/sys/ViosndWaveRT.cpp:417-451 | Every sample amplified and clamped, an odd byte copied, nothing else touched; the result is the peak |
| Capture.SuccessIsDropOldest | viosnd/sys/ViosndWaveRT.cpp:1282-1291 | A completion appends to a queue of the newest packets - together with the failed ones before it |
| Capture.EveryPacketOnce | viosnd/sys/ViosndWaveRT.cpp:1232-1330 | Over every run: at most NotificationCount ready, packets handed out in order and once, completed = read + dropped + ready |
| Capture.ReadyIsAudioIff | viosnd/sys/ViosndWaveRT.cpp:1282-1284 | What is ready is all audio if and only if no failure is among the packets counted in |
| Capture.FailedPacketIsGiven | viosnd/sys/ViosndWaveRT.cpp:1282-1284 | A run in which the client is handed a packet that failed |
| Capture.SuccessIsHeld | viosnd/sys/ViosndWaveRT.cpp:1253-1280 | The new packet is held whole in its slot, and no ready packet is overwritten |
| Capture.SuccessIsCounted | viosnd/sys/ViosndWaveRT.cpp:1282-1291 | The 32-bit counters follow the window |
| Capture.LateSuccessStepsBackIff | viosnd/sys/ViosndWaveRT.cpp:1282-1291 | The counters after a completion out of turn, exactly; the read position steps back to packets handed out before if and only if the late packet had been passed already |
| Capture.CaptureStream.SubmitCapturePacket | viosnd/sys/ViosndWaveRT.cpp:1193-1230 | Refusals, the next number on success, no IO block lost |
| Capture.CaptureStream.SubmitUpToTarget | viosnd/sys/ViosndWaveRT.cpp:1771-1827 | Keeps min(4, NotificationCount) in flight while the queue accepts |
| Capture.CaptureStream.CopyPacket | viosnd/sys/ViosndWaveRT.cpp:1253-1280 | Byte by byte: the first bytesRead of the slot are the audio, the rest of it is 0, and no other byte changes |
| Capture.CaptureStream.Reclaim | viosnd/sys/ViosndWaveRT.cpp:1248-1328 | One completion of the oldest packet in flight: a success logs, byte by byte, the audio that the device recorded and silence from bytesRead on, a failure logs a failed packet; one step of the window |
| Capture.CaptureStream.ReclaimCapturePackets | viosnd/sys/ViosndWaveRT.cpp:1232-1330 | All completions, in the order of submission: the k-th packet logged is, byte by byte, what the device recorded in the k-th completion, or failed as it did |
| Capture.CaptureStream.GetReadPacket | viosnd/sys/ViosndWaveRT.cpp:2398-2437 | Hands out and removes the oldest ready packet, every byte of whose slot is the byte logged for it; tells whether there are more |
| Capture.CaptureStream.constructor | viosnd/sys/ViosndWaveRT.cpp:1954-1963 | The counters at the start of a run |
| Render.MergeAllOk | viosnd/sys/ViosndWaveRT.cpp:780-811 | Merged packets were all written, at most three, none after the end of the stream; and the loop stops only where it must |
| Render.MergeIsJoined | viosnd/sys/ViosndWaveRT.cpp:780-811 | Merging packet by packet is resampling the packets joined, as far as the period has room; the source bytes are the sum of theirs |
| Render.FramesOfPacket | viosnd/sys/ViosndWaveRT.cpp:758-758 | Packet k is read from slot k mod NotificationCount |
| Render.FullFlowTakesThree | viosnd/sys/ViosndWaveRT.cpp:770-816 | In full flow a fallback period is exactly three packets, full, from any phase |
| Render.MergeKeepsPhaseIff | viosnd/sys/ViosndWaveRT.cpp:780-811 | For every client, merging brings the phase back if and only if the frames available (three packets at most, written, up to the end of the stream) are a multiple of three below 1536, or 1536 and the phase was below 16000; and it puts out nothing if and only if they do not make one output frame |
| Render.FailedSubmitKeepsPhaseIff | viosnd/sys/ViosndWaveRT.cpp:816-876 | A failed fallback submission leaves the stored phase as it was if and only if there was nothing to put out or the frames available bring the phase back; on the first submission in full flow they do not |
| Render.FailedSubmitChangesNothing | viosnd/sys/ViosndWaveRT.cpp:819-876 | A failed submission changes neither pool nor next packet, and off fallback nothing at all |
| Render.SentInOrder | viosnd/sys/ViosndWaveRT.cpp:844-846 | Submitted packets are the next ones, so that the log of packet numbers goes on without a gap or a repetition, and none goes out before the client wrote it |
| Render.SentKeepsBooks | viosnd/sys/ViosndWaveRT.cpp:819-846 | A submission keeps pool, order and payment |
| Render.ReclaimKeepsBooks | viosnd/sys/ViosndWaveRT.cpp:957-1016 | A returned block keeps them, and is paid its source bytes, once per submission |
| Render.PositionGrowsBySourceBytes | viosnd/sys/ViosndWaveRT.cpp:930-1021 | The position grows by exactly the source bytes of the returned blocks, preroll apart; free + outstanding = 12 |
| Render.DetachKeepsBooks | viosnd/sys/ViosndWaveRT.cpp:1035-1053 | A detached block goes back to the pool unpaid; what get_buf gives afterwards is open |
| Render.BackKeepsBooks | viosnd/sys/ViosndWaveRT.cpp:940-1021 | The device returns a submission: get_buf gives its block, or, after a detach, any block in the queue |
| Render.PaidIsBack | viosnd/sys/ViosndWaveRT.cpp:957-1016 | Unless a block was detached while the queue held it, everything paid for was returned by the device |
| Render.DetachPaysTheNext | viosnd/sys/ViosndWaveRT.cpp:1035-1053 | If one was, the next submission takes its block and descriptors, and when the device returns the detached one the position grows by the new one, which the device still has |
| Render.WriteKeepsBooks | viosnd/sys/ViosndWaveRT.cpp:2439-2487 | SetWritePacket keeps them, whatever number it is given |
| Render.HasWritableIsExact | viosnd/sys/ViosndWaveRT.cpp:328-335 | For a client that writes in order the test says exactly whether something written is left to submit |
| Render.ForgottenIffMaxulong | viosnd/sys/ViosndWaveRT.cpp:2449-2452 | After a packet written in its turn the worker has something to submit if and only if the packet is not numbered MAXULONG |
| Render.RacedWriteKeepsOrderIff | viosnd/sys/ViosndWaveRT.cpp:2449-2452 | A packet written between the worker's test and the store of its submission keeps the order if and only if it is not the client's first, or happens to be the one after those submitted |
| RenderTape.SilencedBytes | viosnd/sys/ViosndWaveRT.cpp:761-764 | Byte by byte: before the given length a short packet stays, from there on it is zero |
| RenderTape.PaddedSlots | viosnd/sys/ViosndWaveRT.cpp:757-764 | Padding touches only the slot of the packet submitted |
| RenderTape.BlockHoldsThePacket | viosnd/sys/ViosndWaveRT.cpp:758-769 | At the full rate the block submitted for packet k holds slot k mod NotificationCount, frame by frame |
| RenderTape.BlockHoldsTheMerge | viosnd/sys/ViosndWaveRT.cpp:770-818 | At the fallback rate it holds what the resampler keeps of packets k, k + 1, ... joined, and stands for their bytes |
| RenderTape.EndIsRemembered | viosnd/sys/ViosndWaveRT.cpp:2452-2470 | The last packet and its length are remembered as the end; a packet written at or after an end takes it back, and never is a packet the end that was not written as such |
| RenderTape.WriteKeepsTape | viosnd/sys/ViosndWaveRT.cpp:2449-2470 | What a client writes waits in its slot, and what waited before still does, unless the client wrote into a slot that was waiting or after an end that was |
| RenderTape.SubmissionKeepsTape | viosnd/sys/ViosndWaveRT.cpp:735-846 | A submission plays what waits first: the block holds what the client wrote for its packets, cut at the end of the stream, and the rest still waits |
| RenderTape.EarnsItsBytes | viosnd/sys/ViosndWaveRT.cpp:964-985 | A block earns, and the driver pays for it, the bytes of the packets it was made of |
| RenderTape.SubmittedUnlessStuck | viosnd/sys/ViosndWaveRT.cpp:748-876 | A packet is submitted if and only if the lock is had, a block and two descriptors are free, and at the fallback rate the frames available make at least one |
| RenderStream.RenderStream.FillFallback | viosnd/sys/ViosndWaveRT.cpp:770-817 | The loop fills the fallback buffer as specified, over written packets only |
| RenderStream.RenderStream.PadPacket | viosnd/sys/ViosndWaveRT.cpp:761-764 | Short packets are silenced in their slot |
| RenderStream.RenderStream.SendBlock | viosnd/sys/ViosndWaveRT.cpp:819-876 | The block goes from the pool to the queue, or back |
| RenderStream.RenderStream.SubmitRenderPacket | viosnd/sys/ViosndWaveRT.cpp:735-879 | Success if and only if the lock is had and the stream is not stuck; the block then on the wire holds, off fallback, slot k mod NotificationCount frame by frame, in fallback what is kept of the packets joined; padding, new books, and the tape goes on |
| RenderStream.RenderStream.SubmitRenderSilencePacket | viosnd/sys/ViosndWaveRT.cpp:881-928 | Success if and only if a block, the lock and two descriptors are to be had; every frame of the block is silent; new books |
| RenderStream.RenderStream.Pay | viosnd/sys/ViosndWaveRT.cpp:961-985 | Position, packet count and record of the paid blocks per returned block |
| RenderStream.RenderStream.ReclaimRenderPackets | viosnd/sys/ViosndWaveRT.cpp:930-1021 | With the lock often enough everything returned is reclaimed, else as many as the lock was had; one payment each |
| RenderStream.RenderStream.CancelRenderWrites | viosnd/sys/ViosndWaveRT.cpp:1023-1066 | What is back is reclaimed and paid; the rest is detached unpaid, as many as the lock is had, whether the device was stopped or not; once drained all 12 blocks are free |
| RenderStream.RenderStream.DetachOne | viosnd/sys/ViosndWaveRT.cpp:1035-1053 | Some block in the queue goes back to the pool, and is marked as detached |
| RenderStream.RenderStream.SetWritePacket | viosnd/sys/ViosndWaveRT.cpp:2439-2487 | The new books; the last packet, its end and, for the first one, what is next are as the client said |
| RenderStream.RenderStream.ClientWrites | viosnd/sys/ViosndWaveRT.cpp:2439-2487 | A client puts a packet in its slot and calls SetWritePacket: the packet is on the tape and waits |
| RenderStream.RenderStream.Prequeue | viosnd/sys/ViosndWaveRT.cpp:1902-1911 | Two blocks of silence are queued if the lock is had and the queue has four descriptors; the next packet stays |
| RenderStream.RenderStream.SubmitUpToTarget | viosnd/sys/ViosndWaveRT.cpp:1681-1739 | Something goes out if and only if the lock is had, the queue is below the target of the mode and the stream is not stuck; given the lock it stops only at the target or stuck: nothing written is left, no block or descriptors are free, or a fallback period would be empty; never above the target |
| RenderStream.RenderStream.SubmitNext | viosnd/sys/ViosndWaveRT.cpp:1688-1738 | One round: written packets first, else silence while preroll is left, else the buffer as it is; nothing past what the client wrote; it fails, given the lock, only if the stream is stuck |
| RenderStream.RenderStream.SwitchToFallback | viosnd/sys/ViosndWaveRT.cpp:1534-1611 | It succeeds if stopping, configuring and starting do, the lock is had and the queue has four descriptors; the writes are cancelled in any case; nothing is detached if everything was back |
| RenderStream.RenderStream.OneRound | viosnd/sys/ViosndWaveRT.cpp:1633-1738 | One round of the worker: given the lock, all that was returned is paid, what is left to submit is submitted up to the target or until the stream is stuck, and if a written packet was left and the stream was not stuck the log grows |
| RenderStream.RenderStream.RenderWorker | viosnd/sys/ViosndWaveRT.cpp:1613-1752 | Any number of rounds: free + outstanding = 12, at most 8 outstanding; of what an orderly client wrote, packets first, first + 1, ... are submitted, each once and in order, in blocks that hold what it wrote for them; given the lock, all that it wrote unless the queue is at its target or the stream stuck; the position grows by exactly the source bytes of the submissions paid, each once; and if the device had returned everything whenever writes were cancelled, those have all been returned |
| AcxStreams.QueuedAllIsNewest | viosnd/sys/ViosndAcxCircuit.cpp:766-792 | However many packets are queued, the newest stay |
| AcxStreams.PopTakesThePeekedIff | viosnd/sys/ViosndAcxCircuit.cpp:939-963 | The pop removes the packet that was peeked at if and only if what was queued meanwhile fitted |
| AcxStreams.ReadyRing.QueueRenderPacket | viosnd/sys/ViosndAcxCircuit.cpp:766-792 | The packet goes in last, the oldest out if the ring was full; every drop counted |
| AcxStreams.ReadyRing.PeekRenderPacket | viosnd/sys/ViosndAcxCircuit.cpp:794-809 | The oldest packet, if any |
| AcxStreams.ReadyRing.PopRenderPacket | viosnd/sys/ViosndAcxCircuit.cpp:811-824 | Removes it |
| AcxStreams.ReadyRing.ClearRenderQueue | viosnd/sys/ViosndAcxCircuit.cpp:826-841 | Empties the queue |
| AcxStreams.AcxStream.SubmitRenderPacket | viosnd/sys/ViosndAcxCircuit.cpp:843-921 | The first idle period goes in flight, if there is one and the queue takes it; if it does not the period has the number all the same |
| AcxStreams.AcxStream.SubmitCapturePeriod | viosnd/sys/ViosndAcxCircuit.cpp:969-1023 | No period is queued twice |
| AcxStreams.AcxStream.Take | viosnd/sys/ViosndAcxCircuit.cpp:1076-1082 | The part under the lock: a returned period was in flight and is idle again |
| AcxStreams.AcxStream.Count | viosnd/sys/ViosndAcxCircuit.cpp:1088-1094 | The part after it: the period counts by the number that it has then |
| AcxStreams.HighestIsMaximum | viosnd/sys/ViosndAcxCircuit.cpp:1092-1094 | PacketsCompleted is one more than the highest number counted |
| AcxStreams.NumberStaysIff | viosnd/sys/ViosndAcxCircuit.cpp:859-890 | Between the two parts a returned period keeps its number if and only if the packets submitted meanwhile are no more than the periods idle below it, or the queue is full before |
| AcxStreams.DrainIsRight | viosnd/sys/ViosndAcxCircuit.cpp:1072-1094 | If they stay below in every round, a drain counts the packets that came back |
| AcxStreams.OvertakenIsCounted | viosnd/sys/ViosndAcxCircuit.cpp:1072-1094 | The failing run: packet 5 comes back, packet 9 takes its period, and 9 is counted as completed while the queue holds it |
| AcxStreams.AcxStream.DrainRenderQueue | viosnd/sys/ViosndAcxCircuit.cpp:1072-1102 | Every period that is returned at the start or during the loop is taken once; with submissions in between, PacketsCompleted is the highest of the numbers read and periods and queue are those after the rounds |
| AcxStreams.AcxStream.DrainCaptureQueue | viosnd/sys/ViosndAcxCircuit.cpp:1107-1167 | For any number of buffers returned during the loop: while running each period goes back in flight, the j-th for packet next + j, and PacketsCompleted is the highest number that came back |
| ConfigRead.AcceptedPassIsConsistent | VirtIO/VirtIOPCICommon.c:150-159 | A pass accepted by a modern device with fewer than 256 changes saw none: the bytes are of one instant |
| ConfigRead.SafeIff | VirtIO/VirtIOPCIModern.c:159-162 | A pass over any fields with so many changes is safe if and only if there were none, or it is one access, or there is a generation and the number is no multiple of 256 |
| ConfigRead.ConfigDevice.ReadFields | VirtIO/VirtIOPCICommon.c:153-156 | One pass, each field as it was when read |
| ConfigRead.ConfigDevice.CreadMany | VirtIO/VirtIOPCICommon.c:143-160 | Ends, and returns each field as it was when read; the bytes are of one instant whenever the condition of SafeIff protects the last pass, and on a modern device its changes are a multiple of 256 |
| ConfigRead.ConfigDevice.ReadConfig | VirtIO/VirtIOPCICommon.c:162-177 | The same for every length, by the number of accesses it takes |
| DmaSlices.FoundIsTheOne | VirtIO/WDF/Dma.c:94-116 | With disjoint buffers the lookup finds the one that contains the address |
| DmaSlices.SlicesAreDisjoint | VirtIO/WDF/Dma.c:214-223 | Slices lie in the block, do not overlap and keep pa - block.pa = va - block.va |
| DmaSlices.PutInOwnBuffer | VirtIO/WDF/Dma.c:225-243 | A slice that is out comes back; an interior or free address changes no slice |
| DmaSlices.PutUndoesGet | VirtIO/WDF/Dma.c:214-243 | Returning the slice just handed out restores the bitmap |
| DmaSlices.GetFailsIffFull | VirtIO/WDF/Dma.c:216-219 | Nothing is handed out exactly if all bits are set |
| DmaSlices.PutIsRightIff | VirtIO/WDF/Dma.c:225-243 | For every address: exactly the slice there is freed, if it is out, and no other - if and only if the lookup does not land in another common buffer at the offset of a live slice |
| DmaSlices.MisplacedReturnHandsOutTwice | VirtIO/WDF/Dma.c:214-243 | Such a return frees a live slice, and the next allocation hands it out again if all before it are taken |
| DmaSlices.ReadsBeyondIff | VirtIO/WDF/Dma.c:229-242 | A buffer holds an address for which FreeSlice looks past the memory of the bitmap if and only if it is another buffer and longer than the slices that memory can mark |
| DmaSlices.SpillsIff | VirtIO/WDF/Dma.c:237-242 | Then memory that is not the bitmap's is written if and only if the bit is set there |
| DmaSlices.LiveSlicesStayApart | VirtIO/WDF/Dma.c:214-243 | From any bitmap, over every run of allocations and of returns of any addresses that PutIsRightIff allows, no slice is handed out twice |
| DmaSlices.SlicedBuffer.AllocateSlice | VirtIO/WDF/Dma.c:214-223 | The first clear bit, and the address in both spaces |
| DmaSlices.SlicedBuffer.FindCommonBuffer | VirtIO/WDF/Dma.c:85-133 | The first block in use that contains the address |
| DmaSlices.SlicedBuffer.FreeSlice | VirtIO/WDF/Dma.c:225-243 | As specified for every address, in the bitmap and past it, and whether it went past |
| DmaSlices.SlicedBuffer.constructor | VirtIO/WDF/Dma.c:264-266 | The bitmap memory is whatever it was |

## Left out

- Dishonest devices: against any device the pool results are claimed - on the split ring up to a used element that names no buffer in flight, where GetKeepsPoolIff is exact - and nothing about positions, notifications or contents. A split get_buf on such an element may not even end, if the descriptors link in a circle.
- Ring positions after detach_unused_buf: it does not move them, so positions, notifications and what the device sees are claimed for runs without it; PackedDetach and SplitDetach describe the first detach.
- enable_cb_delayed: its event index is only a hint, and the split version's result compares promoted integers, so that it does not follow the 16-bit wrap.
- is_interrupt_enabled of the packed ring returns the disable bit; has_buf, kick_always and shutdown add nothing beyond the modelled parts.
- Ring memory is zeroed when a queue is created, as the callers of vring_new_virtqueue do it.
- The count of additions since the last kick is unbounded; its own wrap after 2^32 additions without a kick is not modelled.
- The packed flag word is a record of its five bits (WordIsFaithful ties it to the word); addresses and lengths are unbounded.
- PackedSystem.KickIsExact, PackedKicks.NoLostKick: in descriptor mode for at most 2^15 additions since the last kick and while avail_wrap_counter is in step; PackedKickIsExact gives the decision for every number of additions, KicksRightIffEvenlyManyFullChains when the counter is in step.
- PackedInterrupts.NoLostInterrupt: the device reads the flags and then, as it decides, the event word; how the interrupt reaches the driver's callback is not modelled.
- SplitQueue.SplitVirtqueue.AddBuf: what stands in the descriptors of a direct chain is stated for a free list that holds no descriptor twice, which FreeHopsDiffer proves of every state that is reached.
- PackedDelivery.RunDelivers, SplitDelivery.RunDelivers: for runs with an honest device and without detach_unused_buf, where positions describe the ring.
- ControlCommand.ControlChannel.Command: the wait of up to 1 ms for a non-zero response code reads memory that an honest device has written already; request and response are two direct elements. The ACX version of the command, which frees a message that timed out, is not this protocol.
- Capture.CaptureStream.Reclaim: completions come back in order (LateSuccessStepsBackIff says what the counters do with one that does not), and fewer than 2^32 - 1 packets fail in a row; the completion status and length arrive as values. The noise gate is compiled out. The overflow and read counts are statistics and unbounded.
- Capture and render streams are alone on their queue; starting, stopping and freeing the pools, events, positions by clock and logging are not modelled.
- Render packets are whole frames, at most 2048 bytes, in a buffer that is allocated. In the runs SetWritePacket is a step between the worker's calls; RacedWriteKeepsOrderIff is about one that is not. The NULL in an empty pool slot is not modelled.
- RenderStream.RenderStream.ClientWrites: the client writes a packet as a whole, before SetWritePacket. Of a client that writes into a slot still waiting, after an end still waiting, or out of order, the stream plays what the buffer holds (BlockHoldsThePacket, BlockHoldsTheMerge), and no claim compares that with what was written.
- RenderStream.RenderStream.DetachOne: once a block was detached while the queue held it, the model lets get_buf take any return for any block in the queue, or for none. That covers the packed ring (AnyGetKeepsInv; a bad-ring stop ends the run) and the split ring up to the first used element without a token.
- AcxStreams.AcxStream.Count: the number is read once; the source reads it for the test and again for the store. The status is read there too and may have been cleared by then, which counts an overrun too many.
- AcxStreams.AcxStream.DrainRenderQueue, AcxStreams.AcxStream.DrainCaptureQueue: the device returns some finite number of buffers during the loop, any number; else the loop need not end.
- The period contents, DMA mapping and packet notification of the ACX streams.
- ConfigRead.ConfigDevice.CreadMany: the configuration changes finitely often, without which the loop need not end.
- Blocks of DMA memory are smaller than 4 GB. Adding, deleting and marking buffers is not modelled.
- Capability lists, BARs, format negotiation, volume, topology and build scripts are plumbing.
