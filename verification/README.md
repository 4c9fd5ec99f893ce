# Verified model of the vhost-user client library

The library gives an application byte-wise reads and writes on a SCSI disk behind a virtio
queue. This project models its core and proves what the core is for:

- **The split virtqueue driver** (`vring.c`): any number of threads put tasks, one thread gets
  completed tasks back, a device takes chains in order and completes them in any order. Every
  shared access is one step, with the exception named under "Left out". The driver's 16-bit indices are modelled as they are; unbounded
  counters and an ownership map beside them say what the indices mean.
  `VringProtocol`, `VringInvariant`, `VringRefinement`, `VringProperties` are the step system;
  `VringSearch` says when a task is rejected, `VringProgress` that nobody who runs alone gets stuck;
  `VringStall` and `VringReuse` are what goes wrong, in runs put together from the steps of
  `VringSolo`. `Vring` is the driver's object with its arrays updated in place, whose ghost
  history is a run of the step system.
- **The asynchronous interface** (`virtio_dev.c`): a request of any offset and length becomes a
  chain of up to four block commands (read first, write full, read last, write last) with an
  error exit at every stage. `AsyncSpec` is one request as a function; `AsyncProtocol`,
  `AsyncInvariant` and `AsyncCorrectness` are any number of requests in flight over one disk, and
  `SharedBlocks` and `OverlappingRequests` are what goes wrong when they share a block or bytes;
  `PastEnd` is what becomes of a write that reaches past the end of the device; `VirtioTask`,
  `Layout`, `VirtioDev` and `AsyncIo` are the functions and callbacks themselves, with task objects, buffers and an
  allocator that may fail. `AsyncSession` puts them to use: any sequence of submitting a request,
  serving a task (`AsyncTarget`) and polling one, in memory, follows a run of the step system,
  and `Ledger` accounts for every piece of memory meanwhile.
- **Both together** (`AsyncOverRing`): requests whose tasks travel through the ring, served by a
  device that decodes what it finds in memory along the descriptors.
- **The synchronous interface** (`SyncIo`), over a target whose commands may be refused, fail or
  (reads) stop short, and which decodes the command blocks that `Cdb` and `Endian` encode.
- **Hand-offs and control**: the output ring with its watermark and eventfd (`OutRing`), the
  blocking submit (`SubmitSync`), and the poller's adaptive sleep interval (`SleepController`).

`Common` and `Blocks` hold the shared vocabulary: sequences without repetition, the counting
argument, splicing bytes, and the arithmetic of byte ranges over blocks.

## Main results

1. `VringRefinement.RunRefines` and `ReturnedExactlyOnce`: every run of the ring is a run of a
   plain collection of tasks. An accepted task is returned exactly once when it has left the
   ring, with the length the device reported, and nothing else is returned. With any number of
   producers a task is rejected only after every slot was seen occupied since its producer began
   the search, and losing a race is no reason (`VringSearch.RejectedOnlyWhenFull`); from every
   reachable state a producer that runs alone ends, or waits for one that reserved an earlier
   position (`VringProgress.PutEnds`).
2. `VringProtocol.AvailableFits` and `VringProperties.NoEntryOverwritten`: the comment "ring
   cannot be full if we previously allocated descs" as a counting proof, and its consequence.
3. `VringProperties.MaskedTest`, `MaskedTestExact` and `VringStall.FullRingLooksEmpty`: the masked
   emptiness test is right exactly when fewer than `num` completions are pending; it always is
   when every task has two buffers. For rings of every size a run of single-buffer tasks leads to
   `num` pending completions, and then, by `VringStall.StalledForEver`, whatever any thread or the
   device does, no task is ever returned or accepted again. `VringReuse.LateReadExact`: the walk of
   `vring_get_task`, which frees a slot before it reads where to go on, stays in its chain if and
   only if no producer links the slot in between; for every ring of at least four descriptors
   `WalkMisled` is a run in which one does.
4. `AsyncCorrectness.Serializable`, `WriteOutcome`, `OrderIrrelevant`: whatever the interleaving
   and the failures, the disk is the sequential effect of the completed requests; a return value
   r means exactly the first r bytes, -1 means no change. Requests that are outstanding together
   must not overlap unless both read, and two writes must not share a block either
   (`OverlappingRequests.RuleExactly`); a read and a write of different bytes of one block are
   served correctly. Each kind of pair that the rule forbids breaks the property: for any two
   writes of different bytes with a block in common `SharedBlocks.SharedBlockLosesUpdate` gives a
   run in which nothing fails, both report success, and the bytes of either one in that block are
   lost exactly when they differ from the old disk; for any overlap `OverlappingWrites` and
   `ReadOverWrite` give runs without failures whose results match the order of the output ring
   exactly when the common bytes agree.
5. `AsyncOverRing.EndToEnd`, `EveryServeDecodes`, `PolledToEmpty`, `RequestHasItsTask`: the same
   through the ring, where the device executes what it decodes from memory along the chain.
6. `AsyncIo`: each callback reacts as `AsyncSpec.OnReply` says, puts at most one correct command on
   the ring or pushes the request once, and frees the finished task. A chain of commands is given
   up only if the allocator or the ring has refused something during the call. `AsyncSession.Session`: every
   sequence of `Submit`, `Serve`, `Poll` and `GetCompleted` keeps the objects in memory in step with a run of the
   step system, so its results hold for them (`Quiet`); what the library holds is what the tasks
   on the ring own, and nothing when there is none; `Finish` takes a request through all stages, and
   the result is the full length if and only if nothing was refused and no command failed.
7. `SyncIo.ReadVirtioDev`, `WriteVirtioDev`: slice and splice, under any failures; the result of
   both as a function of the fates of their commands. `ReadPrefix`: a read returns the number of
   bytes before the first one that no command has moved, and -1 exactly if the command that failed
   is for a block of which a part was asked; `WriteResultExact` likewise. `FailsCleanExact`: -1 always leaves the
   disk alone if and only if the range ends on a block boundary or lies in one block.
8. `PastEnd.PastEndExact`: for which asynchronous writes past the end of the device the result
   is the number of bytes that fit, with just those on the disk, if and only if; `PastEnd.Ends`
   gives the outcome of all of them.
9. `OutRing.NoLostWakeUp`, `ReturnsLastLook`, `SubmitSync.HandOffExact`, `EarlyWakeUpExact`,
   `SleepController.DirectionFollowsIops`, `AmountOfChange`.

## Where code and expectation differ

- A ring filled with completed single-buffer tasks looks empty to `vring_get_task` for ever
  (`VringStall.FullRingLooksEmpty`, `StalledForEver`). No caller in the library builds such tasks
  (`Layout.PlanFits`).
- `vring_get_task` frees a slot of the chain before it reads its `next` (vring.c:264-268). If the
  consumer is held up between the two, a producer can take the slot and link it into the chain of
  its own task; then the walk goes on in that chain, frees a slot of a task that is being put,
  and leaves its own next slot taken. `VringReuse.LateReadExact` says exactly when the walk stays
  right, for whatever all other threads do meanwhile; `WalkMisled` is a run that leads it astray.
- `write_virtio_dev` returns -1 when the last, partial block fails, although everything before
  it is already on the disk: after -1 either nothing or exactly the bytes up to the last whole
  block are written (`SyncIo.WriteVirtioDev`). `SyncIo.FailsCleanExact` says for which requests -1
  always means an unchanged disk, and `LastFailureEnds` gives the failures that break it for all
  others. The asynchronous write returns the written prefix in the same situation.
- `pthread_cond_wait` is not called in a loop. A spurious wake-up can make
  `vring_submit_task_sync` return success while the device still works on the task, and it can do
  so exactly when it comes before the callback has locked the mutex
  (`SubmitSync.EarlyWakeUpExact`); in any run success is returned after the hand-off exactly when
  the submitter retook the mutex after the callback was done with it (`SubmitSync.HandOffExact`).
- `blk_read_done` does not count the bytes before the request in its first block: of a read that
  the device cut short it can report bytes that were never transferred, unless the request
  starts at a block or all of it was transferred (`AsyncIo.ShortReadExact`).
- An asynchronous write that reaches past the end of the device is clipped in its first command,
  but its callbacks go by the length before clipping. Without failures it returns the number of
  bytes that fit, with just those on the disk, if and only if it does not both start inside a
  block and reach a whole block past the end, does not end at a block, and goes on to a block
  whose address the device does not have (`PastEnd.PastEndExact`). Otherwise the command for the
  first blocks leaves the device, nothing is written and the result is -1
  (`PastEnd.OverrunWritesNothing`); or the assertion at virtio_dev.c:927 fails after the bytes
  that fit were written (`PastEnd.BlockEndAborts`); or the address wraps and the tail of the
  request overwrites another block, as on a device of 2^32 blocks (`PastEnd.WrapsToBlockZero`).
  A write that starts exactly at the end returns -1, on a device of 2^32 blocks it copies block 0
  (`PastEnd.AtTheEnd`); the synchronous write returns 0 there.
- `eval_performance` casts the previous IOPS to `int`: from 2^31 on a rise can reverse the
  direction. `SleepController.DirectionFollowsIops` gives the exact condition.
- `virtio_completed` leaves its watermark set when it times out. This is harmless for the
  hand-off, which the step system includes.

## Model

| member | source | states |
|---|---|---|
| VringProtocol.AvailableFits | vring.c:149-154 | positions reserved and not yet taken by the device are at most `num`, because each holds a slot |
| VringProtocol.UsedFits | vring.c:254-256 | m times the completions not yet read are at most `num`, if every task has m buffers |
| VringProtocol.TasksFit | vring.c:189-235 | tasks that hold m slots each at the same time number at most `num`/m, and their slots are all distinct |
| VringProtocol.EntriesDistinct | vring.c:145-154 | positions less than `num` apart never share a ring entry, across all 16-bit wraps |
| VringProtocol.NextUsed | vring.c:258-261 | the element at `last_used_idx` names the oldest unread completion; the assertion on `vring_idx` holds |
| VringProtocol.NextAvailable | vring.c:154-161 | the entry at the device's own index is the head of a complete chain of the next task in order |
| VringInvariant.ClaimKeeps | vring.c:205-209 | a compare-and-swap on `tasks[]`, won or lost, keeps the invariant of all other threads; that the loser searches on is `VringSearch.RejectedOnlyWhenFull` and `VringProgress.PutAdvances` |
| VringInvariant.FillKeeps | vring.c:216-233 | linking and describing one slot keeps every other chain intact |
| VringInvariant.UndoKeeps | vring.c:211-214 | giving back one slot of a failed put keeps the invariant |
| VringInvariant.ReserveKeeps | vring.c:150-153 | taking the next position keeps the invariant, whoever wins the race |
| VringInvariant.WriteEntryKeeps | vring.c:154 | writing the avail entry keeps the invariant |
| VringInvariant.PublishTest | vring.c:158-161 | the 16-bit comparison with `avail->idx` holds exactly for the producer that owns the next position |
| VringInvariant.PublishKeeps | vring.c:158-161 | publishing, or failing to, keeps the invariant |
| VringInvariant.PollKeeps | vring.c:249-262 | starting to return a task keeps the invariant |
| VringInvariant.ReleaseKeeps | vring.c:264-270 | freeing one slot of the walk keeps the invariant |
| VringInvariant.RetireKeeps | vring.c:271-273 | finishing the walk keeps the invariant |
| VringInvariant.TakeKeeps | vring.c:154-161 | the device taking an entry at any time keeps the invariant |
| VringInvariant.CompleteKeeps | vring.h:76-80 | the device completing any chain it holds keeps the invariant |
| VringRefinement.StepKeepsInv | vring.c:140-274 | every enabled step of any thread or the device keeps the invariant |
| VringRefinement.FreshInv | vring.c:54-97 | a new ring satisfies the invariant |
| VringRefinement.StepRefines | vring.c:182-274 | every step is a step, or no step, of a plain collection of in-flight tasks |
| VringRefinement.RunKeepsInv | vring.c:140-274 | the invariant holds in every state of every run that starts in it |
| VringRefinement.RunExtended | vring.c:182-274 | every enabled step continues every run: the invariant never stands in the way |
| VringRefinement.RunRefines | vring.c:182-274 | every run is a run of the plain collection |
| VringRefinement.FlightCounts | vring.c:235-273 | in the plain collection, accepted tasks are returned or still in flight, one for one |
| VringRefinement.ReturnedExactlyOnce | vring.c:182-274 | in every run from a new ring, returns of a task plus its presence in flight equal its acceptances |
| VringSearch.RejectedOnlyWhenFull | vring.c:189-215 | in every run of any number of producers, when a task is rejected every slot was occupied at some time since its producer last read `task_idx` |
| VringProgress.PutAdvances | vring.c:145-238 | each step of a producer brings it nearer to its end, that after a lost race too, unless it waits for an earlier position to be published |
| VringProgress.PutEnds | vring.c:145-238 | from every state a producer that runs alone ends, or waits for its turn to publish |
| VringProgress.GetEnds | vring.c:264-273 | a call of `vring_get_task` under way returns its task |
| VringReuse.LateReadExact | vring.c:264-268 | whatever all others do between freeing a slot of the walk and reading its `next`: the walk goes on to the next slot of its own chain if and only if no producer linked the slot in between |
| VringReuse.WalkMisled | vring.c:264-268 | for every ring of at least four descriptors, a run in which one does, and the walk goes on to a slot of the other task |
| VringProperties.NoEntryOverwritten | vring.c:149-154 | writing `avail->ring[idx & mask]` never changes an entry that the device has not taken |
| VringProperties.PublishedIsChained | vring.c:140-163 | every published position not yet taken holds the head of a fully linked and described chain |
| VringProperties.SomePublisherAdvances | vring.c:158-161 | of all publishers exactly the owner of the next position can advance, and it exists |
| VringProperties.ChainOwnership | vring.c:189-235 | from `vring_idx`, following `next` visits exactly `count` > 0 distinct slots of a task that the device has, holds or has completed, describing its buffers in order, and the last has no NEXT flag |
| VringProperties.ChainsDisjoint | vring.c:189-235 | chains of different tasks share no slot |
| VringProperties.FollowTail | vring.c:264-270 | following `next` along a linked list of slots visits just that list |
| VringProperties.WalkFreesOwnSlots | vring.c:264-270 | a step of the walk frees one slot of the returned task and no other; at the end none is left |
| VringProperties.RollbackFreesOwnSlots | vring.c:210-215 | with concurrent producers, a rollback clears only the caller's own slots, and all of them |
| VringProperties.MaskedTest | vring.c:254-256 | the test reports empty if and only if no completion or exactly `num` completions are pending |
| VringProperties.MaskedTestExact | vring.c:254-256 | with at least two buffers per task it reports empty if and only if none is pending |
| VringProperties.DrainedWhenEmpty | vring.c:254-256 | if every task has at least two buffers, polling until empty leaves no completed task behind |
| VringProperties.PollTakesOldest | vring.c:258-262 | a pending completion is returned by the next call, oldest first |
| VringStall.FullRingLooksEmpty | vring.c:254-256 | for every ring size, a run of single-buffer tasks that ends with `num` completions pending and a ring that looks empty |
| VringStall.StallPersists | vring.c:254-256 | from such a state no step of any thread or the device returns, accepts or completes a task, and the state stays such |
| VringStall.StalledForEver | vring.c:254-256 | in every run, from such a state on, nothing is returned or accepted and every poll leaves everything as it is |
| Vring.Vring.PutTask | vring.c:182-238 | alone, it succeeds if and only if the buffers number at most the free slots, for any search hint; on failure the table and the indices are as before |
| Vring.Vring.FindSlot | vring.c:190-206 | the circular search finds a free entry, or reports full exactly when there is none |
| Vring.Vring.Rollback | vring.c:210-215 | the slot table is exactly as before the call |
| Vring.Vring.SetDesc | vring.c:222-231 | the previous descriptor is linked and the new one describes its buffer |
| Vring.Vring.ReservePosition | vring.c:149-153 | the task gets the next position in order |
| Vring.Vring.PublishEntry | vring.c:154-161 | the entry and then the index are written; the task is available at its position |
| Vring.Vring.GetTask | vring.c:245-274 | returns the oldest completed task with the device's length and frees exactly its slots; nothing exactly when none or `num` are pending |
| Vring.Vring.Walk | vring.c:264-270 | terminates and frees exactly the slots of the task |
| Vring.Vring.DeviceTake | vring.c:154-161 | the array operations of the device side are the step of the model |
| Vring.Vring.DeviceComplete | vring.h:76-80 | the array operations of the device side are the step of the model |
| Vring.ClaimsCount | vring.c:205-216 | claimed slots use up free entries one for one |
| Blocks.RangeFacts | virtio_dev.c:738-773 | how a byte range splits into a head, whole blocks and a tail |
| Blocks.EndFits | virtio_dev.c:723-724 | a range inside the device touches only blocks of the device |
| AsyncInvariant.LaunchKeeps | virtio_dev.c:1148-1158 | starting a request that the rule allows keeps the invariant of all others |
| AsyncInvariant.ExecuteOk | virtio_dev.c:1075-1143 | a command of a request, executed or failed by the device, changes only the bytes of its own request, as its stage says |
| AsyncInvariant.NeedsOther | virtio_dev.c:815-1018 | what a request reads or puts back is written by no other request that the rule allows beside it |
| AsyncInvariant.MergedFirstCarries | virtio_dev.c:988-1000 | the first write carries the request from its first byte and restores the rest of the block |
| AsyncInvariant.MergedLastCarries | virtio_dev.c:851-856 | the last write carries the end of the request and restores the rest of the block |
| AsyncInvariant.CallbackOk | virtio_dev.c:788-1018 | a callback issues a correct next command or finishes with a correct return value |
| AsyncInvariant.RejectOk | virtio_dev.c:869-874 | a command that cannot be submitted ends the request with what was written before |
| AsyncInvariant.WholeReadFinishes | virtio_dev.c:650-686 | a finished read delivers exactly the slice that was asked for |
| AsyncInvariant.StepInside | virtio_dev.c:788-1143 | a step of one request keeps the invariant of all requests |
| AsyncInvariant.FinishKeeps | virtio_dev.c:628-645 | pushing a request to the output ring keeps the invariant |
| AsyncCorrectness.InitInv | virtio_dev.c:225-230 | a device with any contents and nothing outstanding satisfies the invariant |
| AsyncCorrectness.RunKeepsInv | virtio_dev.c:628-1158 | the invariant holds in every state of every run |
| AsyncCorrectness.StepKeeps | virtio_dev.c:628-1158 | every step keeps the invariant of the whole system |
| AsyncCorrectness.RunExtended | virtio_dev.c:628-1158 | every enabled step continues every run |
| AsyncCorrectness.Serializable | virtio_dev.c:788-1143 | with nothing outstanding the disk is the replay of the completions as plain byte writes, and each completion returned what the replay returns |
| AsyncCorrectness.WriteOutcome | virtio_dev.c:788-1143 | one write under any failures: r >= 0 means exactly the first r bytes are written, -1 no change, the full length exactly without a failure |
| AsyncCorrectness.CompletedExactlyOnce | virtio_dev.c:628-645 | in every run a request is in the output ring once if it was accepted and is no longer outstanding, and not at all otherwise |
| AsyncCorrectness.Progresses | virtio_dev.c:788-1143 | every step brings its request closer to the end; at most four commands are issued |
| AsyncCorrectness.ReplayedByte | virtio_dev.c:815-1143 | each byte of a replay of disjoint writes is the one byte written to it |
| AsyncCorrectness.OrderIrrelevant | virtio_dev.c:815-1143 | disjoint completions leave the same disk in every order |
| SharedBlocks.RuleIsAll | virtio_dev.c:628-1158 | the steps with and without the rule on shared blocks differ in nothing but the rule |
| SharedBlocks.ForbiddenExactly | virtio_dev.c:815-1018 | for two writes of different bytes the rule forbids exactly a common block |
| SharedBlocks.RunsToEnd | virtio_dev.c:815-1018 | whatever other requests are outstanding, a write whose commands all succeed ends with its full length, and its blocks show it over what it has read |
| SharedBlocks.OverwritesBlock | virtio_dev.c:851-856 | a write that goes on from an answer that is out of date puts the old contents of that block back around its own bytes |
| SharedBlocks.SharedBlockLosesUpdate | virtio_dev.c:815-1018 | for every block size, disk and two writes of different bytes with a common block, and for either of them: a run without failures in which it loses its bytes in that block, all else is as it should be, and the disk is the replay exactly when these bytes were there before |
| OverlappingRequests.RuleExactly | virtio_dev.c:628-1158 | the rule on outstanding requests forbids exactly overlaps of which one writes, and writes with a common block |
| OverlappingRequests.OverlappingWrites | virtio_dev.c:815-1018 | for any two overlapping writes a run without failures after which the disk is the replay of the output ring if and only if their common bytes are equal |
| OverlappingRequests.ReadOverWrite | virtio_dev.c:650-1018 | for any write that overlaps a read a run without failures in which the data of the read agree with the completions before it if and only if the write did not change its bytes |
| PastEnd.ReceivedDecodes | virtio_dev.c:338-356 | what the device makes of a command is what it decodes from the request buffer |
| PastEnd.Ends | virtio_dev.c:788-1143 | how every asynchronous write past the end of the device ends when nothing but the device refuses anything: result, bytes on the disk, or a failed assertion |
| PastEnd.PastEndExact | virtio_dev.c:1055-1056 | it returns the number of bytes that fit and has written just those if and only if it does not overrun from inside a block, does not end at a block, and goes on to a block that cannot be addressed |
| PastEnd.NextBlock | virtio_dev.c:923-929 | requests that end less than a block past the end go on to such a block, unless the device has 2^32 blocks |
| PastEnd.OverrunWritesNothing | virtio_dev.c:993-1000 | a write from inside a block that overruns: -1, and nothing is written |
| PastEnd.BlockEndAborts | virtio_dev.c:901-927 | a write past the end that ends at a block: the assertion fails after what fits is written |
| PastEnd.WrapsToBlockZero | virtio_dev.c:338-356 | on a device of 2^32 blocks the tail of a write past the end overwrites the start of block 0 |
| PastEnd.AtTheEnd | virtio_dev.c:1121-1143 | a write that starts exactly at the end fails with -1, and copies block 0 if the device has 2^32 blocks |
| AsyncOverRing.RequestLinks | vring_poller.c:289-297 | a labelled step of the ring and the step of its request keep both in step |
| AsyncOverRing.StepKeeps | vring_poller.c:193-198 | every joint step keeps the invariants of ring, requests and their link |
| AsyncOverRing.StartInv | vring.c:54-97 | a new ring in front of any disk, with empty memory, satisfies the joint invariant |
| AsyncOverRing.RunExtended | vring_poller.c:193-198 | every enabled joint step continues every joint run |
| AsyncOverRing.RunProjects | vring_poller.c:193-198 | a joint run is a run of the ring and a run of the requests |
| AsyncOverRing.RequestHasItsTask | vring_poller.c:289-297 | a request in flight has exactly one task, on the ring, in the matching state |
| AsyncOverRing.PolledToEmpty | vring_poller.c:192-198 | polling until empty runs the callback of every completed command |
| AsyncOverRing.ChainShows | vring.c:216-233 | the buffers that the device reaches from a chain head are those of the task, in order, with 32-bit lengths |
| AsyncOverRing.ServesDecoded | virtio_dev.c:338-356 | the effect of serving a chain on disk and request is that of the command which the device decodes from memory along the chain |
| AsyncOverRing.EveryServeDecodes | virtio_dev.c:338-356 | in every run each command that the device executes is the one it decodes from memory along the chain |
| AsyncOverRing.EndToEnd | virtio_dev.c:1148-1158 | for every run through the ring: serializability, a result that matches the disk, and every accepted request in the output ring exactly once when it is no longer outstanding |
| Endian.RoundTrip | endian.h:48-109 | reading a big-endian field back gives the value modulo the width |
| Endian.RoundTripBack | endian.h:48-109 | every byte string is the encoding of the value read from it |
| Endian.ReadersReadBack | endian.h:48-109 | the three readers undo the three writers |
| Endian.FirstByteLeads | endian.h:48-109 | the first byte of an encoding is its most significant one |
| Endian.ToBe16 | endian.h:55-61 | writes the two bytes of the encoding in place and nothing else |
| Endian.ToBe32 | endian.h:73-81 | writes the four bytes of the encoding in place and nothing else |
| Endian.ToBe64 | endian.h:97-109 | writes the eight bytes of the encoding in place and nothing else |
| Cdb.CreateRwCdb | virtio_dev.c:338-356 | fills the address bytes, the operation code, the address and the count of the request buffer in place, all other bytes stay; what they mean is `Cdb.RequestDecodes` |
| Cdb.RequestDecodes | virtio_dev.c:338-356 | the request buffer is addressed to target 1, LUN 0, and the disk, which takes no other, finds the command that was meant, in the 16-byte form exactly if the device has more than 2^32 blocks |
| Cdb.EncodeDecodes | virtio_dev.c:347-355 | a decoder of the (10) and (16) layouts recovers form, direction, and address and count as far as the fields hold them |
| Cdb.CdbRoundTrip | virtio_dev.c:338-356 | for every block of the device, direction, address and count are recovered if and only if the count fits the length field of the form |
| VirtioTasks.VirtioTask.Create | virtio_task.c:44-64 | a new task, or nothing allocated |
| VirtioTasks.VirtioTask.Destroy | virtio_task.c:66-79 | frees the task and exactly the buffers that it allocated, each once |
| VirtioTasks.VirtioTask.AllocBufPart | virtio_task.c:94-118 | appends a new buffer, zeroed on request, or changes nothing |
| VirtioTasks.VirtioTask.AddBuf | virtio_task.c:123-137 | appends a buffer of the caller, which the task will not free |
| VirtioTasks.CopiesAre | virtio_task.c:71-75 | the freed buffers are exactly those marked as allocated by the library |
| VirtioTasks.NotYetFreed | virtio_task.c:71-75 | no buffer is freed twice |
| Layout.PlanFits | virtio_dev.c:702-1143 | every kind of command uses at least three buffers, or two if it moves no data, and no more than its task was created for |
| Layout.DataSizes | virtio_dev.c:702-1143 | the data buffers hold exactly the blocks of the command |
| Layout.PartsAligned | virtio_dev.c:738-773 | the parts that belong to the request follow one another without a gap |
| Layout.SplitIs | virtio_dev.c:738-773 | the numbers computed for a read are head, whole blocks and tail of its range |
| Layout.PlanServes | virtio_dev.c:358-457 | buffers that the device reads come before those it writes (section 2.6.4.2 of VIRTIO 1.1) and have the size of the command |
| Layout.CommandCovers | virtio_dev.c:702-1143 | the block count of every command times the block size is the total of its data buffers |
| AsyncIo.TaskTells | virtio_dev.c:338-356 | request and data buffers of a task tell the device exactly the intended command, as far as its address field holds the block number |
| AsyncIo.PushToOutring | virtio_dev.c:628-645 | appends the request once and kicks exactly when the watermark is reached |
| AsyncIo.BlkWriteLastBlockDone | virtio_dev.c:788-810 | pushes the request with the result of the specification, frees the task |
| AsyncIo.BlkReadLastBlockDone | virtio_dev.c:815-874 | issues the specified write of the merged block or pushes the request, the latter after an answer that is not an error only if memory or a place on the ring was refused; frees the task, leaks nothing |
| AsyncIo.WrittenBytes | virtio_dev.c:901-906 | the loop sums the parts of the data buffers |
| AsyncIo.FullWriteSum | virtio_dev.c:901-910 | that sum is the number of bytes up to the last whole block, of the clipped request if the write is its first command |
| AsyncIo.BlkWriteFullBlocksDone | virtio_dev.c:880-945 | sets the return value, then issues the specified read, pushes the request or fails its assertion, as specified; gives up only if memory or a place on the ring was refused; frees the task, leaks nothing |
| AsyncIo.BlkReadFirstBlockDone | virtio_dev.c:950-1018 | issues the specified write of the merged and the whole blocks or pushes the request, the latter after an answer that is not an error only if memory or a place on the ring was refused; frees the task, leaks nothing |
| AsyncIo.WriteVirtioDevAsync | virtio_dev.c:1034-1143 | puts the specified first command of a write of any offset and length on the ring if nothing is refused, and otherwise fails and leaves everything as it was |
| AsyncIo.ReadVirtioDevAsync | virtio_dev.c:702-783 | puts the specified command of a read of any offset and length on the ring if nothing is refused, and otherwise fails and leaves everything as it was |
| AsyncIo.Gather | virtio_dev.c:664-681 | collects the bytes of the request from the buffers, up to the number that the device reported, and keeps the rest of the user's buffer |
| AsyncIo.BlkReadDone | virtio_dev.c:650-686 | -1 after an answer with any status or response but 0; otherwise, for any length that the device reports, the user's buffer starts with that many bytes of the slice that was asked for, at most all, and this number is the result; pushes the request, frees the task |
| AsyncIo.ShortReadExact | virtio_dev.c:658-670 | what a read cut short by the device reports was all transferred if and only if the request starts at a block, nothing was, or all of it was |
| AsyncIo.VirtioSubmit | virtio_dev.c:1148-1158 | starts any read or write as specified, and fails only if memory or a place on the ring was refused; empty requests and offsets past the end are answered at once |
| Ledger.Released | virtio_task.c:66-79 | destroying a task leaves exactly what the other tasks own |
| Ledger.Acquired | virtio_task.c:44-64 | a new task owns exactly its own new memory |
| Ledger.NothingLeft | virtio_task.c:66-79 | when no task is left no memory is held |
| AsyncTarget.ServeTask | virtio_dev.c:338-356 | a device that decodes the request buffer of a task moves exactly the data of the intended command between the buffers and the disk, or answers with any other status and response, which the driver takes for a failure |
| AsyncTarget.TaskDecodes | virtio_dev.c:338-356 | a task that tells a command, put on the ring with its buffers in memory, is decoded to that command |
| AsyncTarget.BuiltSubmits | virtio_dev.c:869-874 | a task built by a function of the asynchronous interface for a request, with its buffers at new addresses in memory, can be put on the ring of the joint model |
| AsyncSession.TicketDone | virtio_dev.c:650-1018 | what each callback relies on holds whenever its task has been answered, and it reacts as the request is to react |
| AsyncSession.CallbackKeeps | virtio_dev.c:650-1018 | after every callback each outstanding request has its task with its command, tasks share no memory, and all memory held is owned by one of them |
| AsyncSession.StartKeeps | virtio_dev.c:1148-1158 | the same after starting a request |
| AsyncSession.Session.Submit | virtio_dev.c:1148-1158 | the objects in memory follow the run in which the request is launched, and accepted, or refused, the latter only if memory or a place on the ring was |
| AsyncSession.Session.Serve | virtio_dev.c:338-356 | the objects in memory follow the run in which the device executes the command, or fails it with any status and response that are not both 0 |
| AsyncSession.Session.Poll | vring_poller.c:192-198 | the callback of the stage runs: the request has its next command on the ring, or is in the output ring once with the result of the run and, for a read, its data; it is given up only if the command failed or something was refused |
| AsyncSession.Session.GetCompleted | virtio_dev.c:1211-1219 | takes the oldest finished request from the output ring, or nothing exactly when it is empty, and disturbs nothing else |
| AsyncSession.Session.Round | vring_poller.c:192-198 | one command is served and its callback run: the request is closer to its end with a new task, or it is in the output ring |
| AsyncSession.Session.Finish | virtio_dev.c:788-1018 | a request that is served and polled goes through its whole chain of commands and ends in the output ring, whatever fails; its result is the full length if and only if no command failed and nothing was refused |
| AsyncSession.Session.Quiet | virtio_dev.c:1148-1158 | with nothing outstanding the bytes of the disk are the replay of the output ring and no memory is held |
| SyncIo.RequestAccepted | virtio_dev.c:338-356 | the device accepts the encoded command for any range of blocks it has |
| SyncIo.BlkRead | virtio_dev.c:369-409 | the result is what its command moved, from the start of the blocks, and -1 if it failed or something was refused; no memory is leaked |
| SyncIo.BlkWrite | virtio_dev.c:422-457 | all blocks are written if the command is done, or -1 and the disk is as before; no memory is leaked |
| SyncIo.ReadPartialBlock | virtio_dev.c:462-479 | the wanted part of one block, or -1 and nothing changed |
| SyncIo.ReadVirtioDev | virtio_dev.c:486-538 | the commands of the range are issued in order up to the first that is not done, which decides the result; a result r >= 0 means that the first r bytes are in the buffer; all of min(nbytes, cap-offset) without faults; nothing outside the range is touched |
| SyncIo.ReadPrefix | virtio_dev.c:502-537 | -1 exactly if the command that was not done is for a block of which the range covers a part; otherwise the result is the number of bytes before the first that no command has moved |
| SyncIo.OrdersTiled | virtio_dev.c:502-537 | the commands of a read follow one another on the disk without a gap and cover the range, and just the partial ones reach beyond it |
| SyncIo.WritePartialBlock | virtio_dev.c:544-564 | a splice of the part into the disk, or a negative result and the disk as before |
| SyncIo.WriteVirtioDev | virtio_dev.c:571-622 | min(nbytes, cap-offset) bytes without faults; the result and the bytes written follow from the fates of the commands; r >= 0 means exactly the first r bytes, -1 none or exactly those up to the last whole block |
| SyncIo.WriteEnds | virtio_dev.c:571-622 | whatever the fates of the commands, a result r >= 0 is the number of bytes written, and after -1 none or those up to the last whole block are |
| SyncIo.WriteResultExact | virtio_dev.c:583-621 | the first command that is not done decides the result of a write: -1 exactly if it is for a block of which the range covers a part, otherwise the bytes before it; the full length if all are done |
| SyncIo.LastFailureEnds | virtio_dev.c:613-619 | fates of the commands after which -1 is returned with all whole blocks written |
| SyncIo.FailsCleanExact | virtio_dev.c:571-622 | -1 leaves every disk unchanged, for all failures and data, if and only if the range ends on a block boundary or lies in one block |
| SyncIo.WriteThenRead | test.c:160-211 | what was written is read back |
| SyncIo.BlockSplice | virtio_dev.c:554-561 | a read-modify-write of one block is a splice of the modified part |
| OutRing.StepKeeps | virtio_dev.c:628-645 | every step of pusher, waiter or another consumer keeps the hand-off invariant |
| OutRing.NoLostWakeUp | virtio_dev.c:1178-1204 | a waiter blocked although enough entries wait finds the eventfd readable, or the enqueuer makes it so within four steps |
| OutRing.ReturnsLastLook | virtio_dev.c:1170-1206 | in every run a call returns the number of entries at its last look; at least as many as were wanted, with the watermark reset, unless the caller gave a timeout and its polls have taken that long and no poll longer |
| OutRing.KicksOnlyIfReached | virtio_dev.c:628-645 | the eventfd is kicked only for a watermark that was set and that the number of entries has reached |
| SubmitSync.StepKeeps | vring_poller.c:310-349 | every step, spurious wake-ups included, keeps the invariant and brings the end closer; only a wake-up before the callback holds the mutex breaks the order of the hand-off |
| SubmitSync.ResultExact | vring_poller.c:324-349 | in every run the ring is asked once, and failure is returned if and only if it refused the task |
| SubmitSync.HandOff | vring_poller.c:310-349 | unless such a wake-up occurs, success is returned only after the poller took the completed task and left the callback |
| SubmitSync.SignalMeetsWaiter | vring_poller.c:310-343 | without spurious wake-ups the signal is sent while the submitter waits, so it is never lost |
| SubmitSync.HandOffExact | vring_poller.c:310-349 | in every run success is returned after the hand-off if and only if the submitter retook the mutex after the callback had released it; otherwise it was woken early |
| SubmitSync.EarlyWakeUpExact | vring_poller.c:342-348 | one spurious wake-up can lead to an early return if and only if it comes before the callback has locked the mutex |
| SubmitSync.EarlyReturn | vring_poller.c:342-348 | how it does: from any run in which the submitter waits and the callback does not hold the mutex |
| SubmitSync.NeverStuck | vring_poller.c:324-349 | in every run, until the submitter has returned some step other than a spurious wake-up is possible and brings the end closer |
| SleepController.DirectionFollowsIops | vring_poller.c:107-134 | the direction is reversed exactly when the IOPS fell, if and only if the previous count is below 2^31 or the change is small |
| SleepController.AmountOfChange | vring_poller.c:119-139 | the interval changes by one millisecond for every 512th of the previous count by which the count has changed, by at least 1 and at most 72, and stops only at its bounds |
| SleepController.RisingIopsReversed | vring_poller.c:119-126 | beyond 2^31 rising IOPS can reverse the direction |
| SleepController.NextOk | vring_poller.c:128-139 | the interval stays in 5..150 and its change is never zero and within 72 |
| SleepController.EvaluateOk | vring_poller.c:107-143 | the same over any sequence of evaluations |
| SleepController.NonFallingMoves | vring_poller.c:107-143 | while IOPS do not fall each evaluation moves at least one millisecond in the same direction |
| SleepController.ReachesBound | vring_poller.c:107-143 | 145 non-falling evaluations reach the bound from anywhere |
| SleepController.Poller.EvalPerformance | vring_poller.c:107-143 | computes the specified next interval and keeps the ranges |
| SleepController.Poller.EverySecond | vring_poller.c:201-224 | evaluates only in time-based mode; the mode changes above and below 120000 and not at it; the no-interrupt flag is set exactly in time-based mode |

## Left out

- VringRefinement.RunRefines: freeing a slot of the walk and reading its `next` (vring.c:264-268) is
  one step of the step system, which is what the code does as long as no producer links the slot
  in between (`VringReuse.LateReadExact`); runs in which one does are followed up to the misread.
- Memory order: all shared accesses are sequentially consistent.
- The kick of the device (`VRING_USED_F_NO_NOTIFY`, vring.c:166-173) and the event wait of the
  poller (vring_poller.c:150-170): hints and time only.
- The path from the ring's task objects to `AsyncIo`: `SubmitTask` in `AsyncIo` succeeds or fails
  arbitrarily, and `AsyncSession` keeps what it accepted as a table; the ring behind it is
  `Vring`, and `AsyncOverRing` joins the two as step systems, with memory by address. The tasks
  that `AsyncIo` builds are tasks that the joint system may submit (`AsyncTarget.BuiltSubmits`).
- What the device writes into the buffers of a read is followed in `AsyncSession`; in
  `AsyncOverRing` the data of an answer is part of the request's state, not of the memory.
- Vring.Vring.PutTask: its if-and-only-if is for a call that runs alone, as with concurrent
  producers a free slot can be taken by somebody else between search and claim; interleaved calls
  are the step system.
- AsyncSession.Session.Submit: requests that reach or start past the end of the device are left to
  `AsyncIo` and `PastEnd`; a session starts reads anywhere inside the device and writes that end
  there.
- PastEnd.PastEndExact: is about one write with the disk to itself and no failures but refused
  blocks; offsets and lengths add up without wrapping around at 2^64.
- Reads that the device cuts short are modelled in `AsyncIo.BlkReadDone` and `SyncIo`; in the step
  systems a command moves all its data or fails.
- AsyncCorrectness.Serializable: requests outstanding together must not overlap unless both only
  read, and two writes must not share a block, because pairs of every such kind break the property
  (`OverlappingRequests.RuleExactly`, `OverlappingWrites`, `ReadOverWrite`,
  `SharedBlocks.SharedBlockLosesUpdate`).
- `int` overflow: `block_size` times a block count is assumed to fit; the wrap-around of the 16-bit
  ring indices, the 32-bit descriptor length and the command fields is modelled.
- Transfers of more blocks than the length field of the command form holds: the driver does not
  split them. `AsyncIo`, `PastEnd` and `SyncIo` require counts that fit; `Cdb.CdbRoundTrip` says that
  exactly these reach the device unchanged.
- Descriptor lengths are 32 bits wide: `AsyncTarget.TaskDecodes` is for buffers below 4 GiB.
- Shifts and ors of `endian.h` are written as arithmetic on bytes; the little-endian functions are
  the same reversed.
- SyncIo.ReadPartialBlock and SyncIo.WritePartialBlock: the allocation of the bounce buffer is
  assumed to succeed, the source does not check it.
- A failing `pthread_cond_wait` (vring_poller.c:343-344), and the poller's start and stop.
- The order of the two reads of `event_high_wm` and the count in `push_to_outring` is one of those
  that C allows.
- Real time: IOPS readings are arbitrary, and a poll may return at any time; `virtio_completed`
  counts it as 100 ms.
- `virtio_submit` with a type that is neither read nor write.
- Set-up and tear-down of device, sockets and shared memory (`vhost_client.c`, `vhost_user.c`,
  `shm.c`), inquiry and capacity commands, the fio plug-in, and the internals of `rte_ring`.
