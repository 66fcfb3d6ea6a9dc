# Verified models of the IOFireWireFamily driver

A Dafny 4.11 project that models the parts of the FireWire family driver with
the most delicate state and proves what they promise. Each source file that
changes state in place is modelled by a class whose methods are proved against
a specification; what the specification promises is then proved as lemmas over
all inputs, all runs or all interleavings.

| files | what they model |
|---|---|
| `IrmProtocol`, `IsochObject`, `IsochWorld`, `IsochTheorems`, `IsochRefund`, `IsochRuns`, `IsochChannel` | claiming, re-claiming and releasing isochronous bandwidth and channels in the registers BANDWIDTH_AVAILABLE and CHANNELS_AVAILABLE (sections 8.3.2.3.7 and 8.3.2.3.8 of IEEE Std 1394-1995), by any number of channel objects and foreign nodes, with a bus reset possible between any two transactions |
| `CommandQueues` | intrusive doubly linked command queues and the deadline-sorted timeout queue with its timer |
| `AsyncCommand` | the life of an asynchronous read or write: submission, transaction labels, packets, retries, bus resets, re-entrant completion |
| `RingBufferQ` | a FIFO of byte strings of any length in one circular range |
| `FireLogReader`, `FireLog` | the circular log and a remote reader that may look after any store |
| `PhyListener` | the bounded pool of notification elements for received PHY packets |
| `PhysicalSpace`, `CompareAndSwap`, `Crc16`, `CycleTime`, `ObjectExporter`, `DclPackets`, `ReceiveRing` | segment search, the lock transaction end to end, CRC, cycle time arithmetic, the exported-object table, the DCL packet engine, the ring of receive segments |

`dafny verify dfyconfig.toml` checks everything.

## How the protocol is modelled

`IrmProtocol` gives the code of IOFWIsochChannel between two transactions as
functions from one waiting state to the next; `IsochWorld` interleaves them with
everybody else's steps and keeps a ledger of who took what in the current
generation. `IsochChannel` is the same code as methods with loops over fields,
and shows that each execution is a run of the interleaved model, so the theorems
about runs hold for the class. CHANNELS_AVAILABLE is modelled as the set of its
one bits, per word.

## What was found not to hold

- Channel exclusivity fails in exactly two ways (`IsochWorld.StepSoundExactlyWhen`).
  A transaction of a current reallocation fails with an error that is not a bus
  reset before the channel is charged to the object: the code then keeps fChannel
  and still stores the new generation (`IsochRuns.FailedReallocationLetsTwoHold`).
  Or an allocation is made on an object that still has a channel of an older
  generation (`IsochRuns.StaleAllocationLetsTwoHold`).
- Bandwidth is returned that is not charged, so that the register rises above its
  reset value, in exactly three ways (`IsochWorld.StepSolventExactlyWhen`). A
  channel claim fails with bandwidth in hand: the register is refunded but
  fBandwidth is kept, and a later release returns it a second time
  (`IsochRefund.RefundBreaksConservation`, `IsochRuns.BandwidthReturnedTwice`). An
  allocation is made on an object that still has bandwidth of an older generation:
  none is claimed but the new generation is stored
  (`IsochRuns.StaleAllocationOverdraws`). A transaction of a current reallocation
  fails with an error that is not a bus reset before the bandwidth is charged
  (`IsochRuns.FailedReallocationOverdraws`). `IsochRuns.ResetReturnsTwice` gives
  whole runs of the last two.
- A walk over the timeout queue after a bus reset goes on with a stale pointer when
  a client cancels the next command (`CommandQueues.Controller.BusResetWithClients`).
- Dropping bytes from an empty ring takes its length below zero
  (`RingBufferQueue.RingBufferQ.DequeueBytesWithCopy`).
- A late reallocation thread leaks what the object holds until the next reset
  (`IsochRuns.LateThreadLeaks`); it is safe.
- Encoded log positions may not pass 2^32 with the shipped log size
  (`FireLogWriter.CounterMayWrap`, `FireLogWriter.ShippedLogMayNotWrap`); nor may a
  reader that compares positions read across 2^32 (`FireLogReader.NothingAcrossTheWrap`).
- A PHY listener of the clamped minimum size 2 never sends anything, and
  destroyAllElements does not free the element in flight. removeElementFromPendingList
  breaks the list when it removes the last of three or more elements; the code
  only ever removes the first. If no element can be had for a packet while
  nothing is in flight, and one can be had to count it, the count waits with
  nothing in flight (`PhyListener.Listener.ProcessPHYPacket`).
- A command that makes no progress across bus resets reports the bus reset, not
  the time-out that checkProgress returned (IOFWAsyncCommand.cpp:412-416 assigns
  it to a variable that is not used again).
- A read of no bytes that is refused with a type error while blocks are still
  allowed completes with success (IOFWReadCommand.cpp:52-76;
  `AsyncCommandCode.AsyncCommand.GotReadPacket`).
- A device that answers a read with complete responses without data keeps the
  command busy for ever, and nobody is told (`AsyncCommandCode.EmptyResponses`);
  so does a complete acknowledgement of a read. A response longer than what is
  left makes fSize negative and is reported as success; of a read of quadlets the
  rest is stored past the destination (`AsyncCommandCode.AsyncCommand.GotQuadPacket`).
- The search for physical segments can miss a request whose first byte is mapped
  more than once (`PhysicalSpace.Descriptor.FailureSkips`,
  `PhysicalSpace.SharedBytesCanBeMissed`).
- An exhausted timeout takes fCurRetries below 0
  (`AsyncCommandCode.AsyncCommand.FinishCompletion`), which counts as 2^32 - 1
  retries left if the command is submitted again without reinit.
- StopsExactlyWhen: the receive ring also runs into its overrun label when a
  callback closes a segment before the hardware has taken that segment's jump.

## Model

| member | source | states |
|---|---|---|
| `IsochTheorems.ChannelExclusivity` | IOFireWireFamily.kmodproj/IOFWIsochChannel.cpp:788-878 | over every run of any number of objects, foreign nodes that obey compare-and-swap, bus resets and failed transactions, whether or not the responder had applied them: two objects that hold a channel below 64 in the current generation hold different ones; the two steps that break this, and no others, are left out of the runs by the condition Reliable; an object whose return of the channel has reached the register but whose field is not yet cleared no longer counts |
| `IsochTheorems.HeldChannelIsNotFree` | IOFireWireFamily.kmodproj/IOFWIsochChannel.cpp:1094-1161 | in the same runs a held channel is not free in CHANNELS_AVAILABLE |
| `IsochTheorems.RegisterNeverExceeds` | IOFireWireFamily.kmodproj/IOFWIsochChannel.cpp:744-908 | over every run of thrifty steps, with errors other than bus resets, time-outs and late threads allowed, BANDWIDTH_AVAILABLE never rises above its reset value, the register plus all claims is that value, and an object at rest in the current generation is charged with at least fBandwidth units; thrifty leaves out exactly the three kinds of steps of IsochWorld.StepSolventExactlyWhen |
| `IsochTheorems.ThriftyRunsMind` | IOFireWireFamily.kmodproj/IOFWIsochChannel.cpp:1241-1290 | in runs of reliable and thrifty steps no sum in the register needs more than 32 bits, so the condition of BandwidthConservation comes down to the object's own steps being orderly |
| `IsochTheorems.BandwidthConservation` | IOFireWireFamily.kmodproj/IOFWIsochChannel.cpp:744-781 | in every run of reliable steps in which this object's own steps are orderly, whatever the other objects do or run into, the object at rest in the current generation has taken exactly fBandwidth units and its channel beside what it leaked, and the register plus all claims is its reset value |
| `IsochTheorems.PunctualRunsLeakNothing` | IOFireWireFamily.kmodproj/IOFWIsochChannel.cpp:966-985 | if, in addition, none of the object's reallocation threads is late, it never leaks anything |
| `IsochTheorems.PunctualBandwidth` | IOFireWireFamily.kmodproj/IOFWIsochChannel.cpp:1032-1083 | so in such runs it is charged with exactly fBandwidth and fChannel when at rest in the current generation |
| `IsochTheorems.FailedReallocationFields` | IOFireWireFamily.kmodproj/IOFWIsochChannel.cpp:1076-1183 | a current-generation reallocation that ends after a transaction that succeeded, or by an error where nothing is left unclaimed, leaves fields that equal what is really claimed: neither after the bandwidth failed, the bandwidth alone after the channel failed, both after success |
| `IsochTheorems.FailedReallocationMisleads` | IOFireWireFamily.kmodproj/IOFWIsochChannel.cpp:1041-1161 | any other end: after an error that is not a bus reset the fields of a current-generation reallocation equal what is claimed if and only if the error came where nothing was left unclaimed |
| `IsochTheorems.ReleaseReturnsExactly` | IOFireWireFamily.kmodproj/IOFWIsochChannel.cpp:1241-1373 | whatever other objects and nodes do between its transactions in reliable steps, time-outs and refunds included, and however often its swaps miss: a release that has ended in its generation has taken exactly fBandwidth units and fChannel off what is charged to the object, and nothing that was leaked |
| `IsochTheorems.FailedReallocationUndone` | IOFireWireFamily.kmodproj/IOFWIsochChannel.cpp:1076-1183 | a reallocation that ends in its generation as in FailedReallocationFields, and the release that follows at any later time, with everybody else taking any reliable steps before and during it: afterwards only what had been leaked before is charged to the object, so the release returns both, one or neither as needed |
| `IsochTheorems.HolderMayRelease` | IOFireWireFamily.kmodproj/IOFWIsochChannel.cpp:1241-1290 | in runs of thrifty steps the fields of an object at rest in the current generation can always be returned within 32 bits |
| `IsochTheorems.ReleaseReturnsWhatIsHeld` | IOFireWireFamily.kmodproj/IOFWIsochChannel.cpp:1241-1373 | left alone a release ends after at most four transactions and puts into the registers exactly what the fields name, whether or not it had been charged to the object; nothing else in the world changes |
| `IsochTheorems.LeaksLast` | IOFireWireFamily.kmodproj/IOFWIsochChannel.cpp:1161-1183 | along every run without a bus reset in which the object's own steps are orderly, what it has leaked stays leaked and charged to it |
| `IsochRefund.RefundBreaksConservation` | IOFireWireFamily.kmodproj/IOFWIsochChannel.cpp:814-865 | for all four ways into the refund (no acceptable channel after a bandwidth claim or with bandwidth kept from before, a missed channel swap, a channel swap that ended in an error) and whatever anybody else does during it: fBandwidth keeps its value, at most two swaps land, each crediting that value modulo 2^32, and the object is charged with what its field says if and only if the field is 0 or no refund swap landed |
| `IsochRefund.RefundAloneLands` | IOFireWireFamily.kmodproj/IOFireWireController.cpp:6353-6427 | left alone a refund always lands, so the object is then charged with what its field says if and only if the field is 0 |
| `IsochRefund.RefundCanMiss` | IOFireWireFamily.kmodproj/IOFireWireController.cpp:6380-6427 | from any such state with bandwidth in the register there is a run in which both refund swaps miss and the charge stays right |
| `IsochRuns.BandwidthReturnedTwice` | IOFireWireFamily.kmodproj/IOFWIsochChannel.cpp:858-862 | a run of one object, without resets, errors or other nodes, that leaves the register above its reset value by the bandwidth asked for |
| `IsochRuns.FailedReallocationLetsTwoHold` | IOFireWireFamily.kmodproj/IOFWIsochChannel.cpp:1094-1161 | from any sound world: if a transaction of a current reallocation fails other than by a bus reset before the channel is charged to the object, and the channel is free, any empty object can allocate it and both hold it |
| `IsochRuns.FailedReadLetsTwoHold` | IOFireWireFamily.kmodproj/IOFWIsochChannel.cpp:1094-1161 | such a run from a bus that has just been reset |
| `IsochRuns.StaleAllocationOverdraws` | IOFireWireFamily.kmodproj/IOFWIsochChannel.cpp:744-884 | from any balanced world: a second allocation on an object with bandwidth and a channel of an older generation claims nothing, and the release that follows lifts the register by fBandwidth; no error, no reset, no foreign node |
| `IsochRuns.FailedReallocationOverdraws` | IOFireWireFamily.kmodproj/IOFWIsochChannel.cpp:1041-1161 | from any balanced world: an error that is not a bus reset anywhere in a current reallocation, then a release, lifts the register by fBandwidth, charged or not |
| `IsochRuns.ResetReturnsTwice` | IOFireWireFamily.kmodproj/IOFWIsochChannel.cpp:744-1161 | two runs of one object and one bus reset that leave the register above its reset value by the bandwidth asked for, one through a second allocation, one through a failed reallocation |
| `IsochRuns.StaleAllocationLetsTwoHold` | IOFireWireFamily.kmodproj/IOFWIsochChannel.cpp:788-878 | from any sound world: an allocation on an object that still has a channel of an older generation claims none but stores the new generation; if the channel is free, any empty object can allocate it and both hold it |
| `IsochRuns.LateThreadLeaks` | IOFireWireFamily.kmodproj/IOFWIsochChannel.cpp:1161-1183 | a thread of an older generation makes the next release return nothing, and what was held stays charged until the next reset, along every run in which the object's own steps are orderly; a thread of the current generation changes nothing |
| `IsochRuns.FailedTurnIsAnothersProgress` | IOFireWireFamily.kmodproj/IOFWIsochChannel.cpp:1051-1074 | lock freedom: a turn of a re-claim or release loop whose compare-and-swap misses contains a successful update of that register by another agent, or a bus reset |
| `IsochRuns.AllocationSucceeds` | IOFireWireFamily.kmodproj/IOFWIsochChannel.cpp:744-878 | with enough bandwidth and an allowed channel free, an undisturbed allocation takes exactly the wanted units and the lowest allowed free channel out of the registers, and is charged with exactly both |
| `IsochRuns.ReallocationTakes` | IOFireWireFamily.kmodproj/IOFWIsochChannel.cpp:994-1183 | an undisturbed reallocation after a bus reset takes the bandwidth and the channel out of the registers again and is charged with exactly both; if the register holds less than fBandwidth it takes nothing and the object is empty; if the channel is not free it takes the bandwidth alone and fChannel is 64 |
| `IsochRuns.ChangeIsAnUpdate` | IOFireWireFamily.kmodproj/IOFWIsochChannel.cpp:1051-1074 | along any run a register changes, or the generation does, only by an update of that register or a reset |
| `IsochWorld.StepSoundExactlyWhen` | IOFireWireFamily.kmodproj/IOFWIsochChannel.cpp:632-1373 | a step of any object, foreign node or bus reset, or a failed transaction, keeps the ledger balanced and each object charged with every channel it may rely on if and only if it is reliable: not a failure of a current reallocation before its channel is charged to it, and not the start of an allocation pass on an object with a channel that is not charged to it |
| `IsochWorld.StepSolventExactlyWhen` | IOFireWireFamily.kmodproj/IOFWIsochChannel.cpp:632-1373 | a step of any object, foreign node or bus reset, or a failed transaction, keeps the units balanced and every object charged with the units it may rely on if and only if it is thrifty: no channel claim fails with bandwidth in hand, no allocation pass starts with more bandwidth than is charged, and no error other than a reset ends a reallocation before its bandwidth is charged or a channel claim with bandwidth in hand |
| `IsochWorld.StepExactlyWhen` | IOFireWireFamily.kmodproj/IOFWIsochChannel.cpp:632-1373 | a step keeps the charge of every object equal to what its fields and its place in the code entitle it to, plus what it leaked, if and only if it is orderly: no channel claim fails with bandwidth in hand, allocations are made on empty objects or in the generation of what they keep, and other errors than resets end a call only where its fields and its charge agree |
| `IsochWorld.StepExactAt` | IOFireWireFamily.kmodproj/IOFWIsochChannel.cpp:632-1373 | the same for one object: any reliable step of the others keeps its charge exact |
| `IsochWorld.RunSound` | IOFireWireFamily.kmodproj/IOFWIsochChannel.cpp:632-1373 | soundness holds after every run of reliable steps |
| `IsochWorld.RunSolvent` | IOFireWireFamily.kmodproj/IOFWIsochChannel.cpp:632-1373 | that no object counts on more units than it is charged with holds after every run of thrifty steps |
| `IsochWorld.RunExact` | IOFireWireFamily.kmodproj/IOFWIsochChannel.cpp:632-1373 | the exact charge holds after every orderly run |
| `IsochWorld.RunExactAt` | IOFireWireFamily.kmodproj/IOFWIsochChannel.cpp:632-1373 | one object's exact charge holds after every run of reliable steps in which its own are orderly |
| `IsochObject.FailSoundExactlyWhen` | IOFireWireFamily.kmodproj/IOFWIsochChannel.cpp:858-908 | what the code does after a transaction error that is not a bus reset keeps an object sound if and only if it is not in a reallocation, its generation is over, it has no channel, or its channel is charged to it |
| `IsochObject.FailExactlyWhen` | IOFireWireFamily.kmodproj/IOFWIsochChannel.cpp:858-908 | a transaction error that is not a bus reset keeps an object's fields and charge in agreement if and only if it came where nothing was left unclaimed or unreturned |
| `IsochObject.FailSolventExactlyWhen` | IOFireWireFamily.kmodproj/IOFWIsochChannel.cpp:1041-1161 | such an error leaves no claim to units that are not charged if and only if the call's generation is over, or it is no reallocation with more fBandwidth than is charged and no channel claim with bandwidth in hand |
| `IsochObject.SampleSoundExactlyWhen` | IOFireWireFamily.kmodproj/IOFWIsochChannel.cpp:656-735 | a new pass of an allocation keeps an object sound if and only if it has no channel or its channel is charged to it |
| `IsochObject.SampleExactlyWhen` | IOFireWireFamily.kmodproj/IOFWIsochChannel.cpp:656-735 | a new pass of an allocation keeps the exact charge if and only if the object is empty or keeps what it has in its generation |
| `IsochObject.SampleSolventExactlyWhen` | IOFireWireFamily.kmodproj/IOFWIsochChannel.cpp:656-744 | a new pass of an allocation leaves no claim to units that are not charged if and only if fBandwidth is at most what is charged |
| `IsochObject.ResumeSolventExactlyWhen` | IOFireWireFamily.kmodproj/IOFWIsochChannel.cpp:744-1373 | the code after a transaction that succeeded leaves no such claim if and only if it is not a channel claim that fails with bandwidth in hand |
| `IsochObject.ResumeExactlyWhen` | IOFireWireFamily.kmodproj/IOFWIsochChannel.cpp:744-1373 | and it keeps the exact charge under the same condition |
| `IsochObject.StartReallocExact` | IOFireWireFamily.kmodproj/IOFWIsochChannel.cpp:994-1030 | a late reallocation thread turns everything the object held into a leak, a punctual one nothing |
| `IsochChannelCode.IsochChannel.AllocateChannelBegin` | IOFireWireFamily.kmodproj/IOFWIsochChannel.cpp:632-908 | the allocation loop, on an object with or without bandwidth and a channel, with everybody else running between any two transactions and any transaction failing, is a run of the interleaved model and ends once the others stop; what it may leave behind is said for each answer; with nobody else on the bus and no failed transaction it succeeds exactly when what is missing can be had, then holds it, the lowest allowed free channel among it, with the registers lowered by exactly that, and otherwise leaves the registers as they were or refunded; it fails only after a failed transaction and times out only after fifteen bus resets |
| `IsochChannelCode.IsochChannel.WaitForQuiet` | IOFireWireFamily.kmodproj/IOFWIsochChannel.cpp:664-715 | the wait for one second without a bus reset gives up only after fifteen resets, and ends with the current generation |
| `IsochChannelCode.IsochChannel.ReallocBandwidth` | IOFireWireFamily.kmodproj/IOFWIsochChannel.cpp:994-1183 | the two re-claim loops as a run of the model, any transaction failing by a reset or otherwise: fields cleared exactly in the no-bandwidth and no-channel cases, kept after a reset or another error, fGeneration stored on every path; with nobody else on the bus and no failed transaction the answer is success exactly when the register holds fBandwidth and the channel is free, the two refusals are exact too, and the registers have lost exactly what the fields say; it fails only after a failed transaction |
| `IsochChannelCode.IsochChannel.ReallocUnits` | IOFireWireFamily.kmodproj/IOFWIsochChannel.cpp:1032-1083 | the bandwidth loop of the re-claim, against the model's step for each answer and each failure; left alone it swaps exactly fBandwidth out of the register, or refuses exactly when the register holds less |
| `IsochChannelCode.IsochChannel.ReallocBit` | IOFireWireFamily.kmodproj/IOFWIsochChannel.cpp:1094-1155 | the channel loop of the re-claim, against the model's step for each answer and each failure; left alone it clears exactly this channel's bit, or refuses exactly when it is not set |
| `IsochChannelCode.IsochChannel.ReleaseChannelComplete` | IOFireWireFamily.kmodproj/IOFWIsochChannel.cpp:1220-1373 | the release loops as a run of the model; the object is empty afterwards in the generation it started in; if its charge was exact and the run had no reset and only reliable steps of the others, its account has lost exactly its fBandwidth units and its channel; with nobody else on the bus and no failed transaction the registers have got exactly both |
| `IsochChannelCode.IsochChannel.ClaimBit` | IOFireWireFamily.kmodproj/IOFWIsochChannel.cpp:788-878 | the channel claim masks the allowed channels by the free ones, tries the lowest, and refunds the bandwidth when it fails by a miss or by an error other than a reset |
| `IsochChannelCode.IsochChannel.RefundUnits` | IOFireWireFamily.kmodproj/IOFireWireController.cpp:6353-6427 | the refund: at most two compare-and-swaps, the first against 0, only in the generation of the claim, and ended by a reset but not by another error |
| `IsochChannelCode.IsochChannel.FirstChannel` | IOFireWireFamily.kmodproj/IOFWIsochChannel.cpp:800-826 | the bit scan stops at the lowest allowed channel, at 64 if there is none |
| `IsochChannelCode.ObjectsHoldDifferentChannels` | IOFireWireFamily.kmodproj/IOFWIsochChannel.cpp:788-878 | two objects of the class at rest on one bus in its current generation never have the same channel below 64, whatever calls were made on them in a history of reliable steps |
| `CommandQueues.Command.SetHead` | IOFireWireFamily.kmodproj/IOFWCommand.cpp:253-270 | the command becomes the first of a well-formed doubly linked queue and the timer follows the new head |
| `CommandQueues.Command.InsertAfter` | IOFireWireFamily.kmodproj/IOFWCommand.cpp:277-293 | the command is linked directly after prev, all other links as they were |
| `CommandQueues.Command.RemoveFromQ` | IOFireWireFamily.kmodproj/IOFWCommand.cpp:299-337 | exactly this command leaves its queue; the timer follows when it was the head |
| `CommandQueues.Command.UpdateTimer` | IOFireWireFamily.kmodproj/IOFWCommand.cpp:344-455 | new deadline and stable place, later than every equal deadline it passes; the queue stays sorted if the clock is monotone and the timeout was not shortened; the timer is armed for the head |
| `CommandQueues.Command.Reschedule` | IOFireWireFamily.kmodproj/IOFWCommand.cpp:352-420 | a queued command moves down only: a sorted queue stays sorted if and only if the command before it is not due later |
| `CommandQueues.Command.Schedule` | IOFireWireFamily.kmodproj/IOFWCommand.cpp:422-453 | a command on no queue is inserted at the stable place of its deadline and a sorted queue stays sorted |
| `CommandQueues.CmdQ.HeadChanged` | IOFireWireFamily.kmodproj/IOFWTimeoutQ.cpp:74-109 | the timer of the timeout queue is armed at exactly the head's deadline, or cancelled when there is none |
| `CommandQueues.QueuesAreDisjoint` | IOFireWireFamily.kmodproj/IOFWCommand.cpp:253-337 | two well-formed queues have no command in common |
| `CommandQueues.Controller.ProcessTimeout` | IOFireWireFamily.kmodproj/IOFWTimeoutQ.cpp:168-224 | with packets completing commands, and retries and clients starting commands at every turn: no due command is left, every command cancelled was due when it was cancelled, any other still has its place and deadline unless a packet or a client dealt with it, and the queue is sorted with its timer armed for its first command |
| `CommandQueues.Controller.BusReset` | IOFireWireFamily.kmodproj/IOFWTimeoutQ.cpp:115-150 | when the cancels run no client code, exactly the commands that do not end at a reset are left, although next is read before each cancel |
| `CommandQueues.SurvivorsInOrder` | IOFireWireFamily.kmodproj/IOFWTimeoutQ.cpp:115-150 | and those that are left are in the order they had |
| `CommandQueues.Controller.BusResetWithClients` | IOFireWireFamily.kmodproj/IOFWTimeoutQ.cpp:115-150 | when each cancel runs a client that cancels and starts any commands: the walk goes stale if and only if some client cancels the command read before its cancel, which is then off the queue or started again; otherwise the walk ends, what is left on the sorted queue survives a reset or was started by a client, and survivors that no client named keep place and deadline |
| `CommandQueues.Controller.Cancel` | IOFireWireFamily.kmodproj/IOFWCommand.cpp:217-246 | cancelling takes one command off the sorted queue and re-arms the timer |
| `CommandQueues.DetachHead` | IOFireWireFamily.kmodproj/IOFWCmdQ.cpp:31-58 | executeQueue's head removal leaves a well-formed queue of the rest |
| `CommandQueues.AscendingMoved` | IOFireWireFamily.kmodproj/IOFWCommand.cpp:352-420 | moving an element down past all that are not greater keeps a sequence ascending if and only if its predecessor is not greater |
| `AsyncCommandCode.AsyncCommand.Complete` | IOFireWireFamily.kmodproj/IOFWAsyncCommand.cpp:377-485 | a completion inside a completion only latches its status. Otherwise the status latched last decides: a timeout with retries left goes on, unless the node is 0x4242, after a busy acknowledge (4 to 6), in the configuration ROM with packets above a quadlet, or with the link's consent; a reset while progressing waits on the after-reset queue unreported while the bus is scanned, and is reported as offline after the scan if there is a device; anything else is reported once as it was latched |
| `AsyncCommandCode.AsyncCommand.HandleAsyncCompletion` | IOFireWireFamily.kmodproj/IOFWAsyncCommand.cpp:377-393 | any number of re-entrant completions change nothing but the latched status, which is that of the last |
| `AsyncCommandCode.AsyncCommand.FinishCompletion` | IOFireWireFamily.kmodproj/IOFWAsyncCommand.cpp:394-485 | the same decision after the link was told, with every branch's queue, status and report; retried commands make the measure smaller |
| `AsyncCommandCode.AsyncCommand.MayRetry` | IOFireWireFamily.kmodproj/IOFWAsyncCommand.cpp:432-462 | a retry needs a busy acknowledge, a configuration ROM access that can be cut to quadlets, or the link's consent, and never happens for node 0x4242; the packets are cut to quadlets exactly in the ROM case without a busy acknowledge |
| `AsyncCommandCode.AsyncCommand.Submit` | IOFireWireFamily.kmodproj/IOFWCommand.cpp:105-180 | each submission is queued or started, and is then still active or reported at once with the refusal's status, also when retries were used up before |
| `AsyncCommandCode.AsyncCommand.ExecuteQueued` | IOFireWireFamily.kmodproj/IOFWCmdQ.cpp:31-58 | a command waiting on a queue is started and keeps its books |
| `AsyncCommandCode.AsyncCommand.Cancel` | IOFireWireFamily.kmodproj/IOFWCommand.cpp:228-246 | cancelling an active command reports it once, or keeps it active with a smaller measure or on the after-reset queue; what is neither a timeout nor a reset that the command outlives is reported as it was latched |
| `AsyncCommandCode.AsyncCommand.Execute` | IOFireWireFamily.kmodproj/IOFWReadCommand.cpp:129-189 | takes a label and sends the next packet: all that is left, or as much of it as the smaller of the command's and the node's limits; when no label is free or the link refuses, the command completes at once and no label is lost |
| `AsyncCommandCode.AsyncCommand.StartExecution` | IOFireWireFamily.kmodproj/IOFWCommand.cpp:188-201 | as execute, from any queue |
| `AsyncCommandCode.AsyncCommand.GotReadPacket` | IOFireWireFamily.kmodproj/IOFWReadCommand.cpp:46-78 | for a response of any length: it is stored as far as it fits and counted in full; the packets keep tiling the buffer if and only if it was no longer than what was left; a command that goes on has a smaller measure if and only if a byte came (or retries came back); a longer response makes fSize negative and reports success; a type error cuts blocks to quadlets |
| `AsyncCommandCode.AsyncCommand.GotQuadPacket` | IOFireWireFamily.kmodproj/IOFWReadQuadCommand.cpp:46-86 | the same for whole quadlets, with an address error also cutting blocks: nothing goes past the destination as long as no more came than was left, and with responses of whole quadlets something does if and only if more came |
| `AsyncCommandCode.AsyncCommand.GotWritePacket` | IOFireWireFamily.kmodproj/IOFWWriteCommand.cpp:312-340 | an acknowledged packet moves the transfer on by its size |
| `AsyncCommandCode.AsyncCommand.GotAck` | IOFireWireFamily.kmodproj/IOFWAsyncCommand.cpp:491-524 | pending, busy and missing change nothing, complete counts as a response without data, which moves a write on but asks for the same bytes of a read again, and any other is a type error |
| `AsyncCommandCode.AsyncCommand.Reinit` | IOFireWireFamily.kmodproj/IOFWAsyncCommand.cpp:244-277 | an active command is left alone; any other starts over with restored retries, without a label and with acknowledge code 0, and takes its device's packet limit only if it has a device |
| `AsyncCommandCode.AsyncCommand.ReinitNode` | IOFireWireFamily.kmodproj/IOFWAsyncCommand.cpp:283-317 | the overload with a generation: a command with a device is refused as a bad argument, any other starts over with the node's packet limit and acknowledge code 0 |
| `AsyncCommandCode.ReadEverything` | IOFireWireFamily.kmodproj/IOFWReadCommand.cpp:46-78 | against a device that answers with the bytes asked for and a link that sends, a read of any length ends, reports success once, and has the device's bytes in its buffer |
| `AsyncCommandCode.ReadFromQuadletDevice` | IOFireWireFamily.kmodproj/IOFWReadCommand.cpp:52-76 | against a device that refuses every request above a quadlet with a type error, a read of any length still ends with one success and the device's bytes, in packets of at most four bytes |
| `AsyncCommandCode.ReadAnything` | IOFireWireFamily.kmodproj/IOFWReadCommand.cpp:46-78 | against a device that answers with any bytes, at least one each time, a read ends after no more answers than bytes, reports success once, and has taken the answers in order up to the first that completes the size |
| `AsyncCommandCode.EmptyResponses` | IOFireWireFamily.kmodproj/IOFWReadCommand.cpp:46-78 | any number of complete responses without data leaves a read busy, unreported and no further |
| `AsyncCommandCode.WriteEverything` | IOFireWireFamily.kmodproj/IOFWWriteCommand.cpp:312-340 | the same for a write: the device then has the buffer's bytes |
| `AsyncCommandCode.OthersKeepTheirLabels` | IOFireWireFamily.kmodproj/IOFireWireController.cpp:4592-4635 | whatever is done with one command, every other command keeps exactly the label it had |
| `AsyncCommandCode.AsyncCommand.TransferIsComplete` | IOFireWireFamily.kmodproj/IOFWWriteCommand.cpp:224-340 | when exactly no byte is left, and no read of quadlets has dropped any, buffer and target hold the same bytes and every byte was moved by exactly one packet |
| `AsyncCommandCode.Controller.AllocTrans` | IOFireWireFamily.kmodproj/IOFireWireController.cpp:4592-4624 | a label is refused exactly when all 64 are in use; the one given is the first free one after the last handed out, going round |
| `AsyncCommandCode.Controller.FreeTrans` | IOFireWireFamily.kmodproj/IOFireWireController.cpp:4628-4635 | only a label in use is freed, and no other changes |
| `AsyncTransfer.TilesCover` | IOFireWireFamily.kmodproj/IOFWReadCommand.cpp:46-78 | packets that tile a transfer cover every byte once, in order, at matching buffer offsets |
| `AsyncTransfer.LessIsWellFounded` | IOFireWireFamily.kmodproj/IOFWAsyncCommand.cpp:430-475 | no sequence of transfers has a smaller measure (size, blocks allowed, retries) at every step for ever |
| `RingBufferQueue.RingBufferQ.WillFitAtEnd` | IOFireWireFamily.kmodproj/IOFWRingBufferQ.cpp:275-326 | says yes exactly when everything, laid by the padding rule, takes no more than the range, and predicts the offset and padding that will be used; NonemptyQueueFits and EmptyQueueFits say when that is |
| `RingBufferQueue.RingBufferQ.IsSpaceAvailable` | IOFireWireFamily.kmodproj/IOFWRingBufferQ.cpp:192-224 | the predicted offset is the one the entry will be at |
| `RingBufferQueue.RingBufferQ.EnqueueBytes` | IOFireWireFamily.kmodproj/IOFWRingBufferQ.cpp:163-187 | succeeds exactly for a non-null, non-empty entry that fits and appends it to the FIFO, overwriting no live entry |
| `RingBufferQueue.RingBufferQ.ClearOfEntries` | IOFireWireFamily.kmodproj/IOFWRingBufferQ.cpp:275-326 | the place of the next entry overlaps no live entry |
| `RingBufferQueue.RingBufferQ.FrontEntryOffset` | IOFireWireFamily.kmodproj/IOFWRingBufferQ.cpp:330-368 | the reader finds the oldest entry from its size alone, with the writer's padding |
| `RingBufferQueue.RingBufferQ.Front` | IOFireWireFamily.kmodproj/IOFWRingBufferQ.cpp:236-260 | delivers the oldest entry's bytes exactly when there is one |
| `RingBufferQueue.RingBufferQ.DequeueBytesWithCopy` | IOFireWireFamily.kmodproj/IOFWRingBufferQ.cpp:118-150 | takes off the oldest entry and copies its bytes; the copying and the dropping form, which may leave fFrontOffset at the end of the range, keep the same invariant, with one exact exception: bytes dropped from an empty queue take its length below zero |
| `RingBufferQueue.EmptyQueueFits` | IOFireWireFamily.kmodproj/IOFWRingBufferQ.cpp:275-326 | an empty queue takes a size if and only if it fits above its front or below it |
| `RingBufferQueue.NonemptyQueueFits` | IOFireWireFamily.kmodproj/IOFWRingBufferQ.cpp:275-326 | a queue with entries takes a size if and only if it fits behind the newest entry or, with the free part going round, below the oldest byte, and with the entries going round between the two; and it goes to the first of these places |
| `RingLayout.Extent` | IOFireWireFamily.kmodproj/IOFWRingBufferQ.cpp:275-368 | entries laid by the rule lie in one stretch or in the top and bottom of the range, and end where the length says |
| `RingLayout.Append` | IOFireWireFamily.kmodproj/IOFWRingBufferQ.cpp:163-187 | an entry put where the layout ends is laid out by the same rule |
| `FireLogWriter.FireLog.LogString` | IOFireWireFamily.kmodproj/IOFireLog.cpp:322-426 | after every single store a remote reader that walks from start to end gets whole unmodified entries: the old ones that are kept until the last store, those and the new one after it; no entry is given up without need; in every run every snapshot shows consecutive entries |
| `FireLogWriter.FireLog.MakeSpace` | IOFireWireFamily.kmodproj/IOFireLog.cpp:340-408 | start moves past exactly such oldest entries as lie in the way, with the wrap-start and the walking loop, and stays put until the log first wraps |
| `FireLogWriter.FireLog.WalkStart` | IOFireWireFamily.kmodproj/IOFireLog.cpp:388-402 | the loop stops on the entry at or past the limit, or on the first that wraps, and always on an entry |
| `FireLogWriter.FireLog.WrapStart` | IOFireWireFamily.kmodproj/IOFireLog.cpp:356-370 | the loop stops on the first entry of the next lap |
| `FireLogWriter.FireLog.StoreWord` | IOFireWireFamily.kmodproj/IOFireLog.cpp:412-426 | a store into the free part leaves the log readable with the same entries |
| `FireLogWriter.FireLog.Publish` | IOFireWireFamily.kmodproj/IOFireLog.cpp:421-426 | storing end makes exactly the new entry readable |
| `FireLogWriter.EntryLengthIsWhatIsWritten` | IOFireWireFamily.kmodproj/IOFireLog.cpp:309-316 | the length given to an entry is exactly what is written up to the next length word, between 5 and 68 quadlets for texts that fit the buffer |
| `FireLogReader.ReaderFollowsChain` | IOFireWireFamily.kmodproj/IOFireLogPriv.h:78-82 | a reader that follows length words with the writer's wrapping rule ends exactly at end and delivers the stored entries whole and in order |
| `FireLogReader.WrappedReaderFollowsChain` | IOFireWireFamily.kmodproj/IOFireLogPriv.h:78-82 | a reader whose positions are 32-bit words delivers the entries whole and in order across 2^32 as well, if the log size divides 2^32 |
| `FireLogReader.PastTheWrap` | IOFireWireFamily.kmodproj/IOFireLogPriv.h:78-79 | if it does not, every position past 2^32 is looked for at another offset than its own |
| `FireLogReader.NothingAcrossTheWrap` | IOFireWireFamily.kmodproj/IOFireLogPriv.h:78-82 | a reader that compares positions gets nothing at all while start is before 2^32 and end behind it |
| `FireLogReader.PayloadsAre` | IOFireWireFamily.kmodproj/IOFireLogPriv.h:78-82 | what is delivered for a chain is the payload of each of its entries, in order |
| `FireLogReader.ChainExtent` | IOFireWireFamily.kmodproj/IOFireLog.cpp:340-408 | live entries occupy only the words between start and end, going round at most once |
| `FireLogWriter.CounterMayWrap` | IOFireWireFamily.kmodproj/IOFireLogPriv.h:78-79 | a 32-bit position may pass zero without moving offsets if and only if the log size divides 2^32 |
| `FireLogWriter.ShippedLogMayNotWrap` | IOFireWireFamily.kmodproj/IOFireLogPriv.h:38 | the shipped size of 12 megabytes does not |
| `PhyListener.Listener.ProcessPHYPacket` | IOFireWireFamily.kmodproj/IOFWUserPHYPacketListener.cpp:181-263 | every packet is sent, queued or counted in order, and pending notes keep one in flight, if and only if it is not the case that no element can be had for a packet that finds nothing in flight but one can be had to count it; behind other notes it is queued as it is exactly when an element can be had that leaves one for counting, and otherwise counted in the last note or a new one; a packet is dropped only for want of memory; with a size of three or more it is sent whenever nothing is in flight, with two nothing is ever sent |
| `PhyListener.Listener.ClientCommandIsComplete` | IOFireWireFamily.kmodproj/IOFWUserPHYPacketListener.cpp:270-296 | only the element in flight is freed, and the oldest pending note is sent next |
| `PhyListener.Listener.CompleteEverything` | IOFireWireFamily.kmodproj/IOFWUserPHYPacketListener.cpp:270-296 | for sizes of three or more repeated completions deliver everything pending in order, and the notes sent then account for every packet received |
| `PhyListener.Listener.SendPacketNotification` | IOFireWireFamily.kmodproj/IOFWUserPHYPacketListener.cpp:303-341 | exactly the element's note is sent and it becomes the one in flight |
| `PhyListener.Listener.AllocateElement` | IOFireWireFamily.kmodproj/IOFWUserPHYPacketListener.cpp:347-404 | an element is refused exactly when none is free and none may or can be made |
| `PhyListener.Listener.AllocateDataElement` | IOFireWireFamily.kmodproj/IOFWUserPHYPacketListener.cpp:414-485 | a packet never gets the last element: what is handed out always leaves one for counting |
| `PhyListener.Listener.DeallocateElement` | IOFireWireFamily.kmodproj/IOFWUserPHYPacketListener.cpp:492-512 | the element goes to the end of a well-formed free list |
| `PhyListener.Listener.AddElementToPendingList` | IOFireWireFamily.kmodproj/IOFWUserPHYPacketListener.cpp:578-607 | the element goes to the end of a well-formed pending list |
| `PhyListener.Listener.RemoveElementFromPendingList` | IOFireWireFamily.kmodproj/IOFWUserPHYPacketListener.cpp:614-672 | the list stays well-formed if and only if the element removed is not the last of three or more |
| `PhyListener.Listener.DestroyAllElements` | IOFireWireFamily.kmodproj/IOFWUserPHYPacketListener.cpp:523-570 | frees every element but one that is in flight |
| `PhyNotes.AccountsBump` | IOFireWireFamily.kmodproj/IOFWUserPHYPacketListener.cpp:216-231 | one more skipped packet is accounted for by a higher count in the last note |
| `PhyNotes.AccountsWeigh` | IOFireWireFamily.kmodproj/IOFWUserPHYPacketListener.cpp:181-263 | notes that account for the packets weigh as many as were received |
| `PhysicalSpace.PhysicalAddressSpace.DoRead` | IOFireWireFamily.kmodproj/IOFWPhysicalAddressSpace.cpp:310-389 | an offset is right whenever one is given; one is given if and only if the node is trusted, the space prepared, and some place that maps all requested addresses is not missed; if the first requested byte is mapped once, if and only if there is such a place at all, although a failed look-ahead changes the length the search goes on with |
| `PhysicalSpace.PhysicalAddressSpace.DoWrite` | IOFireWireFamily.kmodproj/IOFWPhysicalAddressSpace.cpp:395-485 | the same condition, and exactly that range is overwritten |
| `PhysicalSpace.PhysicalAddressSpace.LookAhead` | IOFireWireFamily.kmodproj/IOFWPhysicalAddressSpace.cpp:333-368 | the inner loop computes whether the request is contiguous, and leaves the length of the segment it looked at last |
| `PhysicalSpace.PhysicalAddressSpace.FindSegment` | IOFireWireFamily.kmodproj/IOFWPhysicalAddressSpace.cpp:327-386 | the two loops compute the search function, for shared physical bytes too |
| `PhysicalSpace.Descriptor.LookExact` | IOFireWireFamily.kmodproj/IOFWPhysicalAddressSpace.cpp:333-368 | a look at one segment and those after it succeeds if and only if the segment holds the address and the whole request is contiguous from there |
| `PhysicalSpace.Descriptor.SearchSound` | IOFireWireFamily.kmodproj/IOFWPhysicalAddressSpace.cpp:327-386 | what the search finds maps the whole request |
| `PhysicalSpace.Descriptor.SearchComplete` | IOFireWireFamily.kmodproj/IOFWPhysicalAddressSpace.cpp:327-386 | if the first byte of the request is mapped once, what is there is found, at its only offset, whatever other bytes are shared |
| `PhysicalSpace.Descriptor.SearchFailsExactlyWhen` | IOFireWireFamily.kmodproj/IOFWPhysicalAddressSpace.cpp:327-386 | for all descriptors the search fails if and only if every place that maps the request is missed |
| `PhysicalSpace.Descriptor.FailureSkips` | IOFireWireFamily.kmodproj/IOFWPhysicalAddressSpace.cpp:342-385 | a search that fails has skipped each place that maps the request: an earlier copy of its first byte was looked at, and the look-ahead from there failed and left a length that carries the search past it |
| `PhysicalSpace.SharedBytesCanBeMissed` | IOFireWireFamily.kmodproj/IOFWPhysicalAddressSpace.cpp:372-386 | with the first byte mapped twice the search can miss a request that is there |
| `PhysicalSpace.ReadAfterWrite` | IOFireWireFamily.kmodproj/IOFWPhysicalAddressSpace.cpp:310-485 | any later read sees, for a byte mapped once, what was written to its address or the old byte |
| `CompareAndSwap.Transact` | IOFireWireFamily.kmodproj/IOFWCompareAndSwapCommand.cpp:327-455 | for one and two quadlets, locked says true exactly when the responder held the compare value, which is exactly when it was replaced, and the prior value is returned either way |
| `CompareAndSwap.AddressSpace.DoLock` | IOFireWireFamily.kmodproj/IOFWAddressSpace.cpp:362-396 | for requests of any length the responder returns the old value and replaces it exactly on a match; other lock types change nothing |
| `CompareAndSwap.CompareAndSwapCommand.SetInputVals` | IOFireWireFamily.kmodproj/IOFWCompareAndSwapCommand.cpp:327-338 | the payload is the compare value followed by the new value |
| `CompareAndSwap.CompareAndSwapCommand.GotPacket` | IOFireWireFamily.kmodproj/IOFWCompareAndSwapCommand.cpp:423-455 | success exactly for a complete response of half the request's size, whose data is then the old value |
| `CompareAndSwap.CompareAndSwapCommand.Locked` | IOFireWireFamily.kmodproj/IOFWCompareAndSwapCommand.cpp:404-417 | true exactly when compare and old value agree in every quadlet |
| `CompareAndSwap.FailureMeansProgress` | IOFireWireFamily.kmodproj/IOFWIsochChannel.cpp:1051-1074 | a swap that misses although its compare value had been read means the memory changed in between |
| `Crc16.UpdateCRC16` | IOFireWireFamily.kmodproj/IOFWUtils.cpp:46-58 | the nibble loop is bit-serial division by x^16+x^12+x^5+1 |
| `Crc16.ComputeCRC16` | IOFireWireFamily.kmodproj/IOFWUtils.cpp:65-84 | with an accumulator that is masked only at the end, the same as folding the update from 0 over any number of quadlets |
| `Crc16.NibbleStepDivides` | IOFireWireFamily.kmodproj/IOFWUtils.cpp:52-55 | one nibble step divides by four more bits, whatever the high half of the accumulator holds |
| `Crc16.GeneratorIs` | IOFireWireFamily.kmodproj/IOFWUtils.cpp:52-55 | of the linear step: x^16 leaves x^12 + x^5 + 1, and a remainder below x^15 is multiplied by x |
| `Crc16.CrcLinear` | IOFireWireFamily.kmodproj/IOFWUtils.cpp:65-84 | the CRC is linear over exclusive-or |
| `Crc16.CrcAppend` | IOFireWireFamily.kmodproj/IOFWUtils.cpp:65-84 | the quadlets are divided in their order |
| `Crc16.UndetectedErrors` | IOFireWireFamily.kmodproj/IOFWUtils.cpp:65-84 | an error goes undetected if and only if its own CRC is zero |
| `Crc16.SingleBitErrorDetected` | IOFireWireFamily.kmodproj/IOFWUtils.cpp:65-84 | a single wrong bit in any message is detected |
| `Crc16.CrcInjective` | IOFireWireFamily.kmodproj/IOFWUtils.cpp:46-58 | different intermediate remainders never meet again |
| `CycleTime.AddIsTickAddition` | IOFireWireFamily.kmodproj/IOFWUtils.cpp:86-120 | the sum of two valid CYCLE_TIME values is valid and is addition of ticks modulo 128*8000*3072 |
| `CycleTime.SubtractIsTickSubtraction` | IOFireWireFamily.kmodproj/IOFWUtils.cpp:122-157 | the difference is valid and is subtraction of ticks, with two's complement wrap of the seconds |
| `CycleTime.SubtractUndoesAdd` | IOFireWireFamily.kmodproj/IOFWUtils.cpp:86-157 | (a + b) - b is a |
| `CycleTime.AddUndoesSubtract` | IOFireWireFamily.kmodproj/IOFWUtils.cpp:86-157 | (a - b) + b is a |
| `CycleTime.AddAssociates` | IOFireWireFamily.kmodproj/IOFWUtils.cpp:86-120 | addition is associative |
| `CycleTime.AddCommutes` | IOFireWireFamily.kmodproj/IOFWUtils.cpp:86-120 | addition is commutative |
| `CycleTime.ZeroIsNeutral` | IOFireWireFamily.kmodproj/IOFWUtils.cpp:86-157 | 0 is neutral and every time has an inverse |
| `CycleTime.FieldsTogether` | IOFireWireFamily.kmodproj/IOFWUtils.cpp:115-117 | the bitwise or that AddTimes and SubtractTimes end with puts a time together from its three fields |
| `CycleTime.OrIsSum` | IOFireWireFamily.kmodproj/IOFWUtils.cpp:115-117 | bitwise or of a multiple of 2^k and a number below 2^k is their sum |
| `CycleTime.MasksCutFields` | IOFireWireFamily.kmodproj/IOFWUtils.cpp:92-107 | the three masks cut the fields out of a word |
| `ObjectExporter.Exporter.AddObject` | IOFireWireFamily.kmodproj/IOFWUserObjectExporter.cpp:202-294 | a new handle is the lowest that is not live, it is not zero, all live handles keep their entry through growth, and none is given only when 0xFFFE objects are live |
| `ObjectExporter.Exporter.RemoveObject` | IOFireWireFamily.kmodproj/IOFWUserObjectExporter.cpp:296-342 | a live handle's object is released once, after one call of its own cleanup function if it has one, and no other count changes; any other handle is ignored |
| `ObjectExporter.Exporter.LookupObject` | IOFireWireFamily.kmodproj/IOFWUserObjectExporter.cpp:374-400 | delivers the object added under a live handle and nothing for any other |
| `ObjectExporter.Exporter.LookupHandle` | IOFireWireFamily.kmodproj/IOFWUserObjectExporter.cpp:344-372 | the lowest live handle of the object, 0 if there is none |
| `ObjectExporter.Exporter.RemoveAllObjects` | IOFireWireFamily.kmodproj/IOFWUserObjectExporter.cpp:436-490 | afterwards every object ever added was released exactly once, and its cleanup function called exactly once if it has one and never if not |
| `ObjectExporter.Exporter.Grow` | IOFireWireFamily.kmodproj/IOFWUserObjectExporter.cpp:222-262 | the table grows by half up to the limit, and fails only at the limit |
| `ExportLedger.Ledger.RemoveOk` | IOFireWireFamily.kmodproj/IOFWUserObjectExporter.cpp:296-342 | removing a live handle keeps one release and at most one cleanup call per added object |
| `DclPackets.Talker.TalkPacket` | IOFireWireFamily.kmodproj/IOFWDCLTranslator.cpp:576-625 | the packet loop puts exactly the buffers of the next group of send commands, in order, behind a header that is, as one big-endian number, their total length in the upper half and the stored header's low half in the lower |
| `DclGroups.DataLengthIsUpperHalf` | IOFireWireFamily.kmodproj/IOFWDCLTranslator.cpp:556 | the length that a reader takes from any header is the upper half of the big-endian number |
| `DclPackets.Talker.RunEngine` | IOFireWireFamily.kmodproj/IOFWDCLTranslator.cpp:215-253 | one send command appends its buffer and asks for another packet exactly when the next command does not continue the group |
| `DclPackets.Listener.ListenPacket` | IOFireWireFamily.kmodproj/IOFWDCLTranslator.cpp:530-567 | the packet loop reads the length from the header and fills the buffers of the next group of receive commands, as one memory, with the header and as much of that many bytes as fits, and touches nothing else |
| `DclPackets.Listener.RunEngine` | IOFireWireFamily.kmodproj/IOFWDCLTranslator.cpp:38-141 | one receive command takes its share and leaves the rest of the packet |
| `DclPackets.Stream` | IOFireWireFamily.kmodproj/IOFWDCLTranslator.cpp:530-625 | talker and listener run one after the other: behind the header quadlet arrives exactly the longest prefix of the concatenated send buffers that fits, the rest of the receive buffers is as before |
| `DclPackets.StreamPreserved` | IOFireWireFamily.kmodproj/IOFWDCLTranslator.cpp:545-615 | laying a packet into a memory gives its header, the longest prefix of its data that fits, and the old rest |
| `ReceiveRing.EveryRunIsSafe` | IOFireWireFamily.kmodproj/IOFWAsyncStreamReceiver.cpp:497-563 | in every interleaving of hardware and in-order callbacks, store by store, the hardware never enters a segment whose data no callback has seen |
| `ReceiveRing.StepInv` | IOFireWireFamily.kmodproj/IOFWAsyncStreamReceiver.cpp:497-533 | every fill, jump and store keeps the stop mark before the oldest unseen segment |
| `ReceiveRing.NeverOverwrites` | IOFireWireFamily.kmodproj/IOFWAsyncStreamReceiver.cpp:497-533 | no single jump enters a segment that is still unseen |
| `ReceiveRing.StopsExactlyWhen` | IOFireWireFamily.kmodproj/IOFWAsyncStreamReceiver.cpp:497-533 | the hardware runs into the overrun label if and only if the ring is full, or a callback has caught up with it before it took its jump |
| `ReceiveRing.OtherOrderOverwrites` | IOFireWireFamily.kmodproj/IOFWAsyncStreamReceiver.cpp:513-529 | with the two stores of modifyDCLJumps in the other order a full ring is overwritten, so their order matters |
| `ReceiveRing.AsyncStreamReceiver.FixDCLJumps` | IOFireWireFamily.kmodproj/IOFWAsyncStreamReceiver.cpp:535-563 | the loop leaves the starting jumps, with the last segment leading to the overrun label |
| `ReceiveRing.AsyncStreamReceiver.ModifyDCLJumps` | IOFireWireFamily.kmodproj/IOFWAsyncStreamReceiver.cpp:497-533 | its two stores are the two steps of the interleaved model, in that order |

## Left out

- IsochTheorems.ChannelExclusivity: does not cover runs with a step that is not reliable, where it is false (`IsochRuns.FailedReallocationLetsTwoHold`, `IsochRuns.StaleAllocationLetsTwoHold`).
- IsochTheorems.BandwidthConservation: does not cover steps of the object itself that are not orderly, each of which breaks it (`IsochWorld.StepExactlyWhen`), nor runs in which others make the register need more than 32 bits.
- Generations are unbounded numbers.
- The clock of allocateChannelBegin (each look at it may say that the last reset is a second ago or not), channel selection without an IRM, ports, start and stop of a channel.
- Registers as bit patterns: words of CHANNELS_AVAILABLE are sets of bits, BANDWIDTH_AVAILABLE a number whose refund wraps at 2^32.
- AsyncCommandCode.AsyncCommand.Execute: the link answers after the send. For the local node asyncRead and asyncWrite call gotPacket before they return (IOFireWireController.cpp:4684-4717, 4834); execute then does nothing but read fStatus, so this is the same as a response right after execute.
- AsyncCommandCode.AsyncCommand.GotReadPacket: writeBytes of the memory descriptor stores what fits; what a read of quadlets stores past its destination is counted but not modelled as memory. Sizes and byte counts do not overflow.
- A completion callback that resubmits its own command runs after the completion, not inside it; retain and release, speeds and the synchronous wait are not modelled. The places of commands in queues are modelled in `CommandQueues`, their contents here.
- CommandQueues.Controller.BusResetWithClients: ends where the walk goes stale; what the code then does with a command that is off the queue is not modelled, nor are clients that only move a command.
- CommandQueues.DetachHead: models one turn of executeQueue; its loop over all commands is left out, because the cached next pointer is stale when an executed command edits the same queue, as is checkProgress of a queue.
- IOFWWriteQuadCommand, whose packets are all sent from offset 0, so that its packets do not tile the transfer.
- FireLogWriter.FireLog.LogString: works on 32-bit words: an entry is a length word and its words of time, cycle time and text; formatting the text and the byte order are left out, and positions stay below 2^32.
- RingBufferQueue.RingBufferQ.DequeueBytesWithCopy: callers dequeue with the size they enqueued, which the code relies on; IOByteCount is taken to have 32 bits.
- PhyListener.Listener.ProcessPHYPacket: fewer than 2^32 packets; what follows after order was lost for want of memory is not stated.
- PhysicalSpace.PhysicalAddressSpace.DoRead: segments of 2^32 bytes or more are excluded, whose remaining length the code cuts to 32 bits; for a request of no bytes only the search is given.
- Crc16.ComputeCRC16: quadlets are taken after the swap to host order.
- CycleTime.AddIsTickAddition: only for valid CYCLE_TIME values.
- ObjectExporter.Exporter.AddObject: memory allocation succeeds; objects and functions are numbers, retain counts other than the table's own are left out.
- DclPackets.Listener.ListenPacket: receive-start buffers of at least four bytes; jumps, call procedures, tag and sync bits, and the buffer commands, whose offset is never reset, are left out, as is the indexing of the ping-pong buffers.
- ReceiveRing.AsyncStreamReceiver.ModifyDCLJumps: callbacks come in order and notify succeeds; a restart begins with a fresh ring.
- Header rings of the pseudo address space and the asynchronous stream listener, user-client marshalling, configuration ROM publishing, power management, DCL printing and deprecated files.
