# Verification of the audio path and the volume registry

audioctl moves audio from a virtual device to a physical one and keeps a volume and a mute flag for every
application. This project models the parts of it that are stateful and hard to get right, in Dafny, and proves what
they keep over whole runs. `dafny verify dfyconfig.toml` checks everything.

**The audio path.** `RouterRing` is the router's ring buffer: free-running 32-bit positions, masked indexing, whole
blocks dropped or silenced. It has the two IO callbacks as an imperative class over an array. `RouterMachine` runs its
two threads step by step: every atomic access and every copied sample is a step of its own, and a run is any
interleaving. Its log of operations is proved to be a legal history of a bounded queue that explains every return.
`RouterSequential` ties the two together: a thread that runs alone does what the class is proved to do.
`RouterPastWrap` says how far that goes beyond 2^32 samples, `RouterCounters` and `RouterPeak` cover the statistics, and
`RouterWitness` has the runs that go wrong. `LoopbackDevice` and `LoopbackDriver` are the driver's second ring, its
reference-counted IO state and its freewheel clock. `Pipeline` composes both rings.

**The volume registry.** `IpcCodec` is the wire format, `LinkedNodes` a linked list on the heap, `IpcRegistry` the
service's list of clients and `ConnectionList` its list of connections. `IpcWire` has the dispatcher and the two byte
streams, `IpcService` and `IpcCaller` the code of both sides. `IpcLockstep` shows which runs of calls keep the streams
in step, `IpcOutOfStep` what throws them out of step. `IpcUnread` is what a client has still to read, as whole answers
behind a fragment, `IpcQuiet` shows that no answer hides the start of a message, `IpcVolumeQuery` and `IpcListing` are
the two calls that ask for data, `IpcMixedRuns` proves that over runs of all calls the byte streams are a queue of
answers, and `IpcMisread` how long a client fails that reads from the middle of one. `VolumeTable` is the controller's
compacting array, `VolumeMirror` its agreement with the service, `DriverVolume` the driver's slot table and volume
lookup, `VolumeCache` the 100 ms cache, `Backoff` the reconnection delays.

## What is false of the code

* Past 2^32 accepted samples the router's size can be one whole capacity (4096) too large. The overrun and underrun
  tests are exact if and only if `current_write >= current_read` (`RouterRing.OverrunTestExactIff`,
  `RouterRing.UnderrunTestExactIff`). Such states are reached (`RouterWitness.SamplesLaid`), and in
  `RouterWitness.SampleIsLost` a run ends with a sample overwritten before it is read. The history stays a queue's as
  long as no such snapshot accepts a block that does not fit or supplies samples that are not there
  (`RouterPastWrap.NeverMisledIsLinearizable`), and when calls do not overlap, only as long
  (`RouterPastWrap.LegalIffNeverMisled`).
* The reported peak can lose the true one, the highest usage of all completed updates, because two threads store it
  without a compare: it is right throughout a run if and only if no store is overtaken, that is, the other thread never
  stores more between a thread's load of the peak and its store (`RouterPeak.PeakIsHighestIff`). Updates that do not
  overlap keep it right (`RouterPeak.DisjointUpdatesKeepPeak`); `RouterWitness.PeakIsLost` is a run that reports 1 after
  a usage of 2.
* A registration of which more than 4096 payload bytes are sent leaves the connection behind
  (`IpcOutOfStep.StepKeptIffFits`), and so does any request with a payload whose header the service handles before the
  payload has arrived (`IpcOutOfStep.SplitKeptIffEmpty`). Neither registrations, removals, settings and pings
  (`IpcOutOfStep.NeverBackInStep`) nor runs with queries and listings among them (`IpcMixedRuns.NoTurnsBackInStep`)
  bring such a connection back in step; a new connection does.
* No volume query ever reads the registered volume. In step it yields nothing: the answer about a registered application
  is 17 bytes long and the client's buffer 9 (`IpcVolumeQuery.QueryNeverAnswers`). On a connection that is behind it
  yields a volume if and only if the oldest unread answer is next to be read, is an OK and has at most one data byte
  (`IpcVolumeQuery.QueryAnswersIff`), and for an OK without data that volume is 0, unmuted. So the cached lookup
  succeeds exactly on a cache hit or on such a stale OK (`IpcVolumeQuery.FastExactly`), a refresh exactly on a stale OK
  (`IpcVolumeQuery.RefreshExactly`), and the driver then plays silence as long as the entry is fresh
  (`IpcVolumeQuery.StaleOkSilences`, reached in `IpcVolumeQuery.StaleOkIsReached`).
* After one query about a registered application the client reads from the middle of a reply. Every call then fails for
  its caller, although the service carries it out, as long as fewer than eight answers about registered applications
  have been sent, a listing counting for the applications in it modulo 8 (`IpcMisread.AfterQueryAllFail`). The eighth
  can bring the client to the start of a reply: then a call returns 0 whatever it asks
  (`IpcMisread.EighthQueryMeets`). In general a run fails throughout unless some reply starts
  at a multiple of 16 bytes from where the client began to misread (`IpcMisread.MissingAllFail`,
  `IpcMisread.NeverMeetsIff`).
* Listing the applications returns the registry only when that is empty, since the records are parsed 8 bytes too
  early (`IpcListing.ListAppsAsCoded`), and fails from 15 applications on (`IpcListing.ListAppsNarrow`). On a connection
  that is behind it returns as many records as fit into the oldest unread answer: none for most, those of an earlier
  listing for its answer (`IpcListing.ListAppsBehind`, `IpcListing.SecondListing`).
* Removing a connection behind 10000 newer ones does nothing (`ConnectionList.RemovedDropsIff`,
  `ConnectionList.NotRemoved`).
* Clock readings agree with one another if and only if no 64-bit counter wraps between them
  (`LoopbackDevice.ClockNeverDrifts`); `LoopbackDevice.ClockRunsBack` is a run in which one does.
* `memory-bank/decisions.md` describes a loopback buffer of 65536 samples that is protected against overflow, cleared
  by StartIO and read in part when it runs short. The code has 16384 samples, no overflow check, clears in StopIO, and
  gives silence. The model follows the code.

## Model

| member | source | states |
|---|---|---|
| RouterRing.OccupiedOfTotals | src/audio_router.c:148-153 | for any true totals, the size the code computes is the backlog while both positions lie in the same 2^32 window, and 4096 too large once only the write position has wrapped |
| RouterRing.OverrunTestExactIff | src/audio_router.c:148-164 | for every even backlog the overrun test is right about every block a callback can hand over exactly when current_write >= current_read |
| RouterRing.UnderrunTestExactIff | src/audio_router.c:197-204 | for every even backlog the underrun test is right about every block a callback can ask for exactly when current_write >= current_read |
| RouterRing.MaskedTotal | src/audio_router.c:169 | masking a wrapped position picks the slot of the unwrapped total, also across the wrap |
| RouterRing.WriteIsEnqueue | src/audio_router.c:132-177 | before the wrap an undisturbed write enqueues the whole block exactly when it fits beside the unread samples with one slot free, and otherwise changes only the overrun count |
| RouterRing.ReadIsDequeue | src/audio_router.c:181-227 | before the wrap an undisturbed read takes the oldest samples exactly when there are enough, and otherwise leaves the ring alone |
| RouterRing.WriteReports | src/audio_router.c:112-177 | while current_write >= current_read, an accepted write reports as its level exactly what is then unread, as its usage that level in whole percent, and as its peak the larger of that and the old one |
| RouterRing.ReadReports | src/audio_router.c:112-227 | so does a read, served or starved, and it counts an underrun exactly when it starves |
| RouterRing.WrappedWriteLosesUnread | src/audio_router.c:152-173 | with only the write position wrapped, a full-capacity block is accepted and overwrites the oldest unread sample |
| RouterRing.WholeFrames | src/audio_router.c:258-261 | the frame and sample counts of a callback's byte size never overflow 32 bits |
| RouterRing.AudioRouter.constructor | src/audio_router.c:79-98 | the ring starts empty and zeroed |
| RouterRing.AudioRouter.UpdateStats | src/audio_router.c:112-128 | usage, fill level and running peak after a statistics update |
| RouterRing.AudioRouter.StoreBlock | src/audio_router.c:167-171 | the copy loop lays the block into the masked slots and touches no other |
| RouterRing.AudioRouter.LoadBlock | src/audio_router.c:217-221 | the copy loop reads the masked slots in order and leaves the rest of the caller's buffer |
| RouterRing.AudioRouter.RbWrite | src/audio_router.c:132-177 | the whole new state, for accepted and for dropped blocks |
| RouterRing.AudioRouter.RbRead | src/audio_router.c:181-227 | the whole new state, and the caller's buffer sample by sample: what was read, or 0.0 when there is too little; the rest of the buffer stays |
| RouterRing.AudioRouter.InputCallback | src/audio_router.c:232-265 | ignored calls change nothing; otherwise the block is written and its frames are counted, dropped or not |
| RouterRing.AudioRouter.OutputCallback | src/audio_router.c:268-312 | ignored calls change nothing; otherwise every sample delivered is the one read, or 0.0 when the read starves, times the gain when that lies strictly between 0 and 1, and unscaled when not |
| RouterRing.AudioRouter.ApplyGain | src/audio_router.c:301-309 | every sample is multiplied by the gain when that lies strictly between 0 and 1; otherwise, and behind the count, nothing changes |
| RouterMachine.QueueIsWhatRemains | src/audio_router.c:132-227 | in a legal history what was dequeued is a prefix of what was enqueued, in order, and the queue is the rest, below 4096 samples |
| RouterMachine.RealTimeOrder | src/audio_router.c:132-227 | a call that returned before another began stands before it in the history |
| RouterMachine.SlotSafety | src/audio_router.c:143-173 | at every step of every interleaving before the wrap, the slot about to be written holds none of the samples the consumer may still read, those still lie in their slots, and the cursor is at most 4095 past the published read position |
| RouterMachine.StepKeepsGood | src/audio_router.c:132-227 | every step of either thread keeps ring, log and history consistent |
| RouterMachine.RunIsGood | src/audio_router.c:132-227 | so does every run in which no snapshot sees current_write < current_read |
| RouterMachine.ShortRunNeverWraps | src/audio_router.c:150-153 | with fewer than 2^32 accepted samples no snapshot takes the else branch |
| RouterMachine.RunIsLinearizable | src/audio_router.c:132-227 | under every interleaving of one producer and one consumer, before 2^32 accepted samples, all calls are explained by a legal history of an all-or-nothing queue of capacity 4095, each taking effect between its call and its return |
| RouterPastWrap.NeverMisledIsLinearizable | src/audio_router.c:132-227 | under every interleaving and however many samples have been accepted, a run in which no snapshot with current_write < current_read accepts a block that does not fit or supplies samples that are not there is explained by a legal history |
| RouterPastWrap.LegalIffNeverMisled | src/audio_router.c:132-227 | when calls do not overlap, the history at the end is legal exactly when no snapshot was so misled |
| RouterPastWrap.OverlapForgives | src/audio_router.c:132-227 | when they do, a block that did not fit at its snapshot can fit at its store, because a read has released samples in between |
| RouterSequential.UndisturbedWrite | src/audio_router.c:258-262 | the stepped producer, running alone, does what the input callback is proved to do, in every state |
| RouterSequential.UndisturbedRead | src/audio_router.c:191-227 | the stepped consumer, running alone, does and returns what the read is proved to, in every state |
| RouterCounters.RunKeepsCounters | src/audio_router.c:158-214 | in every run, wrapped or not, the counters follow the history |
| RouterCounters.Conservation | src/audio_router.c:258-262 | when both threads are idle: twice the frames handed over is accepted plus dropped samples, the positions differ by what is unread, the error counters equal the dropped and the silenced blocks |
| RouterCounters.ReportsAreBounded | src/audio_router.c:69-128 | under every interleaving before 2^32 accepted samples at most 4095 samples and 99 percent are reported, and as latency at 48 kHz the buffered frames in whole milliseconds, rounded down, at most 42 |
| RouterCounters.LatencyRoundsDown | src/audio_router.c:69-77 | at every sample rate the latency is the frames in milliseconds, rounded down, as long as the product fits 32 bits |
| RouterPeak.DisjointUpdatesKeepPeak | src/audio_router.c:122-127 | in a run in which the two threads' statistics updates never overlap, as when they are atomic, the reported peak is at every moment the highest usage of all updates completed so far; current_usage, stored first, may be above it in between |
| RouterPeak.LateIffOvertaken | src/audio_router.c:122-127 | a store lowers the peak exactly when it is overtaken: the other thread has stored more between this thread's load and this store |
| RouterPeak.PeakIsHighestIff | src/audio_router.c:122-127 | under every interleaving the reported peak is at every moment of a run the highest usage of all completed updates exactly when no store in the run is overtaken |
| RouterPeak.PeakAtMostHighest | src/audio_router.c:122-127 | in every run the reported peak is never above the highest usage of all completed updates |
| RouterPeak.LateStoreLosesPeak | src/audio_router.c:122-127 | a late store always puts the peak below the highest usage of all completed updates |
| RouterWitness.PeakIsLost | src/audio_router.c:122-127 | a run in which a store is overtaken, after which the reported peak is 1 although usage 2 was reached |
| RouterWitness.SamplesLaid | src/audio_router.c:132-227 | for every even n up to 2^32 some run accepts n samples and leaves the last two unread |
| RouterWitness.SampleIsLost | src/audio_router.c:152-173 | a run that accepts 2^32 samples and one full block more, which overwrites an unread sample; the next read plays something else in its place |
| LoopbackDevice.AvailableIsBacklog | src/driver/virtual_audio_driver.c:497-501 | for reduced positions the size is the backlog modulo 16384, for every pair of totals |
| LoopbackDevice.StoreKeepsRecent | src/driver/virtual_audio_driver.c:472-481 | after any write the ring holds the last 16384 samples mixed in this epoch |
| LoopbackDevice.ReadIsContiguous | src/driver/virtual_audio_driver.c:491-518 | a successful read returns the contiguous samples that start at the read position advanced by whole buffer lengths, and succeeds exactly when that many are left; otherwise nothing changes |
| LoopbackDevice.BelowSizeIsQueue | src/driver/virtual_audio_driver.c:491-518 | with less than 16384 samples unread the loopback is an exact queue |
| LoopbackDevice.RunKeepsTrack | src/driver/virtual_audio_driver.c:250-518 | every run of operations the host may make keeps ring, reference count, seed and clock consistent |
| LoopbackDevice.EpochMachine | src/driver/virtual_audio_driver.c:249-326 | the reference count is the number of live clients, the seed is even exactly while IO runs, the write position is twice the frame count modulo 16384 while it runs, and between epochs the ring is reset |
| LoopbackDevice.BoundariesOnlyAtEdges | src/driver/virtual_audio_driver.c:269-324 | the seed moves exactly when the first client starts or the last one stops; the first start sets the anchor to the time given and the frame count to 0, the last stop clears the ring; within an epoch nothing counts back |
| LoopbackDevice.RestIsSilent | src/driver/virtual_audio_driver.c:297-326 | in every run the ring holds only silence whenever no client is running |
| LoopbackDevice.ReadInRun | src/driver/virtual_audio_driver.c:489-518 | what ReadInput delivers at any point of any run |
| LoopbackDevice.HostTimeCounts | src/driver/virtual_audio_driver.c:332-369 | before it is cut to 64 bits the host time is the anchor plus k, where k <= frames times rate < k + 1 at the measured rate, or at 1000000000 / 48000 when that is not positive |
| LoopbackDevice.ClockNeverDrifts | src/driver/virtual_audio_driver.c:332-369 | of any two readings in one seed epoch sample and host time do not run back, and the host time advances by the frames mixed times the measured rate (48 kHz in nanoseconds when there is none) to within one tick, exactly when neither the frame count nor the host time has wrapped at 64 bits between them |
| LoopbackDevice.ClockRunsBack | src/driver/virtual_audio_driver.c:332-369 | IO that starts at the last tick of the 64-bit host time and mixes one frame: the second reading is below the first |
| LoopbackDriver.VirtualDriver.constructor | src/driver/virtual_audio_driver.c:23-37 | the globals as loaded |
| LoopbackDriver.VirtualDriver.StartIO | src/driver/virtual_audio_driver.c:250-293 | a foreign device is refused; otherwise the client is counted in, and for the first one the anchor is the time given, the frame count 0 and the seed one more; nothing else changes |
| LoopbackDriver.VirtualDriver.StopIO | src/driver/virtual_audio_driver.c:297-326 | the client is counted out, and for the last one every sample of the ring is 0.0 and the seed one more |
| LoopbackDriver.VirtualDriver.GetZeroTimeStamp | src/driver/virtual_audio_driver.c:332-369 | the frame count, the seed, and a host time of anchor plus k modulo 2^64, where k <= frames times rate < k + 1 at the measured rate or the fallback rate |
| LoopbackDriver.VirtualDriver.StoreMix | src/driver/virtual_audio_driver.c:472-486 | ring and clock after WriteMix |
| LoopbackDriver.VirtualDriver.FetchInput | src/driver/virtual_audio_driver.c:491-518 | the ring after ReadInput, and the caller's buffer sample by sample: what was read, or 0.0 when there is too little |
| LoopbackDriver.VirtualDriver.DoIOOperation | src/driver/virtual_audio_driver.c:417-522 | bad layouts change nothing but counters, which count exactly the mixes and the bad layouts; WriteMix and ReadInput have exactly their effect on ring and buffer; ProcessOutput leaves 0.0 for a muted hit, the sample times the volume for a hit below 0.999, and otherwise the sample |
| Pipeline.EnqueuedOrdered | src/audio_router.c:158-164 | dropping whole blocks leaves the accepted stream in order and in parity |
| Pipeline.HeardOrdered | src/audio_router.c:204-214 | so does inserting whole blocks of silence into what is played |
| Pipeline.InputContinues | src/driver/virtual_audio_driver.c:491-518 | every block read from the loopback continues the stream handed to the router so far |
| Pipeline.RunKeepsPath | src/driver/virtual_audio_driver.c:468-518 | both rings stay consistent with one ordered stream in every run before the wrap |
| Pipeline.EndToEnd | src/audio_router.c:258-309 | every sample delivered is inserted silence or the gain times a mixed sample, the mixed positions delivered strictly increase, and left and right never change places |
| Pipeline.CallbackPlays | src/audio_router.c:268-312 | what the output callback leaves in the host's buffer is, sample by sample, the gain applied to the very samples by which that call extends the delivered stream of EndToEnd |
| IpcCodec.NumbersRoundTrip | include/ipc/ipc_protocol.h:29-36 | each packed number is read back as written |
| IpcCodec.HeaderRoundTrip | include/ipc/ipc_protocol.h:29-36 | a header is read back field by field |
| IpcCodec.HeaderBytesRoundTrip | include/ipc/ipc_protocol.h:29-36 | every 16 bytes are exactly one header's encoding |
| IpcCodec.ResponseParts | src/ipc/ipc_server.c:399-420 | a response consists of its header and of the IPCResponse with its data |
| IpcCodec.ClampVolume | src/ipc/ipc_server.c:183-186 | on float patterns: negatives become 0, values above one become 1, and values in range, NaNs included, pass unchanged |
| IpcCodec.FloatTests | src/ipc/ipc_server.c:183-186 | in terms of sign, exponent and fraction (section 3.4 of IEEE 754): the patterns below zero are the signed ones of magnitude above zero, those above one the unsigned ones of magnitude above one, and no NaN is either |
| IpcRegistry.StoredNameIsPadded | src/ipc/ipc_server.c:149-150 | a stored name is zero from its first zero on |
| IpcRegistry.StoredNameIsCut | src/ipc/ipc_server.c:149-150 | read as a C string, a stored name is the C string given, cut to 255 bytes |
| IpcRegistry.RegisterIsInsert | src/ipc/ipc_server.c:131-157 | registration inserts a new pid into the map and keeps pids distinct; a duplicate changes nothing |
| IpcRegistry.UnregisterIsRemove | src/ipc/ipc_server.c:160-177 | removal takes exactly this pid out of the map |
| IpcRegistry.SetVolumeIsReplace | src/ipc/ipc_server.c:180-194 | only this pid's volume changes, clamped, and the order stays |
| IpcRegistry.SetMuteIsReplace | src/ipc/ipc_server.c:213-222 | only this pid's mute flag changes, and the order stays |
| IpcRegistry.ServerRegistry.FindClient | src/ipc/ipc_server.c:115-128 | the first entry with the pid, or null exactly when there is none |
| IpcRegistry.ServerRegistry.Register | src/ipc/ipc_server.c:131-157 | fails exactly on a known pid; otherwise one fresh node is the new head and holds the pid, levels and time given and, as a C string, the name given cut to 255 bytes; the list stays acyclic and the counter its length modulo 2^32 |
| IpcRegistry.ServerRegistry.Unregister | src/ipc/ipc_server.c:160-177 | unlinks exactly the matching node, keeps the order of the rest, fails exactly on an unknown pid |
| IpcRegistry.ServerRegistry.RemoveAt | src/ipc/ipc_server.c:168-171 | the nodes left are all the others, in order |
| IpcRegistry.ServerRegistry.SetVolume | src/ipc/ipc_server.c:180-194 | clamps, updates one entry, fails exactly on an unknown pid |
| IpcRegistry.ServerRegistry.SetMute | src/ipc/ipc_server.c:213-222 | updates one entry, fails exactly on an unknown pid |
| IpcRegistry.ServerRegistry.GetVolume | src/ipc/ipc_server.c:197-210 | returns the map's volume and mute state, fails exactly on an unknown pid |
| IpcRegistry.ServerRegistry.ListClients | src/ipc/ipc_server.c:232-266 | copies the whole list in order, as far as the 32-bit count reaches |
| LinkedNodes.SplicedChain | src/ipc/ipc_server.c:168-169 | a chain whose one link skips a node is the acyclic list of the other nodes |
| LinkedNodes.NodeList.Unlink | src/ipc/ipc_server.c:168-169 | redirecting the one pointer that leads to a node takes exactly that node out and keeps the order of the rest |
| ConnectionList.Connections.Add | src/ipc/ipc_server.c:65-82 | the new connection stands first, before all others |
| ConnectionList.Connections.Remove | src/ipc/ipc_server.c:86-112 | unlinks the connection if it is among the first 10000, and otherwise changes nothing |
| ConnectionList.RemovedDropsIff | src/ipc/ipc_server.c:92-111 | every other connection stays, and this one goes exactly when fewer than 10000 stand before it |
| ConnectionList.NotRemoved | src/ipc/ipc_server.c:92-111 | with ten thousand newer connections the one to be removed stays |
| IpcLockstep.NameSurvives | src/ipc/ipc_client.c:421-432 | read as a C string, the name stored from the payload is the caller's name cut to 255 bytes |
| IpcLockstep.RegisteredInFront | src/ipc/ipc_server.c:131-157 | a fitting registration of a new pid, made in step, returns 0 and puts one record before all others: the caller's pid, levels and time, and as a C string the caller's name cut to 255 bytes |
| IpcLockstep.DispatchIsApplied | src/ipc/ipc_server.c:481-580 | each request is decoded to exactly the operation its caller asked for; the status is OK exactly when it succeeds, -1 for a duplicate registration and otherwise client-not-found |
| IpcLockstep.DispatchRejects | src/ipc/ipc_server.c:481-640 | a payload too short for its command changes nothing and is answered with the invalid-header status, and a valid command that is not served with the unknown-command status |
| IpcLockstep.AppliedIsAfter | src/ipc/ipc_server.c:481-580 | what the operations do to the map from pids to volume and mute state, and when they succeed |
| IpcLockstep.ReplyEchoesId | src/ipc/ipc_server.c:642-643 | the reply to any complete valid message carries that message's request id, and exactly the message is consumed |
| IpcLockstep.CallInStep | src/ipc/ipc_client.c:264-288 | a fitting call made with empty streams leaves both empty, applies the operation and returns 0 exactly when it succeeds |
| IpcLockstep.RunInStep | src/ipc/ipc_client.c:412-605 | over every run of fitting calls both streams stay in step, the registry holds the map the calls produce, and every call tells the truth |
| IpcOutOfStep.PayloadIsNonsense | src/ipc/ipc_server.c:445-450 | no request's payload, whole or cut off anywhere, contains a valid header among its 16-byte pieces, whatever the name |
| IpcOutOfStep.OversizedRegistration | src/ipc/ipc_server.c:445-450 | a registration of which more than 4096 payload bytes are sent leaves the registry alone, returns -1, and leaves one rejection in the stream for every 16 of them, at least 257 |
| IpcOutOfStep.StepKeptIffFits | src/ipc/ipc_protocol.c:66-69 | every call, of any length, leaves the streams in step exactly when what it sends of its payload is within the limit |
| IpcOutOfStep.SplitArrival | src/ipc/ipc_server.c:464-472 | if the service runs between the client's two sends, a request with an allowed payload is lost and a rejection for every 16 bytes of it stays behind |
| IpcOutOfStep.SplitKeptIffEmpty | src/ipc/ipc_server.c:430-472 | a call whose header is handled alone ends in step exactly when it sends no payload |
| IpcOutOfStep.RunLagging | src/ipc/ipc_client.c:264-288 | on a connection that is k replies without data behind, every run of fitting calls is applied, stays k behind, and each call is told what an earlier one was answered |
| IpcOutOfStep.NeverBackInStep | src/ipc/ipc_client.c:264-288 | a connection with unread bytes, whatever they are, is not brought back in step by any run of registrations, removals, settings and pings, fitting or not |
| IpcUnread.ReadsNext | src/ipc/ipc_client.c:214-261 | a read takes the oldest reply when it fits the buffer, leaves its body behind when it does not, and in the middle of a reply drops 16 bytes and fails |
| IpcWire.ReceivedCases | src/ipc/ipc_client.c:214-261 | a receive gives the connection up exactly when there is nothing at all or a fitting header promises more than there is, yields header and payload exactly when both are there and fit, and otherwise drops the header, or what there is of one |
| IpcQuiet.BareIsQuiet | src/ipc/ipc_server.c:398-426 | no valid header begins inside a reply without data, whatever follows it |
| IpcQuiet.QueryAnswerIsQuiet | src/ipc/ipc_server.c:517-543 | nor inside an answer to a volume query, whatever the volume |
| IpcQuiet.ListIsQuiet | src/ipc/ipc_server.c:582-635 | nor inside a list of up to 61000 ordinary applications: pid below 2^24, volume from 0 to 1, name of at most 253 bytes, a connection time none of whose bytes spell the magic number |
| IpcMixedRuns.ActsAsTurned | src/ipc/ipc_client.c:264-288 | whatever is unread, a call of any kind adds its answers and is told what the next read takes |
| IpcMixedRuns.RunRefines | src/ipc/ipc_client.c:412-762 | over every run of registrations, removals, settings, pings, queries and listings, fitting or not, and whatever is unread, the byte streams are a queue of answers: what every caller is told, what is left unread, and the registry |
| IpcMixedRuns.NoTurnsBackInStep | src/ipc/ipc_client.c:412-762 | a connection with unread answers is not brought back in step by any such run |
| IpcMisread.NeverMeetsIff | src/ipc/ipc_client.c:214-261 | every call of a run begins to read inside a reply exactly when no reply starts at a multiple of 16 bytes from where the client began to misread, short of what the run reads |
| IpcMisread.MissingAllFail | src/ipc/ipc_client.c:214-261 | then every call of the run fails for its caller, and the service does what all of them ask |
| IpcMisread.FragmentAllFail | src/ipc/ipc_client.c:214-261 | that is so from any fragment on, as long as its length modulo 8, a byte for every query about a registered pid, and the applications listed modulo 8 add up to less than 8 |
| IpcMisread.AfterQueryAllFail | src/ipc/ipc_client.c:245-249 | after one query about a registered pid every call of a run, further queries and listings included, fails and is carried out as long as fewer than eight answers about registered pids have been sent |
| IpcMisread.AfterListAllFail | src/ipc/ipc_client.c:245-249 | after a failed listing of n applications, whose list is quiet, likewise: the client starts n modulo 8 bytes off |
| IpcMisread.EighthQueryMeets | src/ipc/ipc_client.c:245-249 | after eight queries about a registered pid and ten pings the next call returns 0, whatever it asks and whatever the service answers |
| IpcVolumeQuery.QueryIsDispatched | src/ipc/ipc_server.c:517-543 | what the service answers to a volume query |
| IpcVolumeQuery.QueryNeverAnswers | src/ipc/ipc_client.c:245-249 | a query made in step never yields a volume; it keeps the streams in step exactly for unregistered pids and otherwise leaves 17 bytes behind |
| IpcVolumeQuery.QueryAnswersIff | src/ipc/ipc_client.c:482-513 | whatever is unread, a query yields a volume exactly when the oldest unread answer is next to be read, is an OK and has at most one data byte; it is then made of that answer's data length and data byte |
| IpcVolumeQuery.SecondQueryFails | src/ipc/ipc_client.c:482-513 | one stale OK behind, the first query about a registered pid yields 0, unmuted, and the second nothing: it reads the first one's answer |
| IpcVolumeQuery.FastExactly | src/ipc/ipc_client.c:291-355 | with or without connection and whatever is unread, the fast lookup succeeds exactly on a cache hit or a stale OK; in the second case it reports and caches what that is taken for |
| IpcVolumeQuery.RefreshExactly | src/ipc/ipc_client.c:358-394 | a refresh succeeds exactly on a stale OK, and then caches what that is taken for |
| IpcVolumeQuery.LookupsAgreeIff | src/driver/app_volume_driver.c:283-292 | for every pid, on one cache, the driver's lookup and the client's succeed in the same states exactly when a hit finds the driver initialised and the pid positive, and a miss no stale OK; the driver plays the value on a hit of its own and otherwise at full volume |
| IpcVolumeQuery.StaleOkSilences | src/driver/app_volume_driver.c:272-300 | in that case the lookup reports 0 while the driver plays at full volume, and the entry it caches then silences the driver for as long as it is fresh |
| IpcVolumeQuery.StaleOkIsReached | src/ipc/ipc_client.c:291-355 | from an empty registry, a removal whose header arrives alone and a ping lead there |
| VolumeCache.HitIsLatest | src/ipc/ipc_client.c:396-409 | over every run of stores a hit yields what was most recently stored for this pid, and happens exactly when that was the very last store and is less than 100 ms old |
| VolumeCache.HitAge | src/ipc/ipc_client.c:299-301 | in clock terms: the store is 0 to 99 ms old; a clock that ran back misses unless the 64-bit difference wraps |
| IpcListing.RecordRoundTrip | src/ipc/ipc_server.c:610-631 | a 273-byte record is parsed back as written |
| IpcListing.ListRoundTrip | src/ipc/ipc_client.c:732-754 | parsing the data section gives back the registry |
| IpcListing.ListBytesRoundTrip | src/ipc/ipc_server.c:610-631 | writing what was parsed gives back the data section |
| IpcListing.ListReplyFits | src/ipc/ipc_protocol.c:66-69 | the reply passes header validation exactly when its wrapped length is within the limit; below 2^32 bytes that is for at most 14 applications, and the division of the full payload length yields their number |
| IpcListing.LongListPasses | src/ipc/ipc_protocol.c:66-69 | beyond 2^32 bytes it can pass again: the reply for 15732481 applications claims a length of 25 |
| IpcListing.ParsedAsCodedIsOther | src/ipc/ipc_client.c:731-754 | parsed from offset 0, the first record is the response's own status and data length, and the list is not the registry |
| IpcListing.ListAppsAsCoded | src/ipc/ipc_client.c:677-762 | the call as coded in every in-step state, with any number of applications: when it returns a list, of what length, when it leaves the streams in step, and that the list is the registry only when that is empty |
| IpcListing.ListAppsNarrow | src/ipc/ipc_client.c:677-762 | below 2^32 bytes: up to 14 applications the list has the right length and the streams stay in step, from 15 on the call fails and they do not |
| IpcListing.ListAppsLagging | src/ipc/ipc_client.c:677-762 | with whole answers unread, a listing reads the oldest, if within the limit, as (8 + data) / 273 records, and leaves its own answer behind the others |
| IpcListing.ListAppsBehind | src/ipc/ipc_client.c:677-762 | whatever is unread, a listing returns a list exactly when the oldest answer is next to be read and its length field is within the limit, and that field says how many records |
| IpcListing.SecondListing | src/ipc/ipc_client.c:677-762 | of two listings on a connection one bare answer behind the first finds none and the second as many applications as there are |
| IpcListing.DrainedKeepsNames | src/ipc/ipc_server.c:149-150 | every registry reached over any byte stream stores only padded names |
| IpcService.WriteRecords | src/ipc/ipc_server.c:595-631 | the buffer filled through the moving pointer is the records one behind the other |
| IpcService.SendResponse | src/ipc/ipc_server.c:398-426 | the bytes put on the stream |
| IpcService.ServeListClients | src/ipc/ipc_server.c:582-635 | status and data of the list reply, for every number of applications |
| IpcService.DispatchCommand | src/ipc/ipc_server.c:481-640 | the switch, on the heap registry, does what the dispatcher's specification says |
| IpcService.HandleClientMessage | src/ipc/ipc_server.c:430-647 | an empty stream closes the connection and changes nothing; from any other one message is taken, whole or not, and exactly one reply is sent |
| IpcService.HandleEvent | src/ipc/ipc_server.c:430-448 | an event with nothing to receive takes the connection off the list and changes nothing else; any other handles one message and leaves the list alone |
| IpcService.ServeWaiting | src/ipc/ipc_server.c:659-690 | handling messages until none wait empties the stream with the specified replies |
| IpcCaller.IpcClient.Send | src/ipc/ipc_client.c:181-211 | header and payload are appended to the stream exactly when connected |
| IpcCaller.IpcClient.Recv | src/ipc/ipc_client.c:214-261 | what is received or fails, what stays in the stream, and when the connection is given up |
| IpcCaller.IpcClient.SendSync | src/ipc/ipc_client.c:264-288 | one exchange with the service |
| IpcCaller.IpcClient.RegisterApp | src/ipc/ipc_client.c:413-451 | world and result equal the specified call |
| IpcCaller.IpcClient.UnregisterApp | src/ipc/ipc_client.c:454-479 | world and result equal the specified call |
| IpcCaller.IpcClient.SetAppVolume | src/ipc/ipc_client.c:517-545 | world and result equal the specified call |
| IpcCaller.IpcClient.SetAppMute | src/ipc/ipc_client.c:549-577 | world and result equal the specified call |
| IpcCaller.IpcClient.PingServer | src/ipc/ipc_client.c:581-605 | world and result equal the specified call |
| IpcCaller.IpcClient.QueryVolume | src/ipc/ipc_client.c:483-513 | world and answer equal the specified query |
| IpcCaller.IpcClient.GetVolumeFast | src/ipc/ipc_client.c:291-355 | world, cache and result equal the specified lookup |
| IpcCaller.IpcClient.RefreshCache | src/ipc/ipc_client.c:358-394 | world, cache and result equal the specified refresh |
| IpcCaller.IpcClient.SetCache | src/ipc/ipc_client.c:397-409 | the cache holds exactly this store |
| IpcCaller.IpcClient.ListApps | src/ipc/ipc_client.c:677-762 | world and list equal the specified call |
| IpcCaller.Parse | src/ipc/ipc_client.c:731-754 | the loop over the moving pointer parses record after record |
| IpcCaller.IpcClient.Connect | src/ipc/ipc_client.c:76-140 | a new connection starts in step and sets the attempt count to 0; a failed one leaves the client disconnected and the count as it was |
| IpcCaller.IpcClient.Reconnect | src/ipc/ipc_client.c:634-665 | 0 exactly on a connection made below five failures, and the count is then 0; a failure raises it by one, below five, and an exhausted client neither sleeps nor connects |
| Backoff.FailingRun | src/ipc/ipc_client.c:633-665 | with no success and no reset, k reconnects of a fresh client sleep exactly the first min(k, 5) of 100, 200, 400, 800 and 1600 ms, at most 3100 ms in all |
| Backoff.CountOfFailures | src/ipc/ipc_client.c:633-665 | the count is 0 afterwards exactly after a connection made or a reset, or when it was 0 and no reconnect failed; otherwise it has grown by one exactly if the event slept |
| Backoff.ClampNeverReached | src/ipc/ipc_client.c:647-650 | in every run the attempt count stays within 5 and no sleep exceeds 1600 ms, so the 5000 ms limit never acts |
| VolumeTable.ChangedKeepsRows | src/app_volume_control.c:94-312 | every change keeps pids distinct and the list within 64 entries |
| VolumeTable.AddIs | src/app_volume_control.c:236-278 | a registration row by row: a new application comes last, at full volume and unmuted, a known one keeps place and levels; strings given are stored cut to 255 bytes, others stay, and so do all other rows; the service is told the levels, and the name, else the bundle id, else "Unknown" |
| VolumeTable.SettingIs | src/app_volume_control.c:131-334 | a volume, mute or active change sets exactly that field of the pid's row, the volume clamped, and sends exactly that value, the active flag nothing |
| VolumeTable.RemovalIs | src/app_volume_control.c:280-312 | a removal moves up exactly the rows behind the one removed; for an unknown pid every change but a registration that finds room changes nothing and sends nothing |
| VolumeTable.AddInTwoSteps | src/app_volume_control.c:237-275 | a registration creates or finds the entry and then fills its strings; the service is told that entry's levels |
| VolumeTable.VolumeList.FindEntry | src/app_volume_control.c:81-92 | the first entry with the pid |
| VolumeTable.VolumeList.FindOrCreate | src/app_volume_control.c:94-117 | an existing entry, a new one at full volume, or nothing exactly when the pid is new and the list full |
| VolumeTable.VolumeList.Register | src/app_volume_control.c:236-278 | new list, status and the request sent |
| VolumeTable.VolumeList.ShiftLeft | src/app_volume_control.c:289-293 | the loop closes the gap: the entries before it stay, those behind it move up in order |
| VolumeTable.VolumeList.Unregister | src/app_volume_control.c:280-312 | removes exactly one entry, keeps the order, zeroes what is behind, and sends the request exactly when there was one |
| VolumeTable.VolumeList.Set | src/app_volume_control.c:131-159 | clamps, updates one entry, and sends the clamped volume |
| VolumeTable.VolumeList.SetMute | src/app_volume_control.c:185-208 | updates one entry and sends the flag |
| VolumeTable.VolumeList.SetActiveFlag | src/app_volume_control.c:314-334 | updates one entry and sends nothing |
| VolumeMirror.MirroredAgree | src/app_volume_control.c:94-117 | mirrored tables stand for the same map, and their pid orders are each other's reverse |
| VolumeMirror.ChangeMirrors | src/app_volume_control.c:131-312 | every change and its request keep list and registry mirrored |
| VolumeMirror.StepAgreesIff | src/app_volume_control.c:264-275 | agreement survives a change exactly when the request it sends, if any, fits |
| VolumeMirror.AllowedIff | src/app_volume_control.c:267-274 | that is, always but for a registration under a name of more than 4086 bytes |
| VolumeMirror.LocalAndServerAgree | src/app_volume_control.c:131-312 | from empty tables every run of allowed changes leaves the service with the list's own map, in exactly the opposite order, and both streams empty |
| DriverVolume.ClientsByIndex | src/driver/app_volume_driver.c:106-153 | the map and the count of the slots are determined by the active ones |
| DriverVolume.SlotUpdate | src/driver/app_volume_driver.c:131-170 | changing a slot changes the map at most at the old and the new client id |
| DriverVolume.DriverClients.AddClient | src/driver/app_volume_driver.c:106-153 | a known id keeps its slot and gets the new pid, a new one gets the first free slot; fails exactly when the id is new and all 64 slots are active; a new client is announced at full volume, unmuted, under its name, else its bundle id, else "Unknown" |
| DriverVolume.DriverClients.RemoveClient | src/driver/app_volume_driver.c:155-186 | frees exactly this id's slot, fails exactly when the id is unknown; the service is told exactly when the pid is positive and it can be reached |
| DriverVolume.DriverClients.GetPid | src/driver/app_volume_driver.c:188-208 | the map's pid, or -1 for an unknown id or a busy lock |
| DriverVolume.DriverClients.GetClientPids | src/driver/app_volume_driver.c:238-265 | min(maxCount, active) pids, each active slot's pid at the place given by the number of active slots before it, the rest of the caller's array untouched |
| DriverVolume.DriverClients.GetVolume | src/driver/app_volume_driver.c:272-300 | on a hit, that is a known client with a positive pid, an initialised driver, a free lock and an entry for that pid stored less than 100 ms ago, the cached volume and mute flag; otherwise full and unmuted |
| DriverVolume.DriverClients.ApplyVolume | src/driver/app_volume_driver.c:302-332 | every sample is 0.0 for a muted hit, the sample times the volume for an unmuted hit below 0.999, and otherwise unchanged, as is the rest of the array |

## Left out

- CoreAudio itself: property queries, device switching, IOProc creation, audio_router_start and audio_router_stop beyond the initial state, driver property tables (src/driver/virtual_audio_driver.c:524-953).
- The command line, service manager, paths, app discovery, install scripts, logging and the monitor thread.
- src/driver/virtual_audio_device.c, ipc_status_to_string, app_volume_driver_set_table and get_table, the non-interleaved apply_volume_ni, app_volume_get_all and the active count: easy members.
- The C memory model: an acquire load or release store is one atomic step in program order, and plain samples copied between them are seen in order.
- Floating-point rounding: samples, gain and tick rate are reals. In the IPC part a float is its 32-bit pattern, and clamping is exact on patterns.
- The router with a channel count other than 2, and runs in which a snapshot has been misled, beyond the lemmas of RouterPastWrap and RouterWitness.
- StartIO, StopIO, WriteMix and ReadInput are atomic with respect to each other, as the host serialises IO; a StartIO that overlaps a StopIO is not modelled.
- LoopbackDriver.VirtualDriver.DoIOOperation: the null-buffer checks are parameters, and the client table it scales by is passed in.
- Pipeline.EndToEnd: takes the host to hand ReadInput's buffer unchanged to the input callback, and the volume scaling of ProcessOutput to be part of what is mixed.
- Sockets: each send arrives whole, allocation succeeds, a timeout is an empty stream, and only one client talks at a time. kqueue, signals and descriptors are not modelled; the last-activity heartbeat of ipc_client_should_reconnect is not either.
- IpcLockstep.RunInStep: the service takes its turn after header and payload have both been sent; IpcOutOfStep.SplitArrival and IpcOutOfStep.SplitKeptIffEmpty are what happens otherwise.
- IpcOutOfStep.NeverBackInStep: runs without queries and listings; IpcMixedRuns.NoTurnsBackInStep has them, for unread bytes that are answers.
- IpcMixedRuns.RunRefines: runs that ask for a list which, from some place inside it, reads like a message, as one with an application named to that end may; IpcQuiet.ListIsQuiet shows that lists of ordinary applications never do. IpcMisread.AfterListAllFail likewise.
- IpcVolumeQuery.QueryAnswersIff: the oldest answer is taken to be shorter than 2^32 bytes, and so for the lookups.
- IpcService.ServeListClients: from 2^32 bytes of records on the allocated length wraps; here all records are written to a buffer that holds them, and the bytes beyond the wrapped length are not sent.
- VolumeMirror.StepAgreesIff: names whose registration stays below 2^32 bytes, the width of the length field.
- IpcService.ServeRegister: a registration without a terminating zero, which this client never sends, is read as if one followed the payload.
- Freed memory: a removed node leaves the list, its reuse is not modelled.
- Mutexes in src/app_volume_control.c and locks in the driver: each function is atomic, but for the try-lock of app_volume_driver_get_pid, which may fail at any time.
- ensure_ipc_client_connected: agreement is proved for a connection that stays up; its connect and reconnect are in IpcCaller and Backoff.
