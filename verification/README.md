# A verified model of the Conduit runtime

The Conduit Runtime Environment moves events between threads and machines without locks and without
allocating. This project models the parts of it whose correctness is not visible in any one function, and
proves what they promise. Every theorem is about all inputs, all runs or all reachable states of the model.

| part | files | main theorems |
|---|---|---|
| The tagged lock-free pool | `Words`, `FreeLists`, `TaggedStack`, `PoolRuns`, `TagWrap`, `Pool` | `PoolRuns.RunIsSafe`, `RunIsLifo`, `StaleReadNeverInstalled`, `NullMeansEmpty`, `RetriesBoundedByProgress`, `TaggedStack.MakeAlone`, `TagWrap.MakeSafeIffNextIsCurrent`, `TagWrapLosesTheList`, `TagWrapHandsOutTwice` |
| The networked conduit | `Frames`, `NetSystem`, `NetRuns`, `NetDeliveries`, `NetWindows`, `NetBinds`, `NetworkedConduit` | `NetRuns.DeliveredInOrderAtMostOnce`, `NetDeliveries.DeliveredWereAccepted`, `TypeCheckNeverKills`, `OneConnectionIsPrefix`, `NothingMissing`, `NetBinds.LiveBindCutsTheStream`, `SenderBindSoundIff`, `ReceiverBindSoundIff`, `NetWindows.OverBindSoundIff` |
| The timing wheel | `WheelLists`, `WheelRuns`, `WheelObject` | `WheelRuns.OpRefines`, `TickFiresExactlyTheDue`, `FiresOnTime`, `FiresAfterItsDelay`, `ScheduleThenCancel`, `CancelFiredIff` |
| Rings, switch, poller, ownership | `Rings`, `SpscRuns`, `Turns`, `Scans`, `RoundRobin`, `EventPtrs`, `Ownership` | `SpscRuns.RunIsFifo`, `FailuresAreHonest`, `NullPopIff`, `Scans.PollerServesEveryTrack`, `EveryPointerComesOut`, `SwitchServesEveryTrack`, `Ownership.EveryCellInOnePlace`, `OnePlaceIffNothingDropped`, `ResetSafeIffNotLent` |
| The HTTP request parser | `HttpGrammar`, `HttpSpec`, `HttpParser`, `HttpRoundTrip`, `HttpBytes` | `HttpParser.ParseRequest`, `HttpRoundTrip.AcceptedIffGrammatical`, `ViewsInOrder`, `RoundTripIffPrintable`, `HttpBytes.RulesDecide`, `AcceptedInBytes` |
| Pipeline dispatch | `Dispatch`, `DispatchOrder` | `DispatchOrder.CallsInOrder`, `Dispatch.DispatchStopsAtFirst`, `WhereTheEventEndsUp`, `AccountedForIffNoViewEmptied` |

Concurrent parts are step machines. Each step is one atomic access or one system call, any thread may take the
next step, and interleavings are sequentially consistent. In the scans of the switch and the poller a step is
one ring operation, so that producers and consumers act in the middle of a scan; `SpscRuns` interleaves the
loads and stores inside a ring operation. A compare-and-swap may fail for no reason and reloads the expected
value. The owner of a cell may overwrite its `next` link at any time, because the cell is a union. History
that no code reads (the number of successful swaps, the frames sent) is part of the state where theorems speak
about it; what callers were given and got back is read off the calls (`SpscRuns.Accepted`, `Returned`,
`NetDeliveries.Accepted`, `Completions`). Objects whose methods update fields are classes, and the loops of
the source are loops here, proved against functions whose properties are then proved as lemmas.

Some promises do not hold without a condition, and the model says exactly when they do:

* A successful `make` keeps the free list intact if and only if the link its thread read is still the
  current one. Fewer than 2^32 swaps since the thread loaded the head guarantee it. With exactly 2^32 there
  is a run that hands a cell out twice.
* Binding a sender to a socket keeps the sink's view right, in every continuation, if and only if no frame is
  half sent; binding a receiver to the connection of a live sender, if and only if no frame is half received.
  `bind_socket` resets neither, a death resets both. Otherwise some continuation kills the receiver at the
  type check or hands it a payload that was not pushed there. On a connection that will carry nothing more,
  the receiver's view stays right while it is there if and only if every frame-sized window of its staged
  bytes followed by the connection's happens to be a frame of the event pushed at that place.
* Cancelling a timer that has already fired keeps the wheel right if and only if the links the cancel would
  write already agree. `tick` leaves the fired nodes' bucket field set, so otherwise another timer is lost.
* Releasing an event pointer before pushing the bare pointer keeps every cell accounted for if and only if
  the track has room or the pointer is null.
* A null pointer from `pop` means that the ring was empty or that a null pointer was in front. `push` takes
  null, and a poller that pops one drops it and goes on to the next track without passing the turn.
* A dispatched temporary is back in its pool or owned by a handler if and only if no call that is reached
  releases the pointer it is given, and none empties a view of a base type. A view has no deleter, and the
  dispatcher then releases the owner without freeing.

Where the documentation and the code differ, the model follows the code.
`docs/architecture/TOPOLOGY_AND_BACKPRESSURE.md` says that the switch drops an event no track accepts. The
switch itself leaves it with its caller, and it is the caller's pointer that returns the cell
(`Ownership.DropReturnsCell`).

All statements are about the model and are established by the verifier.
`dafny verify dfyconfig.toml` checks the whole project.

## Model

| member | source | states |
|---|---|---|
| `Words.MaskIsRemainder` | include/conduit/net/networked_conduit.hpp:57-58 | masking with a power of two less one is the remainder by that power |
| `Words.PowerOfTwoTest` | include/conduit/core/networked_conduit.hpp:36-37 | the compile-time capacity test admits exactly the powers of two, for every positive capacity |
| `Words.PackUnpack` | include/conduit/pending/core/slab_allocator.hpp:49-56 | pack and unpack are inverse both ways, so comparing head words compares tag and index |
| `Words.BitByBit` | include/conduit/core.hpp:169-173 | each bit of a mask and of an or is the and and the or of the bits |
| `Words.BumpIsShiftAndMask` | include/conduit/core.hpp:173 | the shift-and-mask expression increments the tag modulo 2^32 and replaces the index, for every head word and every link word |
| `FreeLists.FreshChain` | include/conduit/core.hpp:153-157 | the links written at construction chain all cells in order and end at the sentinel |
| `FreeLists.SameCellsSameStart` | include/conduit/core.hpp:172-173 | two lists through the same memory that hold the same cells start at the same cell, so a wrong head cannot go unnoticed |
| `TaggedStack.InitInv` | include/conduit/core.hpp:152-158 | a new pool satisfies the protocol invariant with every cell free, in order |
| `TaggedStack.CasSawCurrentHead` | include/conduit/core.hpp:164-181 | a `make` that succeeds before the tag has gone round saw no swap since its load, and the link it read is current |
| `TaggedStack.MakeCasStep` | include/conduit/core.hpp:172-178 | installing the current link takes exactly the first cell off the list and keeps the whole invariant |
| `TaggedStack.FreeCasStep` | include/conduit/core.hpp:188-194 | a successful `free` puts its cell in front of the list and keeps the invariant, however far the tag has gone |
| `TaggedStack.StepKeepsInv` | include/conduit/core.hpp:164-195 | every step of any thread keeps the list finite, duplicate-free and sentinel-terminated, keeps every cell in exactly one place, and moves an abstract stack only at the two successful swaps |
| `TaggedStack.MakeAlone` | include/conduit/core.hpp:164-181 | obstruction freedom: from any state of the protocol a thread that runs alone gets the first free cell in three steps and the tag has then moved by one modulo 2^32, or null in two steps and no change when the list is empty |
| `TaggedStack.FreeAlone` | include/conduit/core.hpp:183-195 | from any state a `free` that runs alone puts its cell first in four steps, and the tag has moved by one |
| `TaggedStack.RetryStartsOver` | include/conduit/core.hpp:175-180 | a failed swap leaves a thread exactly where a fresh load of the present head would |
| `PoolRuns.RunIsSafe` | include/conduit/core.hpp:164-195 | the invariant holds in every state of every run of any number of threads |
| `PoolRuns.IndicesInBounds` | include/conduit/core.hpp:169-190 | no memory access of any thread leaves the pool |
| `PoolRuns.RunIsLifo` | include/conduit/pending/core/slab_allocator.hpp:80-137 | the operations, each at its swap or, for one that returns null, at the load that met the sentinel, are a legal history of a LIFO stack of free cells and end in the present list: linearizability |
| `PoolRuns.NullMeansEmpty` | include/conduit/core.hpp:166-170 | a `make` that returns null loaded the head at an instant when the free list was empty |
| `PoolRuns.StaleReadNeverInstalled` | include/conduit/core.hpp:172-175 | the link a successful `make` installs was read while its cell was first on the free list, and is unchanged since; a word from a taken cell is never installed |
| `PoolRuns.GenuineRetryMeansProgress` | include/conduit/core.hpp:175-180 | in every run, however often the tag went round, a swap that fails because the head differs means that another thread's swap succeeded since this thread's last load |
| `PoolRuns.RetriesBoundedByProgress` | include/conduit/core.hpp:168-194 | lock-freedom, in every run: no thread has more genuine retries than there are operations completed by other threads |
| `TagWrap.MakeSafeIffNextIsCurrent` | include/conduit/pending/core/slab_allocator.hpp:90-95 | whatever the tag did, a successful `make` keeps the invariant if and only if the link it read is the one the head cell holds now |
| `TagWrap.TagWrapLosesTheList` | include/conduit/core.hpp:173-175 | the bound is tight: a reachable state exactly 2^32 swaps after a load in which a `make` makes a taken cell the head |
| `TagWrap.TagWrapHandsOutTwice` | include/conduit/core.hpp:166-178 | after that `make`, an undisturbed `make` of the other thread completes with a cell that is already taken |
| `Pool.TakeFirst` | include/conduit/core.hpp:169-178 | with packed words and any payload written over the union, taking the first cell leaves the rest of the list |
| `Pool.PutFirst` | include/conduit/core.hpp:186-191 | linking a cell to the index half of the head and installing it puts it in front of the list |
| `Pool.Pool.constructor` | include/conduit/core.hpp:152-158 | a new pool hands out its cells from the first to the last |
| `Pool.Pool.Make` | include/conduit/core.hpp:164-181 | null exactly when no cell is free, and then nothing changes; otherwise the first free cell, the rest of the list kept, no other cell written and the tag one higher modulo 2^32, however often the swap fails spuriously; the change is an undisturbed run of the protocol: load, read, swap |
| `Pool.Pool.Free` | include/conduit/core.hpp:183-195 | null is ignored; any other cell becomes the first free one, no other cell is written and the tag is one higher modulo 2^32; the change is an undisturbed run of the protocol: load, link, swap |
| `Frames.StreamAt` | include/conduit/net/networked_conduit.hpp:48-52 | the bytes at a multiple of the frame size plus an offset are those of one frame at that offset |
| `NetSystem.WriteKeepsQueue` | include/conduit/net/networked_conduit.hpp:98-106 | writing the slot at the head leaves every frame between tail and head unchanged |
| `NetSystem.RingStep` | include/conduit/net/networked_conduit.hpp:92-147 | every step of the producer and the poll thread keeps tail, local tail and head in order and each queued frame equal to what was pushed there |
| `NetSystem.SendStep` | include/conduit/net/networked_conduit.hpp:120-135 | each partial send extends the wire by the next bytes of the current frame, so a wire is always a prefix of the frame stream from where its connection began |
| `NetSystem.WireStep` | include/conduit/net/networked_conduit.hpp:112-147 | every step keeps every connection's bytes a prefix of the stream from its first frame |
| `NetRuns.RecvEffect` | include/conduit/net/networked_conduit.hpp:154-178 | a partial receive adds bytes of the one frame the receiver is in; completing it writes one receipt with the pushed payload |
| `NetRuns.StepKeepsInv` | include/conduit/net/networked_conduit.hpp:86-212 | every step of both sides keeps ring, wires, alignment and receipts consistent |
| `NetRuns.RunKeepsInv` | include/conduit/net/networked_conduit.hpp:86-212 | the same in every state of every run |
| `NetRuns.DeliveredInOrderAtMostOnce` | include/conduit/net/networked_conduit.hpp:86-212 | across pushes, partial sends and receives, deaths and rebinds, what is completed at the sink has strictly increasing positions in the pushed sequence and intact payloads |
| `NetRuns.TypeCheckNeverKills` | include/conduit/net/networked_conduit.hpp:163-167 | frame boundaries never drift, so in no run does the type check kill the receiver |
| `NetRuns.OneConnectionIsPrefix` | include/conduit/net/networked_conduit.hpp:112-192 | on one connection the completed frames are a prefix of the pushed events |
| `NetRuns.NothingMissing` | include/conduit/net/networked_conduit.hpp:120-135 | once all accepted bytes of a live connection are read, the receiver stands exactly where the sender does |
| `NetDeliveries.PushedAreAccepted` | include/conduit/net/networked_conduit.hpp:92-109 | the pushed events are the arguments of the calls of `push` that were accepted, in order, read off the calls alone |
| `NetDeliveries.DeliveredAreMade` | include/conduit/net/networked_conduit.hpp:169-175 | of the frames completed, exactly those for which `make` gave an event are handed to the sink, in order |
| `NetDeliveries.DeliveredWereAccepted` | include/conduit/net/networked_conduit.hpp:86-212 | in every run, across deaths and rebinds, what the sink is handed is what `push` was given and accepted: in order, at most once, payload intact; both sides read off the calls |
| `NetDeliveries.OneConnectionDelivers` | include/conduit/net/networked_conduit.hpp:112-192 | on one connection the completed frames are the first accepted events one by one, and the sink gets the i-th if and only if `make` gave an event for it |
| `NetDeliveries.RefusedWhenFull` | include/conduit/net/networked_conduit.hpp:98-100 | a refused push met a ring with as many events accepted and not yet published as sent as its capacity; it queues nothing and the next push may begin |
| `NetDeliveries.DeadSenderIsSilent` | include/conduit/net/networked_conduit.hpp:92-113 | from its death to its next bind a sender admits no push, starts no poll and puts no byte on any connection |
| `NetDeliveries.DeadReceiverIsSilent` | include/conduit/net/networked_conduit.hpp:151-152 | from its death to its next bind a receiver reads and delivers nothing |
| `NetDeliveries.PollPublishes` | include/conduit/net/networked_conduit.hpp:136-146 | however a poll ends, its next step publishes how far it got and leaves the poll thread at rest |
| `NetBinds.LiveBindCutsTheStream` | include/conduit/net/networked_conduit.hpp:86-90 | in every continuation of a bind while bytes of a frame are out, until the next bind, the new connection carries the stream from that frame on less exactly those bytes |
| `NetWindows.ReadWindow` | include/conduit/net/networked_conduit.hpp:154-178 | a misaligned receiver takes the next frame-sized window of what it sees: it dies at the type check or takes the window's payload for the next event |
| `NetWindows.OverBindSoundIff` | include/conduit/net/networked_conduit.hpp:86-192 | binding the receiver, with any bytes staged, to a later connection that will carry nothing more: in every continuation, as long as it stays there, only pushed payloads come out, in order and without a death at the type check, if and only if every frame-sized window of the staged bytes followed by the connection's is a frame of the event pushed at its place |
| `NetBinds.SenderBindSoundIff` | include/conduit/net/networked_conduit.hpp:86-147 | from any state that satisfies the protocol invariant, every continuation of binding the sender delivers only pushed payloads, in order, without a death at the type check, if and only if no frame is half sent |
| `NetBinds.CleanReceiverBind` | include/conduit/net/networked_conduit.hpp:86-192 | with no frame half received, every continuation of binding the receiver to any later connection delivers only pushed payloads, in order, without a death at the type check, whether the sender lives or not |
| `NetBinds.ReceiverBindSoundIff` | include/conduit/net/networked_conduit.hpp:151-206 | binding the receiver to the connection of a live sender: the same for every continuation if and only if no frame is half received |
| `NetBinds.HalfSentReachable` | include/conduit/net/networked_conduit.hpp:92-129 | every configuration has a run to a live sender with one byte of a frame out |
| `NetBinds.LiveBindBreaksSomeRun` | include/conduit/net/networked_conduit.hpp:86-192 | so every configuration has a run with one live bind after which the receiver dies at the type check or completes a payload that was not pushed there |
| `NetBinds.OneEventArrives` | include/conduit/net/networked_conduit.hpp:86-192 | for every configuration with room and every payload some run takes an event the whole way, from the first bind to the sink |
| `NetworkedConduit.SlotByMask` | include/conduit/net/networked_conduit.hpp:102 | the masked counter is a valid slot and the one the counter stands for |
| `NetworkedConduit.QueuedAppend` | include/conduit/net/networked_conduit.hpp:98-106 | writing the slot of the head and advancing it appends one frame to the queue and changes none |
| `NetworkedConduit.SendMore` | include/conduit/net/networked_conduit.hpp:123-135 | a further partial send continues the stream where the last one stopped, across frame ends |
| `NetworkedConduit.HandedAreMade` | include/conduit/net/networked_conduit.hpp:169-175 | what is handed on, in order, is the payload of the i-th frame if and only if the pool had a cell for it |
| `NetworkedConduit.Conduit.constructor` | include/conduit/net/networked_conduit.hpp:61-84 | a new conduit is dead with an empty queue |
| `NetworkedConduit.Conduit.BindSocket` | include/conduit/net/networked_conduit.hpp:86-90 | the conduit is alive on the socket; queue, partial send and partial receive are untouched, dead before or not |
| `NetworkedConduit.Conduit.MarkDead` | include/conduit/net/networked_conduit.hpp:199-212 | the first death drops half-sent and half-received progress, a second changes nothing |
| `NetworkedConduit.Conduit.Push` | include/conduit/net/networked_conduit.hpp:92-109 | dead or null is refused without change; otherwise it is the bounded FIFO queue of the full capacity, with a frame that carries the type id and the payload; the pushed event's cell goes back to its pool, and a refused event stays with its pointer |
| `NetworkedConduit.Conduit.Enqueue` | include/conduit/net/networked_conduit.hpp:102-106 | writing the masked slot and advancing the head appends one frame |
| `NetworkedConduit.Conduit.SendOnce` | include/conduit/net/networked_conduit.hpp:121-144 | one `send` moves a non-empty piece of the current frame only, and dies exactly on an error |
| `NetworkedConduit.Conduit.SendNext` | include/conduit/net/networked_conduit.hpp:120-144 | an iteration goes on exactly when the `send` moved bytes, then continues the stream where it stood with less left to send, and dies exactly on an error |
| `NetworkedConduit.Conduit.SendLoop` | include/conduit/net/networked_conduit.hpp:115-145 | the loop terminates, ends only at the head seen on entry or at the first `send` that moves nothing, dies exactly if that one failed, and has sent consecutive bytes of the queue's stream |
| `NetworkedConduit.Conduit.Transmit` | include/conduit/net/networked_conduit.hpp:115-146 | the loop and the store of the tail: exactly the completely sent frames leave the queue |
| `NetworkedConduit.Conduit.PollTx` | include/conduit/net/networked_conduit.hpp:112-147 | it stops only when all is sent or a `send` moves nothing and dies exactly if that one failed; exactly the completely sent frames leave the queue, each byte goes out once and in order, a death forgets the progress inside a frame |
| `NetworkedConduit.Conduit.StageBytes` | include/conduit/net/networked_conduit.hpp:155-161 | received bytes are added behind those already staged |
| `NetworkedConduit.Conduit.Fill` | include/conduit/net/networked_conduit.hpp:155-161 | one `recv` moves at least one byte and at most what the frame lacks, behind the staged ones |
| `NetworkedConduit.Conduit.Complete` | include/conduit/net/networked_conduit.hpp:163-178 | a whole frame is handed on exactly if it has the type id and the pool has a cell; a foreign type id kills and hands on nothing |
| `NetworkedConduit.Conduit.ReceiveNext` | include/conduit/net/networked_conduit.hpp:160-178 | a `recv` that moved bytes extends the cut into frames and rest by exactly those bytes, and kills exactly on a whole frame with a foreign type id |
| `NetworkedConduit.Conduit.Receive` | include/conduit/net/networked_conduit.hpp:154-191 | the loop of a live conduit, with the properties of `PollRx` |
| `NetworkedConduit.Conduit.PollRx` | include/conduit/net/networked_conduit.hpp:151-192 | it stops only when a `recv` moves nothing or a frame has a foreign type id, and dies exactly on such a frame, on an error and at the end of the stream; what was staged plus what is read is a stream of well-typed frames and a rest; the sink gets the payloads for which `make` succeeded, in order |
| `WheelLists.Apart` | include/conduit/pending/core/timing_wheel.hpp:26-41 | the lists of different buckets share no node |
| `WheelLists.ScheduleLinks` | include/conduit/pending/core/timing_wheel.hpp:54-77 | scheduling an unlinked node keeps all lists doubly linked, puts it first in its bucket and changes no other list |
| `WheelLists.CancelLinks` | include/conduit/pending/core/timing_wheel.hpp:82-101 | cancelling a node keeps all lists doubly linked, removes exactly it and changes no other list |
| `WheelLists.TickLinks` | include/conduit/pending/core/timing_wheel.hpp:107-115 | a tick empties exactly the bucket of the new tick |
| `WheelRuns.Deadline` | include/conduit/pending/core/timing_wheel.hpp:55-62 | every deadline lies within one turn after now, whatever the delay |
| `WheelRuns.DeadlineInTicks` | include/conduit/pending/core/timing_wheel.hpp:55-62 | the deadline in ticks from now: the delay if it is shorter than a turn, one tick less than a turn if it is not, a full turn for no delay or a wheel of one slot |
| `WheelRuns.OneDeadline` | include/conduit/pending/core/timing_wheel.hpp:62 | within one turn a bucket stands for one deadline |
| `WheelRuns.ScheduleRefines` | include/conduit/pending/core/timing_wheel.hpp:54-77 | scheduling is setting the node's deadline in a map |
| `WheelRuns.CancelRefines` | include/conduit/pending/core/timing_wheel.hpp:82-101 | cancelling a node that has not fired is removing it from the map, and nothing for one that is not armed |
| `WheelRuns.TickRefines` | include/conduit/pending/core/timing_wheel.hpp:107-115 | a tick moves exactly the due nodes from live to fired |
| `WheelRuns.TickFiresExactlyTheDue` | include/conduit/pending/core/timing_wheel.hpp:106-115 | the returned head starts a list, readable after the tick, of exactly the live nodes whose deadline is the new tick, each once |
| `WheelRuns.OpRefines` | include/conduit/pending/core/timing_wheel.hpp:54-115 | every legal operation keeps the wheel a refinement of the map from node to deadline |
| `WheelRuns.ImplRun` | include/conduit/pending/core/timing_wheel.hpp:54-115 | so does every legal sequence of operations |
| `WheelRuns.FreshRefines` | include/conduit/pending/core/timing_wheel.hpp:47-49 | a new wheel refines the empty map |
| `WheelRuns.FiresOnTime` | include/conduit/pending/core/timing_wheel.hpp:54-115 | a timer that is not cancelled is in the list of the tick that is its deadline and of no earlier tick, whatever else is scheduled, cancelled and fired meanwhile |
| `WheelRuns.FiresAfterItsDelay` | include/conduit/pending/core/timing_wheel.hpp:54-115 | from `schedule` to the tick: a node that is not cancelled is in the list of the tick exactly its delay later, cut as above, and of no earlier one |
| `WheelRuns.ScheduleThenCancel` | include/conduit/pending/core/timing_wheel.hpp:54-101 | cancelling right after scheduling restores every bucket head and every other node exactly |
| `WheelRuns.CancelFiredIff` | include/conduit/pending/core/timing_wheel.hpp:82-115 | cancelling a fired node keeps the refinement if and only if the links it would write on lists already agree |
| `WheelRuns.CancelAfterFireLosesTimer` | include/conduit/pending/core/timing_wheel.hpp:84-93 | a wheel of two slots where cancelling a fired node loses a live timer |
| `WheelObject.TimingWheel.constructor` | include/conduit/pending/core/timing_wheel.hpp:47-49 | a new wheel has no timers |
| `WheelObject.TimingWheel.LinkFront` | include/conduit/pending/core/timing_wheel.hpp:67-76 | the writes put the node in front of its bucket and set the back link of the old first one only |
| `WheelObject.TimingWheel.Schedule` | include/conduit/pending/core/timing_wheel.hpp:54-77 | the in-place writes set the node's deadline: now plus the delay, plus one tick less than a turn if the delay is a turn or more, plus a turn if there is none |
| `WheelObject.TimingWheel.Cancel` | include/conduit/pending/core/timing_wheel.hpp:82-101 | the in-place writes remove the node from that map |
| `WheelObject.TimingWheel.Tick` | include/conduit/pending/core/timing_wheel.hpp:107-115 | the clock advances by one, and the returned list is exactly the nodes whose deadline is the new tick, which are no longer armed |
| `Rings.NextIsMask` | include/conduit/core/networked_conduit.hpp:49 | the masked successor is the successor that goes round, as the modulo one is |
| `Rings.FullAndEmpty` | include/conduit/core.hpp:211-226 | at most Size - 1 items fit, none when Size is 1; the index tests say exactly when the ring is full and when it is empty |
| `Rings.Conduit.constructor` | include/conduit/core.hpp:203-206 | a new ring is empty |
| `Rings.Conduit.Push` | include/conduit/core.hpp:209-220 | the bounded FIFO queue of Size - 1 pointers, null ones among them: appended when there is room, refused without change when full |
| `Rings.Conduit.Pop` | include/conduit/core.hpp:222-231 | takes the oldest pointer off the queue, or nothing and no change when empty; the result is null if and only if the queue was empty or a null pointer was in front |
| `Rings.SpscRingBuffer.constructor` | include/conduit/core/networked_conduit.hpp:39-43 | a new ring is empty |
| `Rings.SpscRingBuffer.Push` | include/conduit/core/networked_conduit.hpp:47-59 | the same bounded FIFO queue, of Capacity - 1 items |
| `Rings.SpscRingBuffer.Pop` | include/conduit/core/networked_conduit.hpp:62-73 | the same for this ring: null if and only if the queue was empty or a null pointer was in front |
| `SpscRuns.StepKeepsInv` | include/conduit/core.hpp:209-231 | every load and store keeps the indices right, and what the ring holds grows at the back by what is accepted and shrinks at the front by what is returned |
| `SpscRuns.RunIsFifo` | include/conduit/core.hpp:209-231 | in every interleaving the results of the pops, in order, are a prefix of the arguments of the accepted pushes, both read off the calls; what lies between is what the ring holds, at most Size - 1 items |
| `SpscRuns.FailuresAreHonest` | include/conduit/core.hpp:213-226 | a push that returns false has an instant when the ring was full, and a pop that leaves by its empty check one when it was empty |
| `SpscRuns.NullPopIff` | include/conduit/core.hpp:222-231 | in every interleaving a pop returns null if and only if, when it returns, what is accepted and not returned is nothing or begins with a null pointer |
| `SpscRuns.UnreadNeverOverwritten` | include/conduit/core.hpp:217-218 | the store into the ring never touches an item that is still held |
| `SpscRuns.PushAlone` | include/conduit/core.hpp:209-220 | a push that nobody disturbs appends its item in four steps if there is room, and changes nothing in two otherwise |
| `SpscRuns.PopAlone` | include/conduit/core.hpp:222-231 | a pop that nobody disturbs returns the oldest item and takes it off in four steps, and changes nothing in two when there is none |
| `Turns.Closer` | include/conduit/core.hpp:404-411 | a ready track that is passed over moves strictly closer to its turn |
| `Turns.VisitBringsCloser` | include/conduit/core.hpp:404-411 | a visit of a scan to another track, hit or miss, never lengthens a track's wait counted in scans, and shortens it by one when it ends the scan |
| `Turns.ServedWithinOneCycle` | include/conduit/core.hpp:403-416 | a track that is ready once, and stays so until it is served, is served within as many successful rounds as there are tracks |
| `Turns.EvenWhenAllReady` | include/conduit/core.hpp:373-387 | when all tracks stay ready each is served exactly once per cycle, in turn |
| `Scans.EveryPointerComesOut` | include/conduit/core.hpp:403-416 | from any point of a run, also the middle of a scan: if the front of a track is due before some number of polls have returned, what stands at position p, null or not, is popped before p further cycles of polls are over; producers may feed any track between any two ring operations |
| `Scans.PollerServesEveryTrack` | include/conduit/core.hpp:403-416 | starvation freedom of the poller: the pointer at position p of a bound track when a call begins is popped by one of the next calls, of p + 1 times as many as there are inputs, and returned by it unless it is null, however producers feed the tracks between the ring operations of a scan, also when one track is bound twice |
| `Scans.SwitchServesEveryTrack` | include/conduit/core.hpp:373-387 | starvation freedom of the switch: a bound track with room when a call begins gets the event of one of the next calls, of as many as there are outputs, however consumers drain the tracks between the ring operations of a scan |
| `Scans.PollTakesOnlyItsEvent` | include/conduit/core.hpp:403-416 | a call with nobody else at work takes exactly the event it returns, from the front of one track's events, and no other event; none when it returns null, whatever null pointers it drops |
| `Scans.PollPicksFirstEvent` | include/conduit/core.hpp:403-416 | that event is in front of the first track in turn that has one there, and the track after it comes first next time; when no track has one in front the result is null and the turn stays |
| `Scans.RoutePicksFirstRoom` | include/conduit/core.hpp:373-387 | a call with nobody else at work appends the event to the first track in turn with room and to no other, and passes the turn; when none has room nothing changes |
| `RoundRobin.Poller.constructor` | include/conduit/core.hpp:392-393 | a new poller has no track bound |
| `RoundRobin.Poller.BindTrack` | include/conduit/core.hpp:396-400 | binds the track at a valid index and ignores any other |
| `RoundRobin.Poller.PopTrack` | include/conduit/core.hpp:407-409 | the front pointer of the track bound at an index is taken off; an unbound index gives null and changes nothing |
| `RoundRobin.Poller.PollAt` | include/conduit/core.hpp:405-409 | one look at the track in turn is one step of the scan among producers; a null pointer in front is popped and dropped |
| `RoundRobin.Poller.PassTurn` | include/conduit/core.hpp:410 | the two remainders make the index after the served one the next |
| `RoundRobin.Poller.Iterate` | include/conduit/core.hpp:405-413 | a whole iteration is that step, and passes the turn exactly when an event was popped |
| `RoundRobin.Poller.Scan` | include/conduit/core.hpp:404-415 | the loop is a whole call of the poller on the tracks as values: looks in turn until one finds an event |
| `RoundRobin.Poller.Poll` | include/conduit/core.hpp:403-416 | each call, with nobody else at work, is a whole call on the tracks as values, whose steps are those of the starvation-free runs; the result and every track are those of `PollTakesOnlyItsEvent` |
| `RoundRobin.Switch.constructor` | include/conduit/core.hpp:363-364 | a new switch has no track bound |
| `RoundRobin.Switch.BindTrack` | include/conduit/core.hpp:367-371 | binds the track at a valid index and ignores any other |
| `RoundRobin.Switch.PushTrack` | include/conduit/core.hpp:379-380 | the event is appended to the track bound at an index if it has room; a full track or an unbound index refuses it without change |
| `RoundRobin.Switch.OnAt` | include/conduit/core.hpp:377-381 | one offer to the track in turn is one step of the scan among consumers |
| `RoundRobin.Switch.PassTurn` | include/conduit/core.hpp:382 | the two remainders make the index after the served one the next |
| `RoundRobin.Switch.Iterate` | include/conduit/core.hpp:377-385 | a whole iteration is that step, and passes the turn exactly when the track took the event |
| `RoundRobin.Switch.Route` | include/conduit/core.hpp:376-386 | the loop is a whole call of the switch on the tracks as values: offers in turn until one is taken |
| `RoundRobin.Switch.On` | include/conduit/core.hpp:373-387 | the event is moved into exactly one track, or the caller keeps it and nothing changes; each call with an event is a whole call on the tracks as values, whose steps are those of the starvation-free runs |
| `EventPtrs.EventPtr.constructor` | include/conduit/core.hpp:76-78 | a pointer with the given cell, deleter and pool |
| `EventPtrs.EventPtr.MoveFrom` | include/conduit/core.hpp:82-86 | the new pointer has everything the old one had, and the old one is empty and no owner |
| `EventPtrs.EventPtr.ViewOf` | include/conduit/core.hpp:103-107 | a view of the same cell that is no owner |
| `EventPtrs.EventPtr.Reset` | include/conduit/core.hpp:109-113 | an owner's cell becomes the first free one of its pool; for any other pointer the pool does not change; the pointer is empty |
| `EventPtrs.EventPtr.Release` | include/conduit/core.hpp:115-120 | the cell is given up and no pool changes |
| `EventPtrs.EventPtr.Assign` | include/conduit/core.hpp:88-98 | what was owned is freed first and the other pointer is emptied; assigning a pointer to itself changes nothing |
| `EventPtrs.MakeMoveDropAll` | include/conduit/core.hpp:80-113 | making, moving, viewing and dropping all three pointers leaves the pool's free list as it was: one free, not two and not none |
| `Ownership.StepConserves` | include/conduit/core.hpp:82-120 | no operation of any thread makes a second copy of a cell, and only dropping a bare pointer loses one |
| `Ownership.EveryCellInOnePlace` | include/conduit/core.hpp:164-231 | in every run each cell is in exactly one place, the free list, one owning pointer or one ring slot, or was dropped once as a bare pointer |
| `Ownership.OnePlaceIffNothingDropped` | include/conduit/core.hpp:115-231 | every cell is in exactly one place if and only if no pointer was released and then pushed to a full track |
| `Ownership.PushReleasedSafeIffRoom` | tests/test_conduit.cpp:20 | releasing before the push conserves all cells if and only if the track has room or the pointer was null |
| `Ownership.ResetSafeIffNotLent` | include/conduit/core.hpp:379-381 | resetting a pointer keeps the account right if and only if its cell is not published and unreleased: why a successful push must be followed by a release |
| `Ownership.DropReturnsCell` | include/conduit/core.hpp:373-387 | when no track has room every push of the scan leaves the event with its owner and changes nothing, and the owner's reset makes its cell the first free one |
| `Ownership.NullPopTakesNoCell` | include/conduit/core.hpp:222-231 | a pop gives an empty pointer if and only if the track is empty or a null pointer is in front, and then no cell leaves the track |
| `Ownership.MakeAndResetDo` | include/conduit/core.hpp:109-181 | `make` moves the first free cell into its handle, null when there is none; `reset` moves what the handle owns to the front of the free list; nothing else changes |
| `Ownership.MoveDoes` | include/conduit/core.hpp:88-98 | a move carries what the source held, empties the source and frees what the target owned; onto itself it does nothing |
| `Ownership.PushDoes` | include/conduit/core.hpp:209-220 | a push with room appends what the handle names, null too, and a release then empties the handle; without room nothing changes |
| `Ownership.PushReleasedDoes` | tests/test_conduit.cpp:20 | releasing first empties the handle either way; what it named is appended if there is room and lost if there is not |
| `Ownership.PopDoes` | include/conduit/core.hpp:222-231 | a pop moves the front of its track into its handle |
| `Ownership.RoundTrip` | include/conduit/core.hpp:82-231 | a cell made, pushed, released, popped into any handle and reset there is back where it was, and so is everything else |
| `Dispatch.OrderPutsBasesFirst` | include/conduit/core.hpp:273-277 | the flattened order ends with the type itself and puts every type after all its bases |
| `Dispatch.TraverseFollowsOrder` | include/conduit/core.hpp:269-295 | the recursion over base types makes the calls of the flattened order one by one, for every handler, tree and history |
| `Dispatch.DispatchFollowsPlan` | include/conduit/core.hpp:249-267 | the whole dispatch carries out the flat list of calls; in which order that list is, is said by `DispatchOrder.CallsInOrder` |
| `Dispatch.DispatchStopsAtFirst` | include/conduit/core.hpp:249-310 | after any history the calls made are exactly the flat list up to and including the first call that answers false or empties its pointer, and that call alone decides where the event is; an empty pointer is dispatched to nobody |
| `Dispatch.CutIsUnique` | include/conduit/core.hpp:249-310 | there is only one such place to stop |
| `DispatchOrder.PathsFollowOrder` | include/conduit/core.hpp:273-277 | the flattened order visits the places of the tree of bases, each path once, below before above and left before right |
| `DispatchOrder.EveryPathListed` | include/conduit/core.hpp:273-277 | and leaves no place of the tree out |
| `DispatchOrder.CallsFollowPlaces` | include/conduit/core.hpp:249-310 | the calls a dispatch makes, each at a place with an overload, ascend in the order of handlers and then of places; nobody is skipped unless the last call ended the dispatch and they come after it |
| `DispatchOrder.CallsInOrder` | include/conduit/core.hpp:249-310 | the same in plain words: an earlier handler is called first; for one handler what lies below a type before it, and the left branch before the right; every call but the last keeps the pointer and does not answer false; if anybody is skipped, the last call emptied the pointer or answered false |
| `DispatchOrder.TwoHandlersTwoBases` | include/conduit/core.hpp:249-295 | two handlers and an event with two bases: the six calls, in order |
| `Dispatch.WhereTheEventEndsUp` | include/conduit/core.hpp:258-290 | said of the plan alone: lost if and only if a call that is reached resets or moves a base view, a bare pointer in a handler's hands if and only if one releases, in a handler's own pointer if and only if one moves the owner |
| `Dispatch.AccountedForIffNoViewEmptied` | include/conduit/core.hpp:258-290 | a dispatched temporary is back in its pool or owned by a handler if and only if every call that is reached and empties its pointer does so on the owner, by reset or move |
| `Dispatch.ResetInBaseHandlerLosesEvent` | include/conduit/core.hpp:284-290 | one handler that resets what it gets, with an overload for the base type only: the event is lost |
| `HttpGrammar.WrittenIffRendered` | include/conduit/transport/http.hpp:58-232 | a buffer is the text of a message if and only if each part stands at its offset |
| `HttpGrammar.ValueIsMaximalTrim` | include/conduit/transport/http.hpp:143-159 | a value leaves out only blanks and one final CR of its line, and neither begins nor ends with a blank |
| `HttpSpec.MessageParsed` | include/conduit/transport/http.hpp:53-233 | completeness: the text of every grammatical message is accepted, with views exactly on its parts |
| `HttpSpec.ParsedIsWritten` | include/conduit/transport/http.hpp:53-233 | every accepted buffer is a grammatical message part by part, and the views cover the parts where they stand |
| `HttpSpec.ParsedIsMessage` | include/conduit/transport/http.hpp:53-233 | soundness: every accepted buffer is the text of a grammatical message |
| `HttpParser.EqualsIgnoringCase` | include/conduit/transport/http.hpp:172-181 | true exactly for equal length and equal bytes up to the case of ASCII letters |
| `HttpParser.ContainsWord` | include/conduit/transport/http.hpp:183-189 | true exactly when the non-empty word occurs somewhere, up to case |
| `HttpParser.Trim` | include/conduit/transport/http.hpp:143-159 | the trimming loops compute the value's view |
| `HttpParser.HasLineEnd` | include/conduit/transport/http.hpp:161-166 | finds a CR or LF if there is one |
| `HttpParser.AllVisible` | include/conduit/transport/http.hpp:125-130 | true exactly when every byte is visible ASCII |
| `HttpParser.CheckKey` | include/conduit/transport/http.hpp:109-130 | accepts exactly keys of 1 to 64 visible bytes, within 16 headers and not the refused pair of neighbours |
| `HttpParser.CheckValue` | include/conduit/transport/http.hpp:161-193 | accepts exactly values without CR that do not announce a chunked body |
| `HttpParser.TakeBody` | include/conduit/transport/http.hpp:203-219 | the body without leading line ends and without one final NUL |
| `HttpParser.RequestTokenEnds` | include/conduit/transport/http.hpp:63-93 | at the end of a request-line part either the whole buffer is rejected by the specification or the next state determines the result |
| `HttpParser.KeyTokenEnds` | include/conduit/transport/http.hpp:95-139 | the same at a colon or a line end: header, empty line or rejection |
| `HttpParser.ValueTokenEnds` | include/conduit/transport/http.hpp:141-201 | the same at the end of a header line |
| `HttpParser.Consume` | include/conduit/transport/http.hpp:61-201 | one byte before the body, whatever the state: either the whole buffer is rejected by the specification or the next state determines the result |
| `HttpParser.OutOfBytes` | include/conduit/transport/http.hpp:226-232 | running out of bytes is a rejection in every state but the one before the body |
| `HttpParser.ParseLoop` | include/conduit/transport/http.hpp:58-232 | the loop ends with exactly the result its first state determines |
| `HttpParser.ParseRequest` | include/conduit/transport/http.hpp:53-233 | the one-pass state machine accepts exactly what the specification accepts and returns the same views |
| `HttpRoundTrip.AcceptedIffGrammatical` | include/conduit/transport/http.hpp:53-233 | the accepted buffers are exactly the texts of grammatical messages |
| `HttpRoundTrip.ParsedReadsAsMessage` | include/conduit/transport/http.hpp:53-233 | the views read as the message's method, URI, keys, trimmed values and body |
| `HttpRoundTrip.ViewsInOrder` | include/conduit/transport/http.hpp:58-219 | for every accepted buffer all views lie inside it, in order and without overlap |
| `HttpRoundTrip.RoundTrip` | include/conduit/transport/http.hpp:53-233 | printing a request with CR LF line ends and parsing it returns the same method, URI, headers and body |
| `HttpRoundTrip.RoundTripIffPrintable` | include/conduit/transport/http.hpp:53-233 | the round trip returns the request if and only if its parts are acceptable, its values trimmed and its body neither starts with a line end nor ends in NUL |
| `HttpBytes.RenderInBytes` | include/conduit/transport/http.hpp:58-93 | the text of a message is its parts with the bytes 32, 32 and 10 between them |
| `HttpBytes.FieldsInBytes` | include/conduit/transport/http.hpp:95-201 | a further header line stands behind the others as key, 58, value, 10 |
| `HttpBytes.ValueInBytes` | include/conduit/transport/http.hpp:143-159 | a value leaves out one final 13 and then 32s and 9s at both ends, and nothing else |
| `HttpBytes.BodyInBytes` | include/conduit/transport/http.hpp:203-219 | the body leaves out leading 13s and 10s and one final 0, and nothing else |
| `HttpBytes.LowerInBytes` | include/conduit/transport/http.hpp:172-181 | two bytes are the same letter if and only if they are equal or one is in 65..90 and the other 32 above it |
| `HttpBytes.CasingIsEquality` | include/conduit/transport/http.hpp:172-181 | the comparison without case holds exactly for texts of equal length that agree letter by letter in that sense |
| `HttpBytes.MentionsIsContains` | include/conduit/transport/http.hpp:183-189 | the search without case finds a word exactly if some casing of it stands somewhere |
| `HttpBytes.FormedOneWay` | include/conduit/transport/http.hpp:53-233 | a text can be taken apart in one way only, as far as keys and values go |
| `HttpBytes.RulesDecide` | include/conduit/transport/http.hpp:95-201 | whatever the rules on headers, the text of a formed message is accepted if and only if its header lines obey them |
| `HttpBytes.AcceptedInBytes` | include/conduit/transport/http.hpp:53-233 | with this parser's rules in byte values: accepted if and only if there are at most 16 header lines, each with a key of 1 to 64 bytes in 33..126 and a value without 13, none announces a chunked transfer encoding in any casing, and no `injected` follows a `Host` |
| `HttpBytes.ChunkedIsRejected` | include/conduit/transport/http.hpp:191-193 | no casing of a chunked transfer encoding gets through, however the rest looks |

## Left out

- Weak memory orders: all interleavings are sequentially consistent, so the acquire and release annotations are taken as sufficient and not judged.
- Object lifetime, alignment and padding: construction and destruction only overwrite a cell's link, and the index that `slab_allocator` reads after the destructor call is assumed to survive it.
- `slab_allocator` as a class of its own: its protocol is `TaggedStack` restricted to runs in which no owner overwrites a link; its throwing constructor for capacity zero is not modelled.
- `pinned_slab_allocator`: its head has no tag, so the invariant does not carry over, and the rest is page locking.
- Counter width: the transmit counters and the wheel's clock are unbounded; the source's comparison of tail and head is not safe across a 64-bit wrap.
- Sockets: `send` and `recv` are scripts of outcomes; a `send` that returns zero counts as an error, and a script that has run out answers that the call would block.
- NetRuns.DeliveredInOrderAtMostOnce: runs bind a conduit only while it is dead, by any thread, and the receiver takes connections in the order the sender opened them; what a bind while alive does is in `NetBinds`.
- NetWindows.OverBindSoundIff: speaks of the continuations in which the receiver is still on that connection; after misaligned frames that happened to look right, a later rebind is not judged.
- The type id is four bytes of fixed value, so byte order is not a question; padding keeps whatever the slot held.
- Several pools: `Ownership` follows the cells of one pool, and every pop names that pool.
- Base views in `Ownership`: handles there own or do not; what emptying a base view does is in `Dispatch`.
- Handlers that assign: a handler may move another event into the pointer it is given (include/conduit/core.hpp:88-98), for instance take the event and put a new one in its place; `Dispatch` has no such effect.
- Handlers: code behind `on` is a function of the calls made so far; what a handler does with a bare pointer it has released is its own affair; exceptions and re-entrant dispatch are not modelled, nor are ambiguous base conversions, which do not compile.
- Template parameters are run-time values: ring sizes, frame sizes and type trees are arguments, with the compile-time checks as preconditions.
- Pool capacity: it is a run-time argument of the source (include/conduit/core.hpp:152) that nothing checks; that it is at least 1 and at most 0xFFFFFFFF, so that every index differs from the sentinel, is an assumption of `Pool`, `TaggedStack` and the runs.
- WheelObject.TimingWheel.Cancel: requires that the node has not fired since it was scheduled; `WheelRuns.CancelFiredIff` says what happens otherwise.
- HttpParser.ParseRequest: the event starts fresh, since `parse` does not reset the header count; what a rejected parse leaves in the event is not modelled, and the fixed header array is a sequence of at most 16.
- HTTP conformance: the grammar is what this parser accepts, which is wider than section 3.2.6 of RFC 7230 for keys and adds local rules for the body.
- Loops and loop bodies of `poll_tx`, `poll_rx`, `schedule`, the switch, the poller and the parser are methods of their own, which take the abstract values they speak of as ghost arguments.
- Scans.PollPicksFirstEvent: requires that no track is bound to two indices, because the second look at such a track may find an event behind a null pointer that the first look dropped; `PollTakesOnlyItsEvent` has no such condition.
- RoundRobin.Switch.BindTrack: requires that distinct tracks have distinct buffers, which the source has by construction because each ring holds its array inside.
- NetworkedConduit.Conduit.Push: requires that the conduit's buffers and the event's pool are different objects, which the source has by their types; the bytes of the event's cell are a parameter.
- `networked_conduit` methods run one at a time in the class; the interleaving of `push` with `poll_tx` is the step machine in `NetSystem`.
- `tcp_sender_node`, `node_runtime`, `http_gateway`, `durable_source`, `clock_node`, logging and telemetry: socket, file, clock and thread plumbing.
- `mesh_router`, `deterministic_saga`, `cluster`, `bind_route`, `bound_sink`, `trivial_serializer`, `runtime_domain`: one-branch lookups, empty stubs or wrappers.
- Latency and throughput claims.
