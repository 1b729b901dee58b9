# AdsLib and Modbus: a verified model

The lift controller talks to its PLC through the ADS library, the door controller to its doors through a Modbus/TCP
client. This project models the parts of both that are hard to get right and proves what they promise, for all inputs,
all states and all interleavings. `dafny verify dfyconfig.toml` checks everything.

| file | what it models |
|---|---|
| `SlotProtocol.dfy` | one slot per port, shared by requester threads and the receiver thread: a state machine with one event per atomic access |
| `Streams.dfy` | a TCP stream under a schedule that says what every read meets: bytes, the end of a deadline, a hang-up |
| `Receiver.dfy` | the receiver thread's code: it cuts such a stream into frames, and serves slots and rings |
| `RingBuffer.dfy` | the circular buffer, as a queue of bytes |
| `Notifications.dfy` | the notification format and the dispatcher that parses it out of the ring, with a registry that may change between look-ups |
| `Pipeline.dfy` | receiver and parsing dispatcher on one ring, in every interleaving of stores, publications, reads and decisions |
| `Frames.dfy`, `AdsRequests.dfy` | the prepend buffer, and every ADS request from its fields to the bytes on the wire and back |
| `UdpRoutes.dfy` | adding a route on a remote device: the tagged request and the reading of the reply |
| `Routes.dfy` | the router's routes over shared, counted connections |
| `NotificationRegistry.dfy` | ports, dispatchers and the two registries of notifications that have to agree |
| `Modbus.dfy` | Modbus/TCP requests, coil and register packing, and the decoding of replies |
| `Bytes.dfy`, `AdsConstants.dfy` | bytes and little-endian numbers; shared constants |

The classes have the code's own fields and loops, and each of their methods is tied to a function of values, about which
the lemmas speak. The two concurrent parts are state machines: every atomic access is an event, a sequence of events is
an interleaving, and what is proved holds after every sequence. A slot protocol run is *fair* when it keeps to what the
protocol relies on: a header that meets its id in its slot echoes a frame that the server got whole, fewer than 2^32
fetches away from that id, and a result is not the waiting code. All other headers may come at any time. What happens
without each of these is proved too, with a run that shows it. Where a lemma says *every run*, nothing is assumed.

Where the code does not do what one would expect, the model does what the code does, and says exactly when it is right:

* A reply with id 0 claims an idle slot, and the id that a failed send leaves in its slot can be claimed
  (`SlotProtocol.ForeignReplyHarmlessIff`; runs: `SlotProtocol.ZeroIdClaimsFreeSlot`,
  `SlotProtocol.FailedSendIdClaimed`). An error in a reply with id 0 stays in the idle slot, and the next call returns
  with it before its own reply is dealt with (run: `SlotProtocol.StaleResultReturnsEarly`).
* A result code of 0xFFFFFFFF leaves its caller waiting until a header with the id 0 comes for its slot
  (`SlotProtocol.WakesIffRealResult`, `SlotProtocol.StuckForever`, `SlotProtocol.RescuedByZeroId`; run:
  `SlotProtocol.WaitingCodeSticks`).
* The 2^32 window has to cover a stalled requester as well as an outstanding reply (`SlotProtocol.OwnReplyIffRecent`;
  run: `SlotProtocol.OldReplyAnswersNewCall`).
* A deadline that passes in the middle of a part makes the receiver skip the bytes it already has a second time, so that
  it loses the frames (`Receiver.FramedIff`, `Receiver.InStepUntilLate`; run: `Receiver.LateByThree`).
* A reply shorter than its response header passes the size check. The second receive then asks for almost 2^64 bytes: it
  overruns the caller's buffer, or, when its deadline passes first, the receiver skips the stream for good
  (`Receiver.SecondReceiveFitsIff`, `Receiver.OverrunIff`, `Receiver.OverrunPossibleIff`,
  `Receiver.ShortReplyEndsStream`; run: `Receiver.EmptyReplyOverruns`).
* A hang-up in the middle of a reply ends the receiver thread without a result, and the caller waits for ever
  (`SlotProtocol.NoLostWakeUp`, `SlotProtocol.HangUpLosesCaller`, `Receiver.NoResultEndsReceiver`; run:
  `SlotProtocol.HangUpMidReply`).
* Two AmsNetIds on one connection leak a route and a connection (`Routes.DelRouteUnmapsIff`; run: `Routes.AliasesLeak`),
  and a host with several addresses can strand one (`Routes.ChoiceStrandsIff`; run: `Routes.MovedRouteStrands`).
* A notification frame whose samples run past its stored length puts its dispatcher out of step
  (`Notifications.InStepIffInsideFrame`).
* A notification handle that the server gives out twice keeps its first callback
  (`NotificationRegistry.AmsRouter.AddNotification`).
* The Modbus length byte, the allocation and the receive buffer each have their own bound on the amount
  (`Modbus.MultipleWriteParsesIff`, `Modbus.AllocationExactIff`, `Modbus.DecodingInBoundsIff`).
* `Frame::pop` is documented to return a default value when the frame is too short (`Frame.h:63-67`), but it compares
  with the capacity and not with the size (`Frames.ShortPopIsDefaultIff`). The model follows the code.

## Model

| member | source | states |
|---|---|---|
| `SlotProtocol.InvRun` | lift_controller/lib/ADS/AdsLib/standalone/AmsConnection.cpp:21-35 | every fair interleaving of any number of requesters, the receiver, the server and the clock keeps the protocol invariant: who owns each slot, whose id it shows, what the receiver is allowed to use, and what each call has been through |
| `SlotProtocol.InvStep` | lift_controller/lib/ADS/AdsLib/standalone/AmsConnection.cpp:119-190 | each single atomic access in a fair run (fetch, reserve, store id, send, wake, exchange, release, compare-and-swap, load, store to the buffer, announce, end of the receiver) keeps that invariant |
| `SlotProtocol.OneTaker` | lift_controller/lib/ADS/AdsLib/standalone/AmsConnection.cpp:27-34 | a published id is taken by the waiter or by the receiver, never by both; a call whose frame went out returns only after exactly one of them took it |
| `SlotProtocol.ReceiverUsesLiveRequest` | lift_controller/lib/ADS/AdsLib/standalone/AmsConnection.cpp:224-258 | while the receiver works on a claimed slot, the request it uses belongs to the call the reply answers, which is still inside AdsRequest and has not been given a result |
| `SlotProtocol.OwnReplyOnly` | lift_controller/lib/ADS/AdsLib/standalone/AmsConnection.cpp:133-149 | in every fair run: a received result comes from one announcement for a reply to the very frame of this call, and only such replies reach its buffer; a call that timed out got 0x745 and nothing else; a failed call returns -1 untouched |
| `SlotProtocol.NoEarlyTimeout` | lift_controller/lib/ADS/AdsLib/standalone/AmsConnection.cpp:133-149 | counted in events, in every run: a call that takes its own id back, and so times out, does so only when at least as many ticks lie between its start and that exchange as its timeout says |
| `SlotProtocol.WakesIffTimeIsUp` | lift_controller/lib/ADS/AdsLib/standalone/AmsConnection.cpp:21-25 | in every run, a waiting call can wake iff its slot shows no id any more or that many ticks have passed since its start |
| `SlotProtocol.WakesWhenAnswered` | lift_controller/lib/ADS/AdsLib/standalone/AmsConnection.cpp:21-25 | in every fair run, a waiting call can wake iff the receiver has taken its id or that many ticks have passed |
| `SlotProtocol.ReservesIffFree` | lift_controller/lib/ADS/AdsLib/standalone/AmsConnection.cpp:176-184 | a call gets its slot iff no other call of that port is between its own reservation and the end of its release; otherwise it returns -1 |
| `SlotProtocol.ClaimsIffFirst` | lift_controller/lib/ADS/AdsLib/standalone/AmsConnection.cpp:160-174 | the header of a reply claims the slot, for the call it echoes, iff nobody has taken the id of that call before |
| `SlotProtocol.DeliveredToOwner` | lift_controller/lib/ADS/AdsLib/standalone/AmsConnection.cpp:244-252 | counted in events, in every fair run: a call's buffer got as many stores as followed a header of a reply to it, and its results are the ones announced after such a header |
| `SlotProtocol.ReturnsItsResult` | lift_controller/lib/ADS/AdsLib/standalone/AmsConnection.cpp:133-149 | by the events of a fair run: a finished call returns the one result announced after a header of a reply to it, else 0x745 if its frame went out, else -1 |
| `SlotProtocol.HeldUpIff` | lift_controller/lib/ADS/AdsLib/standalone/AmsConnection.cpp:14-35 | in every fair run: a call that has not returned can take its next step, unless it waits for an answer within its time, or its id is taken and the receiver is at its reply or died over it |
| `SlotProtocol.ReceiverStage` | lift_controller/lib/ADS/AdsLib/standalone/AmsConnection.cpp:305-350 | in every run the receiver takes up each header that comes, keeps its slot until the result is announced, is then ready for the next header, and ends only with the connection |
| `SlotProtocol.ReceiverGoesOn` | lift_controller/lib/ADS/AdsLib/standalone/AmsConnection.cpp:224-258 | in every fair run, the receiver can always go on with a reply it has begun, and announce a result as soon as it has claimed the slot |
| `SlotProtocol.AnythingMayCome` | lift_controller/lib/ADS/AdsLib/standalone/AmsConnection.cpp:296-350 | the model restricts neither calls, failing sends, hang-ups and time, nor which headers come |
| `SlotProtocol.LateReplyIgnored` | lift_controller/lib/ADS/AdsLib/standalone/AmsConnection.cpp:160-174 | a reply to a call that gave up, or a second reply, claims nothing and changes no slot and no call |
| `SlotProtocol.NoLostWakeUp` | lift_controller/lib/ADS/AdsLib/standalone/AmsConnection.cpp:14-35 | a caller whose id was taken by the receiver can read its result, iff the receiver is not at that moment working on exactly its reply and its thread did not end while it did |
| `SlotProtocol.HangUpLosesCaller` | lift_controller/lib/ADS/AdsLib/standalone/AmsConnection.cpp:244-257 | a hang-up in the middle of a reply ends the receiver without a result: in every run from there, whatever anyone does, the caller that was being served never returns |
| `SlotProtocol.HangUpMidReply` | lift_controller/lib/ADS/AdsLib/standalone/AmsConnection.cpp:296-303 | a run from the start with a server that only echoes, at the end of which the connection is lost and the caller left alone for ever |
| `SlotProtocol.ClaimIsOwn` | lift_controller/lib/ADS/AdsLib/standalone/AmsConnection.cpp:151-174 | ids repeat after 2^32 fetches, yet a successful claim always takes the id of the call that the reply echoes, as long as fewer than 2^32 fetches lie between the two |
| `SlotProtocol.OwnReplyIffRecent` | lift_controller/lib/ADS/AdsLib/standalone/AmsConnection.cpp:151-158 | in a state that a fair run reached, and without the bound for the next step: an echo that meets its id in its slot answers the slot's own call iff fewer than 2^32 fetches lie between the two ids |
| `SlotProtocol.OldReplyAnswersNewCall` | lift_controller/lib/ADS/AdsLib/standalone/AmsConnection.cpp:151-174 | a run from the start, with a server that only echoes, in which a call gives up, 2^32 numbers later a new call gets its id, and the old reply answers the new call |
| `SlotProtocol.ZeroIdClaimsFreeSlot` | lift_controller/lib/ADS/AdsLib/standalone/AmsConnection.cpp:160-171 | a run in which a reply with id 0 claims an idle slot and leaves the receiver with a null request |
| `SlotProtocol.StaleResultReturnsEarly` | lift_controller/lib/ADS/AdsLib/standalone/AmsConnection.cpp:231-235 | a run from the start in which a reply with id 0 and an error leaves that error in a free slot; the next call returns with it while the receiver still has its request and is about to store to its buffer |
| `SlotProtocol.FailedSendIdClaimed` | lift_controller/lib/ADS/AdsLib/standalone/AmsConnection.cpp:119-131 | a run from the start, without the id 0, in which a header with the id that a failed send left in its slot claims the slot and finds its request gone |
| `SlotProtocol.ForeignReplyHarmlessIff` | lift_controller/lib/ADS/AdsLib/standalone/AmsConnection.cpp:119-131 | a header that echoes no call is ignored, or meets a call that waits, iff the slot shows another id or an id whose frame went out; id 0 and the id left by a failed send are the bad cases |
| `SlotProtocol.WakesIffRealResult` | lift_controller/lib/ADS/AdsLib/standalone/AmsConnection.cpp:32-34 | announcing a result lets the waiting caller return iff the result is not the waiting code 0xFFFFFFFF; with that code the caller is stuck |
| `SlotProtocol.WaitingCodeSticks` | lift_controller/lib/ADS/AdsLib/standalone/AmsConnection.cpp:14-19 | a run from the start with a server that only echoes, in which the result is the waiting code and the caller is stuck |
| `SlotProtocol.StuckForever` | lift_controller/lib/ADS/AdsLib/standalone/AmsConnection.cpp:32-34 | a stuck caller never returns, whatever anyone does afterwards and whatever headers come, except a header with the id 0 for its own slot |
| `SlotProtocol.RescuedByZeroId` | lift_controller/lib/ADS/AdsLib/standalone/AmsConnection.cpp:160-174 | that exception is the way out: such a header claims the slot, and the result announced for it lets the caller return |
| `Streams.MidPartIff` | lift_controller/lib/ADS/AdsLib/standalone/AmsConnection.cpp:202-213 | a read with a deadline ends half way iff the schedule lets the deadline pass after some, but not all, of the bytes have come |
| `Receiver.SlipsIff` | lift_controller/lib/ADS/AdsLib/standalone/AmsConnection.cpp:244-257 | the guarded part of a reply leaves more to skip than its frame still has iff the schedule interrupts the response header or the payload behind a complete one, or the reply is shorter than a response header that came |
| `Receiver.FramedIff` | lift_controller/lib/ADS/AdsLib/standalone/AmsConnection.cpp:305-349 | a pass over a frame whose lengths agree ends at the end of the frame, never before it, and exactly there iff the frame is not an error-free reply that fits, for a waiting caller, and interrupted by its deadline within a part or shorter than a response header that came; frame, schedule and claim are known before the pass |
| `Receiver.LateByThree` | lift_controller/lib/ADS/AdsLib/standalone/AmsConnection.cpp:244-257 | it happens: any write reply of four bytes, three of them read when the deadline passes, makes the next pass start three bytes late |
| `Receiver.HeaderAt` | lift_controller/lib/ADS/AdsLib/AmsHeader.h:18-38 | for every stream: the fields of the next header, counted from the start of the frame, and when there is none |
| `Receiver.ReplyFrameIsWhole` | lift_controller/lib/ADS/AdsLib/AmsHeader.h:110-217 | every reply a device sends is such a frame, its payload is what follows the headers, and each field, the address of the device included, is where the receiver looks for it |
| `Receiver.NextFrameIff` | lift_controller/lib/ADS/AdsLib/standalone/AmsConnection.cpp:312-349 | after a pass that started at a frame, the next pass starts at the next frame iff that frame was not cut short |
| `Receiver.InStepUntilLate` | lift_controller/lib/ADS/AdsLib/standalone/AmsConnection.cpp:305-351 | over any stream of such frames, whatever the schedule and whatever the slots show, pass k starts exactly at frame k as long as no frame before was cut short, and the first one that is throws the receiver out of step |
| `Receiver.SecondReceiveFitsIff` | lift_controller/lib/ADS/AdsLib/standalone/AmsConnection.cpp:237-248 | in size_t arithmetic: for an error-free reply that passes the size check, the second receive asks for no more than the caller's buffer holds iff the reply is as long as its response header |
| `Receiver.OverrunIff` | lift_controller/lib/ADS/AdsLib/standalone/AmsConnection.cpp:237-248 | the guarded part stores behind the caller's buffer iff the reply is shorter than its response header, and the schedule brings a whole response header and then more bytes than the buffer holds, without a deadline before, from a stream that has them |
| `Receiver.OverrunPossibleIff` | lift_controller/lib/ADS/AdsLib/standalone/AmsConnection.cpp:237-248 | said about the reply alone: on a stream that goes on, some schedule overruns the buffer iff the reply is shorter than its response header |
| `Receiver.EmptyReplyOverruns` | lift_controller/lib/ADS/AdsLib/standalone/AmsConnection.cpp:237-248 | an empty reply passes the check for every buffer size, and a response header and one byte more than the buffer holds overrun it |
| `Receiver.ShortReplyEndsStream` | lift_controller/lib/ADS/AdsLib/standalone/AmsConnection.cpp:246-257 | after a reply that is shorter than a response header that came, no pass ends at a frame again, on any stream of fewer than 2^64 bytes and under every schedule |
| `Receiver.NoResultEndsReceiver` | lift_controller/lib/ADS/AdsLib/standalone/AmsConnection.cpp:244-257 | an owner that waits is told nothing only if the pass over its reply does not end: a hang-up, or the end of the model |
| `Streams.EndsInTimeIff` | lift_controller/lib/ADS/AdsLib/standalone/AmsConnection.cpp:202-212 | for bytes that the stream has: a read with a deadline gets all of them iff the schedule brings them before the deadline, and expires iff the deadline passes first |
| `Receiver.ReplyDelivered` | lift_controller/lib/ADS/AdsLib/standalone/AmsConnection.cpp:237-257 | for the literal command ids: an error-free reply whose data fit, commands 2 and 9 with a result and a length in front of the data, 1 and 3 to 7 with a result only; if all of it comes in time its owner is told the result once, has the data at the front of its buffer and nothing else changed, and the count; if the deadline passes before, it is told 0x745 and no count |
| `Receiver.ReplyRefused` | lift_controller/lib/ADS/AdsLib/standalone/AmsConnection.cpp:231-242 | the other replies, to an owner that waits or to a slot without a request: 0x754 for an unknown command, then the error of the reply, then 0x705 for one that does not fit, told once, with buffer and count unchanged |
| `Receiver.NotificationArrives` | lift_controller/lib/ADS/AdsLib/standalone/AmsConnection.cpp:260-294 | a command 8 frame of a device brings its payload, behind its length, and one count to the dispatcher for its port and the device's address iff both and one more byte are free there; every other dispatcher, and every dispatcher for any other command, is left as it is |
| `Receiver.StreamDelivers` | lift_controller/lib/ADS/AdsLib/standalone/AmsConnection.cpp:305-321 | over any stream of whole frames, up to the first that is cut short, each dispatcher has what the notifications among them brought it, in order, and nothing else |
| `Streams.BringsInTimeIff` | lift_controller/lib/ADS/AdsLib/standalone/AmsConnection.cpp:192-212 | a read with a deadline gets at least m of n bytes iff the stream has them and the schedule brings them before anything else |
| `Receiver.AmsConnection.Receive` | lift_controller/lib/ADS/AdsLib/standalone/AmsConnection.cpp:192-200 | for every schedule of short reads, failures and deadlines: status and rest of the schedule are those of the reading, the bytes at the destination are exactly those taken off the stream as far as there is room, and nothing else in the buffer changes |
| `Receiver.AmsConnection.ReceiveJunk` | lift_controller/lib/ADS/AdsLib/standalone/AmsConnection.cpp:215-223 | skips the announced bytes a kilobyte at a time, and leaves the stream behind what it got |
| `Receiver.AmsConnection.ReceiveReply` | lift_controller/lib/ADS/AdsLib/standalone/AmsConnection.cpp:244-257 | the guarded part of any reply that passed the size check, short ones included: payload and count reach the caller iff both receives end in time; after a deadline, what it reports as left is the code's own count, in size_t arithmetic |
| `Receiver.AmsConnection.ReceiveFrame` | lift_controller/lib/ADS/AdsLib/standalone/AmsConnection.cpp:224-258 | for every slot, header, stream and schedule: which result the claimed slot gets, exactly one unless the connection or the model ends first, the payload bytes and the length that reach the caller, that nothing behind the payload changes, and where the stream is left; without a request, error replies are announced and skipped |
| `Receiver.AmsConnection.GetPending` | lift_controller/lib/ADS/AdsLib/standalone/AmsConnection.cpp:160-174 | a reply claims the slot of its port iff that slot shows its id, for every 16-bit port number; no other slot changes |
| `Receiver.AmsConnection.ReceiveResponse` | lift_controller/lib/ADS/AdsLib/standalone/AmsConnection.cpp:323-349 | every frame that is not a notification, whatever its command id: the slot it claims is answered as its header, stream and schedule say; no other slot, request or buffer changes, and none at all without a claim. What the answer is, is said by ReplyDelivered and ReplyRefused |
| `Receiver.AmsConnection.Dispatch` | lift_controller/lib/ADS/AdsLib/standalone/AmsConnection.cpp:260-294 | after a notification that ends, the dispatcher of its target port and source address has gained the length and the payload and one count iff there was room, and all others are as before; without such a dispatcher all are, and the frame is skipped |
| `Receiver.AmsConnection.ReceiveNotification` | lift_controller/lib/ADS/AdsLib/standalone/AmsConnection.cpp:260-294 | all or nothing: the ring gains the length word and the whole payload and the semaphore one count, or, if they do not fit, the ring is as before; the stream moves on by the payload in both cases |
| `Receiver.AmsConnection.StorePayload` | lift_controller/lib/ADS/AdsLib/standalone/AmsConnection.cpp:283-291 | the chunk loop ends, never overruns the free space or the end of the array, and appends the payload in order across the wrap-around |
| `Receiver.AmsConnection.StoreLength` | lift_controller/lib/ADS/AdsLib/standalone/AmsConnection.cpp:278-281 | the length is appended as four little-endian bytes |
| `Receiver.AmsConnection.RecvOnce` | lift_controller/lib/ADS/AdsLib/standalone/AmsConnection.cpp:305-350 | one pass for every stream, schedule and state of the slots: it ends where the pass over them ends, answers the slot that the header claims, or brings the notification to its dispatcher, and touches no other slot, request, buffer or ring |
| `Receiver.AmsConnection.Recv` | lift_controller/lib/ADS/AdsLib/standalone/AmsConnection.cpp:305-351 | the passes of the receiver thread follow each other: the first starts at the start of the stream, each other where the one before ended, with the rings as that one left them, and the last one is the one that the end of the connection, or of the model, cut off; over the whole run each slot was told exactly the results of the replies that claimed it, in order; a connection without a local address makes none |
| `RingBuffers.FreeBytes` | lift_controller/lib/ADS/AdsLib/RingBuffer.h:20-23 | free space never reaches the array size, is size - 1 exactly when both positions meet, and the cell behind it is the read position |
| `RingBuffers.AvailableBytes` | lift_controller/lib/ADS/AdsLib/RingBuffer.h:25-28 | free and available bytes add up to the capacity, and the available ones lead from the read to the write position |
| `RingBuffers.ContiguousFree` | lift_controller/lib/ADS/AdsLib/RingBuffer.h:30-33 | the chunk is the free space cut off at the end of the array, and is positive exactly when there is free space |
| `RingBuffers.RingBuffer.Write` | lift_controller/lib/ADS/AdsLib/RingBuffer.h:35-39 | publishing n bytes appends them to the byte queue that the ring stands for |
| `RingBuffers.RingBuffer.Read` | lift_controller/lib/ADS/AdsLib/RingBuffer.h:51-55 | skipping n bytes drops the n oldest |
| `RingBuffers.RingBuffer.ReadFromLittleEndian` | lift_controller/lib/ADS/AdsLib/RingBuffer.h:41-49 | takes the oldest bytes and returns the number they encode, for every width |
| `RingBuffers.WindowSplit` | lift_controller/lib/ADS/AdsLib/RingBuffer.h:57-64 | a run of cells that wraps around the end of the array is the concatenation of its parts |
| `RingBuffers.StoreBehindHeld` | lift_controller/lib/ADS/AdsLib/RingBuffer.h:30-39 | stores into the current chunk change nothing that is held |
| `Bytes.FromLEofLE` | lift_controller/lib/ADS/AdsLib/RingBuffer.h:41-49 | the little-endian decoding undoes the byte-by-byte store of a length |
| `Bytes.FromLESnoc` | lift_controller/lib/ADS/AdsLib/RingBuffer.h:44-47 | adding a byte shifted by 8i to the digits below it carries into nothing |
| `Notifications.EncodedFrameIsVisited` | lift_controller/lib/ADS/AdsLib/standalone/NotificationDispatcher.cpp:60-87 | every well-formed frame is parsed inside its own bytes, whatever handles are registered at each look-up; it calls back exactly the registered samples before the first size mismatch, in order, with their own bytes and time |
| `Notifications.NotificationDispatcher.RunOnce` | lift_controller/lib/ADS/AdsLib/standalone/NotificationDispatcher.cpp:53-89 | one pass over any stored length and any bytes behind it: if the ring holds what the parse needs, exactly its calls are made, and the pass ends at the end of the frame, also after a size mismatch, iff the parse ended inside the stored length and the frame is all there; otherwise an assertion of the ring fails |
| `Notifications.NotificationDispatcher.RunSamples` | lift_controller/lib/ADS/AdsLib/standalone/NotificationDispatcher.cpp:69-84 | the sample loop follows the parse: position, calls, remaining length and the exit at a mismatch |
| `Notifications.NotificationDispatcher.NotifySample` | lift_controller/lib/ADS/AdsLib/AdsNotification.h:33-42 | a callback gets its own registration, the time of the stamp and the next bytes of the ring, which are consumed |
| `Notifications.DueSplit` | lift_controller/lib/ADS/AdsLib/standalone/NotificationDispatcher.cpp:65-85 | a mismatch ends the whole frame and not only its stamp; without one, the calls of consecutive runs of samples follow each other |
| `Notifications.DueAt` | lift_controller/lib/ADS/AdsLib/standalone/NotificationDispatcher.cpp:69-84 | by position: sample i, with no mismatch before it, makes no call if its handle is not registered at that look-up, ends the frame if its size is another, and otherwise is called back with its registration, time and data, between the calls before and behind it |
| `Notifications.SampleLayout` | lift_controller/lib/ADS/AdsLib/standalone/NotificationDispatcher.cpp:69-76 | the bytes of a sample: handle, size, data |
| `Notifications.StampLayout` | lift_controller/lib/ADS/AdsLib/standalone/NotificationDispatcher.cpp:65-68 | the bytes of a stamp: time, number of samples, samples |
| `Notifications.PayloadLayout` | lift_controller/lib/ADS/AdsLib/standalone/NotificationDispatcher.cpp:60-63 | the bytes of a notification: an ignored word, the number of stamps, stamps |
| `Notifications.InStepIffInsideFrame` | lift_controller/lib/ADS/AdsLib/standalone/NotificationDispatcher.cpp:60-87 | for the position at which the parse of the ring ends: with 32-bit subtraction, the closing skip stays inside the ring iff that position is inside the stored length and the frame inside the ring, and then ends at the end of the frame |
| `Pipeline.InvRun` | lift_controller/lib/ADS/AdsLib/standalone/AmsConnection.cpp:269-293 | in every interleaving of the receiver's single stores and publications with a dispatcher that parses the ring piece by piece, the ring holds the unread rest of the current frame, then exactly the frames the semaphore counts, then the published part of at most one frame; and the dispatcher is where the parse of its frame is |
| `Pipeline.DueCalls` | lift_controller/lib/ADS/AdsLib/standalone/NotificationDispatcher.cpp:53-89 | end to end: when what arrives are messages of a device, then in every interleaving a dispatcher that has caught up has made exactly the calls due for the samples of the accepted messages, in order, with a registry that may change at every look-up |
| `Pipeline.CallsOfAllFrames` | lift_controller/lib/ADS/AdsLib/standalone/NotificationDispatcher.cpp:53-89 | for all payloads whose parse stays inside the frame: whenever the dispatcher is between frames, the calls made are those of the parses of all frames it has acquired |
| `Pipeline.EncodedParses` | lift_controller/lib/ADS/AdsLib/standalone/NotificationDispatcher.cpp:60-87 | the payload of every message of a device is such a payload, whatever is registered, and its parse makes the calls due |
| `Pipeline.TakenInOrder` | lift_controller/lib/ADS/AdsLib/Semaphore.h:13-25 | the dispatcher takes the accepted frames whole, in order, once each; when it has caught up, it has taken all of them and the ring is empty |
| `Pipeline.AcceptedIffFits` | lift_controller/lib/ADS/AdsLib/standalone/AmsConnection.cpp:269-275 | in every interleaving, a notification that arrives is accepted iff its frame and one more byte fit beside the bytes accepted before and not yet taken |
| `Pipeline.StoresKeepUnread` | lift_controller/lib/ADS/AdsLib/standalone/AmsConnection.cpp:278-291 | no store of the receiver overwrites an unread byte |
| `Pipeline.ReadsAreWritten` | lift_controller/lib/ADS/AdsLib/standalone/NotificationDispatcher.cpp:56-87 | whatever the dispatcher is about to read, by its own parse, is published |
| `Pipeline.ProducerNeverBlocks` | lift_controller/lib/ADS/AdsLib/standalone/AmsConnection.cpp:283-291 | once a notification is accepted, the receiver can always take its next step; each chunk is as long as what is left and the free cells up to the end of the array allow, and positive before the last byte |
| `Pipeline.ConsumerNeverBlocks` | lift_controller/lib/ADS/AdsLib/standalone/NotificationDispatcher.cpp:53-57 | a frame that the semaphore counts can be acquired by a waiting dispatcher, and a dispatcher with a frame can always go on |
| `Frames.Frame.Prepend` | lift_controller/lib/ADS/AdsLib/Frame.cpp:70-87 | both branches, in place and with a new buffer, put the bytes in front of the old contents and keep the buffer consistent |
| `Frames.Frame.Remove` | lift_controller/lib/ADS/AdsLib/Frame.cpp:94-98 | drops bytes from the front, and everything when there are fewer |
| `Frames.Frame.Limit` | lift_controller/lib/ADS/AdsLib/Frame.cpp:46-51 | the frame becomes the start of the raw buffer and never grows |
| `Frames.Frame.Reset` | lift_controller/lib/ADS/AdsLib/Frame.cpp:53-68 | the frame is empty and has at least the room asked for if there is memory; without memory it keeps its buffer |
| `Frames.Frame.PopLetoh` | lift_controller/lib/ADS/AdsLib/Frame.h:68-85 | takes a number off the front of any frame; when the frame is too short, what it yields is what lies in the buffer, 0 when the capacity is too small as well, and nothing when the code reads behind its buffer |
| `Frames.ShortPopIsDefaultIff` | lift_controller/lib/ADS/AdsLib/Frame.h:63-77 | a frame that is too short for a number yields the documented default, whatever lies behind it, iff the number is wider than the capacity |
| `Frames.UnstackStacked` | lift_controller/lib/ADS/AdsLib/Frame.h:96-127 | any list of headers put in front comes off in reverse order by its sizes, each with its own bytes, and leaves the original contents |
| `AdsRequests.BodyDecodes` | lift_controller/lib/ADS/AdsLib/AmsHeader.h:40-107 | every command header followed by its data decodes to the request it was made from |
| `AdsRequests.HeadersDecode` | lift_controller/lib/ADS/AdsLib/AmsHeader.h:18-217 | every field of the TCP and AoE headers is found where it belongs |
| `AdsRequests.WireDecodes` | lift_controller/lib/ADS/AdsLib/standalone/AmsConnection.cpp:105-117 | every request arrives as it was made, with addresses, command, flags 4, id and data |
| `AdsRequests.WireFields` | lift_controller/lib/ADS/AdsLib/AmsHeader.h:40-122 | the same read off the bytes, for literal offsets and command ids: every header field and every field of each command |
| `AdsRequests.LengthsTrueIff` | lift_controller/lib/ADS/AdsLib/standalone/AmsConnection.cpp:105-117 | the two nested length fields give the true sizes iff everything behind the TCP header is below 2^32 bytes |
| `AdsRequests.BuildBody` | lift_controller/lib/ADS/AdsLib/standalone/AdsLib.cpp:178-194 | data and command header are put into a frame that keeps exactly the room of the two outer headers |
| `AdsRequests.BuildFrame` | lift_controller/lib/ADS/AdsLib/AmsConnection.h:30-44 | the preallocated room is used up exactly, so prepending never reallocates; what the socket takes has true lengths and decodes to the request |
| `UdpRoutes.TextWholeIff` | lift_controller/lib/ADS/AdsLib/AdsLib.cpp:22-27 | a text tag carries its whole text and terminator iff they fit a 16-bit length, and otherwise as many bytes of it as the length cut to 16 bits says |
| `UdpRoutes.PrependTag` | lift_controller/lib/ADS/AdsLib/AdsLib.cpp:15-34 | a tag in front of the frame, in either kind of buffer |
| `UdpRoutes.TagsParse` | lift_controller/lib/ADS/AdsLib/AdsLib.cpp:98-105 | a tag list parses back to the same tags, in reverse order of prepending |
| `UdpRoutes.RouteRequestParses` | lift_controller/lib/ADS/AdsLib/AdsLib.cpp:50-58 | a device finds cookie, service, address and tag count where it looks for them, and the tags as they were given |
| `UdpRoutes.RequestAsks` | lift_controller/lib/ADS/AdsLib/AdsLib.cpp:98-111 | as a device sees it, for texts below 65535 bytes: cookie 0x71146603, service 6, five tags, and in them the route name, or the address without one, under 12, the net id under 7, the user under 13, the password under 2 and the address under 5 |
| `UdpRoutes.VerdictIsFirst` | lift_controller/lib/ADS/AdsLib/AdsLib.cpp:135-148 | the meaning of a reply: the value of the first tag with id 1 if it has four bytes, 0x705 if it has not, 0x706 if there is none |
| `UdpRoutes.WalkIsVerdict` | lift_controller/lib/ADS/AdsLib/AdsLib.cpp:124-148 | on every well-formed tag list the loop returns that meaning, whatever follows the list |
| `UdpRoutes.ReplyIsVerdict` | lift_controller/lib/ADS/AdsLib/AdsLib.cpp:113-148 | reading a received reply with an encoded tag list gives the meaning of the list, whatever old bytes lie behind it in the buffer |
| `UdpRoutes.SendRecv` | lift_controller/lib/ADS/AdsLib/AdsLib.cpp:50-89 | for a frame of any size: sends the three words and the frame, and accepts exactly the replies with the right cookie, id and service, each refusal with its code; after a failed receive it reads behind its buffer |
| `UdpRoutes.ReadTags` | lift_controller/lib/ADS/AdsLib/AdsLib.cpp:124-148 | the tag loop computes that walk, for every buffer and count, also where tags run past the frame into old bytes |
| `UdpRoutes.AddRemoteRoute` | lift_controller/lib/ADS/AdsLib/AdsLib.cpp:91-149 | the datagram sent asks, as a device sees it, for the route with these texts; for every datagram that comes back, the result is 0x705 for one that is too short, 0x706 for wrong words, for a reply with well-formed tags what they mean, and otherwise what the code reads out of its buffer |
| `Routes.After` | lift_controller/lib/ADS/AdsLib/standalone/AmsRouter.cpp:36-96 | after every run of AddRoute and DelRoute, with any hosts and aliases, each mapped connection is still owned |
| `Routes.AliasFreeCounts` | lift_controller/lib/ADS/AdsLib/standalone/AmsRouter.cpp:46-79 | with one address per host and one AmsNetId per connection: a route exists exactly while AddRoutes of it are outstanding, the connection's count is their number, and no connection outlives its route |
| `Routes.BalancedCounts` | lift_controller/lib/ADS/AdsLib/standalone/AmsRouter.cpp:46-79 | with aliases and matched calls, a connection's count is still the sum of what its AmsNetIds have outstanding |
| `Routes.DelRouteUnmapsIff` | lift_controller/lib/ADS/AdsLib/standalone/AmsRouter.cpp:67-96 | in every such run, DelRoute removes the route iff it undoes the last AddRoute of its AmsNetId and no alias on the connection has one outstanding; it destroys the connection iff besides no alias is mapped to it |
| `Routes.AliasesLeak` | lift_controller/lib/ADS/AdsLib/standalone/AmsRouter.cpp:73-77 | two AmsNetIds on one connection, each added and deleted once, leave the first mapped to a connection that counts nobody |
| `Routes.StrandsIff` | lift_controller/lib/ADS/AdsLib/standalone/AmsRouter.cpp:46-52 | a connection is left owned without a route iff an AddRoute moves the last route of one connection to another address of its host |
| `Routes.ChoiceStrandsIff` | lift_controller/lib/ADS/AdsLib/standalone/AmsRouter.cpp:46-65 | said before the call: some choice open to AddRoute leaves a connection behind iff the AmsNetId has the last route of its connection, that connection is to one of the hosts, and another owned one is, too |
| `Routes.MovedRouteStrands` | lift_controller/lib/ADS/AdsLib/standalone/AmsRouter.cpp:46-79 | a run with as many DelRoutes as AddRoutes that leaves a connection owned, counted once and without a route |
| `Routes.FirstByIndex` | lift_controller/lib/ADS/AdsLib/Sockets.cpp:107-128 | connecting to a host takes the first of its addresses that accepts, whatever its place |
| `Routes.AmsRouter.AddRoute` | lift_controller/lib/ADS/AdsLib/standalone/AmsRouter.cpp:27-65 | returns 0x506 without a change iff the AmsNetId has a route to another host; else it throws without a change iff no owned connection leads to the host and no address accepts or the first that accepts has no local address; else it maps the AmsNetId to one of the host's addresses, an owned connection or the first that accepts, and counts it once more, and changes nothing else; it returns 1 iff it opened a connection whose local address is 0 |
| `Routes.AmsRouter.DelRoute` | lift_controller/lib/ADS/AdsLib/standalone/AmsRouter.cpp:67-96 | an unknown route changes nothing; otherwise its connection counts one less, in 64-bit arithmetic, and at zero the route goes, and the connection iff no other AmsNetId leads to it; nothing else changes |
| `Routes.AmsRouter.DeleteIfLastConnection` | lift_controller/lib/ADS/AdsLib/standalone/AmsRouter.cpp:81-96 | the connection goes iff nothing is mapped to it |
| `Routes.AmsRouter.GetConnection` | lift_controller/lib/ADS/AdsLib/standalone/AmsRouter.cpp:163-171 | finds the connection of a route iff there is a route |
| `NotificationRegistry.StaysInStep` | lift_controller/lib/ADS/AdsLib/standalone/AmsPort.cpp:21-49 | a call that touches one port, for one address or all, keeps every port's list and every dispatcher's callbacks in agreement if it does so for what it touches, and leaves all other callbacks in place |
| `NotificationRegistry.AfterAdd` | lift_controller/lib/ADS/AdsLib/standalone/AmsRouter.cpp:186-205 | a registration leaves both registries in agreement, adds one callback at most, and does not replace one that is there |
| `NotificationRegistry.AfterDel` | lift_controller/lib/ADS/AdsLib/standalone/AmsPort.cpp:39-49 | a deletion leaves both registries in agreement, takes away that callback only, and makes one deletion request, with the port's timeout, iff the callback was there |
| `NotificationRegistry.CallbackByPort` | lift_controller/lib/ADS/AdsLib/standalone/AmsConnection.cpp:53-62 | the callbacks spoken of are the ones that the receiver thread finds by the port and address of a notification |
| `NotificationRegistry.AfterClose` | lift_controller/lib/ADS/AdsLib/standalone/AmsPort.cpp:27-37 | closing a port empties both registries for it, leaves the others, and requests the deletion of each registered handle once, with the port's timeout |
| `NotificationRegistry.AmsPort.Close` | lift_controller/lib/ADS/AdsLib/standalone/AmsPort.cpp:27-37 | each dispatcher of the port loses exactly the handles listed for it; the timeout returns to its default and the port number to 0 |
| `NotificationRegistry.AmsPort.DelNotification` | lift_controller/lib/ADS/AdsLib/standalone/AmsPort.cpp:39-49 | only a listed registration is erased, whatever the server answers; an unlisted one gives REMOVEHASH and no request |
| `NotificationRegistry.AmsConnection.DispatcherListAdd` | lift_controller/lib/ADS/AdsLib/standalone/AmsConnection.cpp:37-62 | one dispatcher per port and address: the one that is there, or a new one without callbacks |
| `NotificationRegistry.NotificationDispatcher.Erase` | lift_controller/lib/ADS/AdsLib/standalone/NotificationDispatcher.cpp:30-36 | one deletion request, and the callback is gone however it ends |
| `NotificationRegistry.AmsRouter.OpenPort` | lift_controller/lib/ADS/AdsLib/standalone/AmsRouter.cpp:98-108 | opens the lowest closed port under its own number, or returns 0 iff all are open; no registration changes |
| `NotificationRegistry.AmsRouter.ClosePort` | lift_controller/lib/ADS/AdsLib/standalone/AmsRouter.cpp:110-118 | PORTNOTOPEN without a change for a port out of range or closed; otherwise the port has no callbacks left and all other ports keep theirs |
| `NotificationRegistry.AmsRouter.AddNotification` | lift_controller/lib/ADS/AdsLib/standalone/AmsRouter.cpp:186-205 | for every port number: missing route, a port out of range or closed, and a failed request register nothing; success makes the callback reachable under the handle the server gave, unless that handle is taken; both registries agree afterwards |
| `NotificationRegistry.AmsRouter.DelNotification` | lift_controller/lib/ADS/AdsLib/standalone/AmsRouter.cpp:207-211 | for every port number in range: the callback is unreachable afterwards, every other one as before, one deletion request goes out iff it was registered, and the status is the answer to it or 0x752; both registries agree afterwards; a number out of range changes nothing |
| `Modbus.FromBitsSnoc` | door_controller/include/modbus.hpp:349-353 | adding one more bit at its own weight carries into nothing |
| `Modbus.PackStep` | door_controller/include/modbus.hpp:351-353 | adding a coil to its byte never overflows the byte and changes no other one |
| `Modbus.CoilOfPacked` | door_controller/include/modbus.hpp:466-468 | the read formula gives back every packed coil, and zeros for the unused bits of the last byte |
| `Modbus.RegisterOfBytes` | door_controller/include/modbus.hpp:399-402 | the read formula gives back every encoded register |
| `Modbus.WrittenCoilsReadBack` | door_controller/include/modbus.hpp:337-353 | the data bytes of a coil write, read back, give the same coils, for every amount and every array |
| `Modbus.WrittenRegistersReadBack` | door_controller/include/modbus.hpp:330-340 | the same for registers |
| `Modbus.ReadRequestParses` | door_controller/include/modbus.hpp:366-374 | a server that follows section 3.1.3 of MODBUS Messaging on TCP/IP Implementation Guide V1.0b finds every field of a read request, for all addresses and amounts |
| `Modbus.MultipleWriteParsesIff` | door_controller/include/modbus.hpp:294-355 | a server takes a multiple write with all its fields and data iff there are at most 248 data bytes, and otherwise has to reject it, because the 8-bit length lies |
| `Modbus.CoilsRequestParsesIff` | door_controller/include/modbus.hpp:342-354 | that is at most 1984 coils; section 6.11 of MODBUS Application Protocol Specification V1.1b3 allows 1968 |
| `Modbus.RegistersRequestParsesIff` | door_controller/include/modbus.hpp:330-341 | and at most 124 registers; section 6.12 allows 123 |
| `Modbus.ReadExamples` | door_controller/include/modbus.hpp:366-374 | the requests of sections 6.1 and 6.3, byte by byte |
| `Modbus.WriteCoilsExample` | door_controller/include/modbus.hpp:342-355 | the request of section 6.11, byte by byte |
| `Modbus.WriteRegistersExample` | door_controller/include/modbus.hpp:330-341 | the request of section 6.12, byte by byte |
| `Modbus.ReplyExamples` | door_controller/include/modbus.hpp:399-402 | the replies of sections 6.1 and 6.3, coil by coil and register by register |
| `Modbus.AllocationExactIff` | door_controller/include/modbus.hpp:343-354 | the two ceiling divisions agree iff there is at least one coil |
| `Modbus.DecodingInBoundsIff` | door_controller/include/modbus.hpp:452-468 | every byte that the decoding loops look at is inside the 260-byte buffer iff there are at most 2008 coils or 125 registers, while the code's own guard is 2040 coils |
| `Modbus.Client.StoreCoils` | door_controller/include/modbus.hpp:349-353 | clearing and summing leaves exactly the packed coils behind the header |
| `Modbus.Client.WriteBits` | door_controller/include/modbus.hpp:342-355 | every byte of the allocated frame is determined by the request before it is sent, except the one behind the header when there are no coils |
| `Modbus.Client.ReadCoils` | door_controller/include/modbus.hpp:449-474 | for every amount: not connected, too many coils and no reply each end with their own code, an exception with the stored error number, and all leave the caller's array alone; otherwise each entry whose byte is in the reply is the coil sent, the array behind the amount is kept, and the request went out once |
| `Modbus.Client.ReadHoldingRegisters` | door_controller/include/modbus.hpp:383-408 | the same for registers, which have no limit |
| `Modbus.Client.WriteCoils` | door_controller/include/modbus.hpp:570-594 | a connected client sends the coil request with the next message id, once and in a frame of its size, one byte longer without coils, and reports a lost connection or an exception |
| `Modbus.Client.WriteRegisters` | door_controller/include/modbus.hpp:603-622 | the same for registers |

## Left out

- Frames.Frame.PopLetoh: gives None where the code reads behind its buffer; the model stops there.
- Receiver.AmsConnection.RecvOnce: ends with the status Undefined where the code would use a request that is not there or not lent, or has stored behind the caller's buffer; the model stops there.
- Receiver.AmsConnection.Recv: a pass over a notification is described up to the rest of the schedule, which depends on the room in the ring.
- Receiver.AmsConnection.Dispatch: after a lost connection the ring of its dispatcher holds the old bytes and a prefix of the frame, uncounted. That no two dispatchers share a ring, as the code constructs them, is a precondition of every pass.
- Notifications.NotificationDispatcher.RunOnce: ends as Starving or OutOfStep where an assertion of the ring fails; what a build without assertions does there is not modelled, nor which calls a starving parse had already made.
- Pipeline.CallsOfAllFrames: asks that the parse of each arriving payload ends inside the payload; for others the assertion may fail, or the dispatcher reads on in the next frame.
- UdpRoutes.AddRemoteRoute: gives None where the code reads behind its buffer. A receive that times out or a closed socket throws, which is not modelled.
- Modbus.Client.ReadCoils: bytes that the reply did not bring, or that lie behind the receive buffer, are arbitrary values.
- Modbus.Client.ReadHoldingRegisters: the same.
- Routes.AliasFreeCounts: speaks of runs of fewer than 2^64 calls, the range of the count.
- NotificationRegistry.AmsRouter.DelNotification: gives None for a port number out of range, where the code takes what lies behind its array for a port; AddNotification only reads a timeout there, which is not modelled.
- Sockets, DNS and clocks: the schedule of a stream says what each read and each look at the clock meets; address lists and reachable addresses are parameters.
- The C++ memory model: every atomic access and every access under a mutex is one indivisible step.
- The constructor of a slot, which does not set its id: the model starts with id 0.
- Liveness of the threads themselves: a step that is enabled may be delayed for ever.
- `Receiver` runs one pass at a time; its interleaving with requesters is `SlotProtocol`, that with a dispatcher is `Pipeline`.
- The one sample buffer per notification that all its callbacks share: each call gets its own bytes.
- The shutdown of dispatchers and connections by their destructors.
- The choice of a local AmsNetId from the first connection, and the timeouts set per port.
- Routes that change while notifications are registered: `NotificationRegistry` keeps the routes fixed.
- Argument checks of the `AdsSync*` functions for null pointers and port numbers, and the copying of their results.
- The remaining Modbus reads, which repeat the two modelled ones, and writes of a single value; the single register write looks for the exception code of a coil write.
- The number of a Modbus exception: the code never stores it, so a call that meets an exception returns 0 and only the error flag tells.
- `AdsDevice`, `AdsInterface` and the door and lift interfaces: thin wrappers and type tables.
- Logging, JSON, YAML, MQTT and the command line tool.
