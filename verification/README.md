# Verified model of the Macchina J2534 adapter

The adapter lets diagnostic software on a PC talk to a vehicle's CAN bus: a driver library on the PC, a serial
line, and firmware that runs the ISO 15765-2 transport protocol over CAN. This project models the parts of it
whose correctness is not visible from one function, and proves what they promise over every run.

| part | files |
|---|---|
| ISO-TP transport | `IsoTp.dfy` (one function per method), `IsoTpChannel.dfy` (the class that updates its fields), `IsoTpWire.dfy` (what each operation sends and tells), `IsoTpReply.dfy`, `IsoTpLength.dfy`, `IsoTpSender.dfy`, `IsoTpReceiver.dfy`, `IsoTpFlowControl.dfy`, `IsoTpConfirm.dfy`; two adapters talking to each other: `IsoTpLink.dfy` (delivery), `IsoTpProgress.dfy` (rest), `IsoTpNeed.dfy`, `IsoTpClearance.dfy` and `IsoTpCompletion.dfy` (completion), `IsoTpStall.dfy` (stalls) |
| CAN queues and hardware | `RxQueue.dfy`, `RingBuffer.dfy`, `CanTransmit.dfy`, `MailboxRegisters.dfy`, `BaudRate.dfy`, `RangeFilter.dfy` |
| PC and adapter | `SerialFraming.dfy`, `BlockReader.dfy`, `FilterTable.dfy`, `RequestIds.dfy`, `RequestOrder.dfy`, `RequestPacing.dfy`, `RequestReuse.dfy` |
| shared | `Bytes.dfy`, `CanFrame.dfy` |

`dafny verify dfyconfig.toml` checks everything.

## How the model is built

Code that changes fields or buffers is a class or a method, proved equal to a function on values
(`ensures State() == ...(old(State()))`); the theorems are about those functions, so they hold of every run of
the methods. Concurrency is a state machine whose steps interleave freely: single memory accesses in `RxQueue`,
interrupt, main program and hardware in `CanTransmit`, arrivals and polls in `SerialFraming`, callers, firmware
and reader thread in `RequestIds` and `RequestReuse`, two adapters and both directions of their link in `IsoTpLink`.

Clocks are unbounded and are inputs. Bytes are unsigned. The payload bytes that the transport copies from behind
its eight-byte scratch frame when a single frame announces more than seven bytes are an input too (`Beyond`).

## What was found

- A first frame's length is decoded with an OR where a sum is needed. `IsoTpLength.FirstFrameLength` says for
  which lengths the two agree; the others arrive 256 bytes short.
- The receiver sends a flow control after the first frame and after every eighth consecutive frame, whatever block
  size it advertised, until it has the bytes it decoded. The first one carries the configured block size, the later
  ones repeat what the peer advertised. So a sender can come to wait for good if a block size is smaller than the
  number of frames between two flow controls, or than the number of frames left after the last one.
  `IsoTpNeed.Need` computes the larger of the two from the length, and `IsoTpStall.BlockSizesExact` shows that two
  adapters always finish if and only if each advertises 0 or at least that. Eight is enough for messages whose length
  decodes correctly; the others, of which one of 512 bytes is the shortest, need 37 to 45 (`IsoTpNeed.NeedRange`).
- `sendMsg` accepts messages that do not fit a first frame. They arrive up to the decoded length
  (`IsoTpLink.Delivery`). Block size 0 is enough as long as every message is answered once, as those of 4108 to 4162
  bytes are (`IsoTpStall.LongMessagesComplete`); no block size is enough for those that are answered more than once,
  because even 0 is then repeated as 255 (`IsoTpStall.LongMessagesStall`).
- Removing a filter stops the message being sent until another flow control arrives (`IsoTpFlowControl.RemovalHolds`)
  and gives up the one being received (`IsoTpReceiver.RemovalAbandons`).
- A flow control is accepted while nothing is being sent, and releases one empty consecutive frame and one transmit
  confirmation that belongs to no message (`IsoTpConfirm.EmptyFrame`). Nothing else upsets the count of
  confirmations (`IsoTpConfirm.ConfirmationsAccounted`), and delivery holds all the same.
- An id may be given out again exactly when no caller still has it and nothing that carries it is left
  (`RequestReuse.ReuseExact`). The driver would not have to look that far: it is enough to number a request only
  when the one 99 before has its reply, if none is answered twice and no notification is refused
  (`RequestPacing.OrdinaryRunIsPaced`). But it checks nothing. A slow caller (`RequestReuse.SlowCaller`), a timeout
  (`RequestReuse.LateReply`) and closing a channel, which the firmware answers twice (`RequestReuse.SecondReply`;
  firmware/channel.cpp:97-98 and 115), each leave a reply that goes to the caller 99 requests later.
- A notification that is refused for its flags is answered all the same, under the id read last. That can do harm
  exactly if a caller waits under this id with nothing coming in (`RequestReuse.RefusalExact`), as one does that asked
  for an answer to a segmented message (`RequestReuse.UnaskedReply`).
- The timing table breaks its own comments: the jump width for 8 time quanta is wider than the phase it may shorten,
  and the stated sample point for 13 is wrong (`BaudRate.TableChecked`).
- The bit timing row for 23 time quanta describes a bit of 24, so that a bit rate of 30350 is programmed as 29166
  (`BaudRate.RateTooLow`); `BaudRate.SetBaudrate` says exactly when the rate falls short.

## Model

| member | source | states |
|---|---|---|
| IsoTpChannel.Iso15765Channel.HandleFc | firmware/comm_channel_iso15765.cpp:129-150 | The update of the sender's fields on a flow control is the step of the state machine that the run theorems are about; anything but 0x30 changes nothing. |
| IsoTpChannel.Iso15765Channel.TxMultiFrame | firmware/comm_channel_iso15765.cpp:152-177 | Building one consecutive frame in the shared scratch frame and advancing position, sequence number and clearance, with the confirmation at the end, is that step of the state machine; nothing else of the channel changes. |
| IsoTpLink.SingleFrameRoundTrip | firmware/comm_channel_iso15765.cpp:192-203 | A message of 4 to 11 bytes is told, whole and with its id, to the PC of any channel that receives the frame in which another sent it, and disturbs no transfer of the receiver, whatever the scratch frame and the memory behind it held. |
| IsoTpChannel.Iso15765Channel.RxMultiFrame | firmware/comm_channel_iso15765.cpp:206-236 | Storing a consecutive frame, delivering a complete payload and answering every eighth frame is that step of the state machine. |
| IsoTpChannel.Iso15765Channel.FirstFrameIndication | firmware/comm_channel_iso15765.cpp:238-285 | Starting a reassembly, with the flow control and the indication, or ignoring the frame when there is no reply id or a reassembly is under way. |
| IsoTpChannel.Iso15765Channel.Update | firmware/comm_channel_iso15765.cpp:92-127 | One `update` is the run of exactly the receptions of the mailboxes in use that have a frame waiting, in ascending order, each with its own clock reading and memory behind the scratch frame, and of one clock input. |
| IsoTpChannel.Iso15765Channel.SendMsg | firmware/comm_channel_iso15765.cpp:287-349 | The four outcomes of a send request: refused for its flags, single frame, refused because a transfer is under way, first frame of a segmented transfer. |
| IsoTpChannel.Iso15765Channel.RemoveFilter | firmware/comm_channel_iso15765.cpp:71-85 | Removing a filter clears its mailbox and reply id, gives up what is being received and the clearance of what is being sent, and answers; an unused mailbox is refused without a change. |
| IsoTp.UpdateIsRun | firmware/comm_channel_iso15765.cpp:92-127 | Every `update` is the run of these inputs, which are listed from the mailboxes alone, so the run theorems cover it. |
| IsoTpWire.SendSends | firmware/comm_channel_iso15765.cpp:287-349 | For all flags with bit 0 clear and every size: a message is sent if and only if it fits one frame or nothing is being sent, in one frame with its id, the width of the channel, priority 4, length 8 and no remote request; otherwise nothing changes. |
| IsoTpWire.SendTells | firmware/comm_channel_iso15765.cpp:299-323 | Success is told exactly for a single frame with `respond`, a full buffer exactly with `respond` and nothing sent, the confirmation exactly for a single frame and last; nothing else is told. |
| IsoTpWire.SingleFrameData | firmware/comm_channel_iso15765.cpp:293-300 | A single frame carries the length and the data; the bytes behind are those of the last frame handled. |
| IsoTpWire.FirstFrameData | firmware/comm_channel_iso15765.cpp:329-349 | A first frame carries the low twelve bits of the length and six bytes, and the channel then waits for a flow control with the whole message stored. |
| IsoTpWire.SendRefuses | firmware/comm_channel_iso15765.cpp:288-291 | With bit 0 of the flags set nothing is sent or changed, and the PC is told even if it did not ask. |
| IsoTpWire.ReceiveAnswers | firmware/comm_channel_iso15765.cpp:207-285 | A reception sends something exactly if a first frame is acted on or an eighth consecutive frame is not the last: one flow control under the reply id of the mailbox, with the configured values or those last received, built in the frame it answers. |
| IsoTpWire.ReceiveTells | firmware/comm_channel_iso15765.cpp:192-285 | What the PC is told of each kind of frame: the message of a single frame, the indication of a first frame that is acted on, a message when it is complete; nothing else. |
| IsoTpWire.ReceiveIgnores | firmware/comm_channel_iso15765.cpp:99-118 | Frames of unknown kind or at the wrong time change nothing but the scratch frame. |
| IsoTpWire.TickSends | firmware/comm_channel_iso15765.cpp:124-161 | A due check sends one consecutive frame with the id, number and next bytes of the message, built in the last frame handled; otherwise nothing happens. |
| IsoTpWire.ScratchFrame | firmware/comm_channel_iso15765.cpp:95-349 | The scratch frame is always the last frame sent or received, except for the id of a first frame that is not acted on. |
| IsoTpReply.FilterCommands | firmware/comm_channel_iso15765.cpp:53-85 | Adding succeeds exactly in a free mailbox, removing exactly in one in use. |
| IsoTpReply.RunAnswers | firmware/comm_channel_iso15765.cpp:222-268 | After any run of a new channel, whatever arrives in a mailbox is answered under the id of the filter last added there and not removed, with the values last configured or last received; without a filter no first frame is acted on. |
| IsoTpLength.FirstFrameLength | firmware/comm_channel_iso15765.cpp:254 | For every length, the header of `sendMsg` decodes to length + 4 if and only if the length is below 4096 and not (low byte at least 252 and high nibble odd); otherwise below 4096 it decodes 256 too small. |
| IsoTpLength.DecodedRange | firmware/comm_channel_iso15765.cpp:254 | What the receiver expects of each segmented message of up to 5120 bytes; it is more than the first frame carries unless the message has 4100 to 4107 bytes. |
| IsoTpSender.CarriedIsPrefix | firmware/comm_channel_iso15765.cpp:333-339 | The frames of the segmentation (6 bytes, then 7 each, section 9.6.4 of ISO 15765-2:2016) concatenate to the message. |
| IsoTpSender.SenderStream | firmware/comm_channel_iso15765.cpp:152-177 | In every run, whatever is received, refused or sent in between, the frames sent since the last first frame are those of the segmentation, numbered modulo 16, and after k of them the position is min(size, 10 + 7k). |
| IsoTpFlowControl.FlowControlObeyed | firmware/comm_channel_iso15765.cpp:124-176 | In every run: no consecutive frame between a first frame and the next flow control, at most the block size for each flow control, more than the configured separation time after it and more than its own between two frames. |
| IsoTpFlowControl.FlowControlExact | firmware/comm_channel_iso15765.cpp:124-176 | In every run without removals, a check of the clock while a message is not all out sends a frame if and only if the flow controls permit one and the separation time is over: the configured one after a flow control, that of the flow control between two frames. |
| IsoTpFlowControl.UnlimitedToTheEnd | firmware/comm_channel_iso15765.cpp:140-176 | A flow control with block size 0, whenever it arrives, gives clearance that lasts until the whole payload (up to 5120 bytes) is out, whatever else is received, sent or set, until another flow control arrives or a filter is removed. |
| IsoTpFlowControl.UnlimitedFinishes | firmware/comm_channel_iso15765.cpp:124-126 | After such a flow control the clock alone finishes the transfer, in exactly ceil(remaining / 7) frames. |
| IsoTpFlowControl.RemovalHolds | firmware/comm_channel_iso15765.cpp:71-85 | After a filter is removed in the middle of a message, no consecutive frame is sent and every segmented message is refused until a flow control arrives. |
| IsoTpReceiver.FirstFrameReassembles | firmware/comm_channel_iso15765.cpp:248-265 | A first frame with FF_DL of at least 8 starts a reassembly of 12 to 4095 bytes with its id and six bytes. |
| IsoTpReceiver.Reassembly | firmware/comm_channel_iso15765.cpp:206-236 | After k consecutive frames the payload is the first frame's bytes and the consecutive data in order, with position 10 + 7k below size; the frame that reaches the size delivers it, cut to size; other first frames, single frames, sends, ticks and new filters in between change nothing. |
| IsoTpReceiver.RemovalAbandons | firmware/comm_channel_iso15765.cpp:71-85 | After a filter is removed the PC is told nothing of the message being received, however many of its frames still arrive, until another first frame. |
| IsoTpLink.StepKeepsInv | firmware/comm_channel_iso15765.cpp:92-349 | Every step of either of two linked adapters, with any block sizes, keeps the invariant that relates what one has sent, what is in flight and what the other has reassembled. |
| IsoTpLink.StepIsInput | firmware/comm_channel_iso15765.cpp:92-349 | A step of either end is one input of its channel; what that sends joins the link, what it took leaves it, and what it tells the PC is received. |
| IsoTpLink.SubmitAccepts | firmware/comm_channel_iso15765.cpp:287-349 | For all flags: a message is accepted if and only if they are not refused and it fits one frame or nothing is being sent. |
| IsoTpLink.Delivery | firmware/comm_channel_iso15765.cpp:152-349 | In every run, in both directions at once, with any block sizes and messages of up to 5120 bytes: what a PC received is a prefix, byte for byte and with ids, of what the peer handed over, which at every moment holds nothing but accepted messages, each once, up to the decoded length; it is all of that once the link is empty, and all accepted messages if none is in progress. |
| IsoTpLink.ExactDelivery | firmware/comm_channel_iso15765.cpp:152-349 | If the lengths decode correctly, each accepted message of 4 to 4099 bytes arrives exactly once and whole. |
| IsoTpProgress.StepLowersWork | firmware/comm_channel_iso15765.cpp:124-176 | Every reception and every frame sent lowers a measure on the pair of adapters; other checks change nothing. |
| IsoTpProgress.ComesToRest | firmware/comm_channel_iso15765.cpp:92-127 | No interleaving has more effective steps than the measure: the pair always comes to rest, whatever the block sizes. |
| IsoTpNeed.NeedIsLeast | firmware/comm_channel_iso15765.cpp:222-230 | The number computed from the length is the smallest block size that is never used up before the receiver sends its next flow control. |
| IsoTpNeed.NeedRange | firmware/comm_channel_iso15765.cpp:222-230 | It is at most 8 for a message whose length decodes correctly, 37 to 45 for the others that fit a first frame, and 586 to 630 for those that do not. |
| IsoTpNeed.OnceRange | firmware/comm_channel_iso15765.cpp:222-230 | One flow control is all the answer there is exactly to messages of up to 66 bytes and of 4108 to 4162 bytes. |
| IsoTpClearance.StepKeepsClear | firmware/comm_channel_iso15765.cpp:124-176 | If all configured block sizes suffice for all messages, every step keeps: a sender with bytes left may go on, or a flow control or a frame that triggers one is in flight. |
| IsoTpCompletion.NoStall | firmware/comm_channel_iso15765.cpp:173-176 | So in every such run a sender that has to wait always has something in flight that will let it go on. |
| IsoTpCompletion.Completion | firmware/comm_channel_iso15765.cpp:140-176 | In every such run, at rest both senders have sent all their bytes and accept the next message, and everything accepted was received, each message once, up to the decoded length; beyond block sizes of 255 this takes messages that are answered once. |
| IsoTpCompletion.AdvertisedBlockSizes | firmware/comm_channel_iso15765.cpp:222-230 | Every flow control in flight in such a run carries a block size that suffices, although later ones repeat what the peer advertised and not what is configured. |
| IsoTpStall.SmallBlockStalls | firmware/comm_channel_iso15765.cpp:222-230 | If one of two new adapters advertises a block size other than 0 below what a message needs, whatever the other advertises, they reach a state at rest in which that message is stuck at one of them, which refuses every other segmented one. |
| IsoTpStall.LongMessagesStall | firmware/comm_channel_iso15765.cpp:222-230 | The same for messages that do not fit a first frame and are answered more than once, whatever both advertise, 0 included. |
| IsoTpStall.BlockSizesExact | firmware/comm_channel_iso15765.cpp:140-176 | For every length and every pair of block sizes, each kept by its own end, and for all messages that need no more than one of that length or, of these, those answered once: every run ends complete if and only if each block size is 0 or at least what the length needs, and it fits a first frame or all messages are answered once. |
| IsoTpStall.LongMessagesComplete | firmware/comm_channel_iso15765.cpp:140-176 | With block size 0 at both ends every run with messages that are answered once ends complete, those of 4108 to 4162 bytes included, which do not fit a first frame. |
| IsoTpConfirm.EmptyFrame | firmware/comm_channel_iso15765.cpp:129-177 | A flow control taken while nothing is being sent makes the next due check send one frame without payload bytes, filled with what the flow control carried, and confirm it under the id of the last segmented message. |
| IsoTpConfirm.ConfirmationsAccounted | firmware/comm_channel_iso15765.cpp:124-349 | In every run: confirmations = accepted messages, less the unfinished one, plus empty frames; and empty frames = flow controls taken while nothing was being sent, less the one still due. |
| RxQueue.StepKeepsInv | firmware/custom_can.cpp:89-103 | Every single access of push and pop keeps the invariant on slots, indices and half-copied frames. |
| RxQueue.LockFree | firmware/custom_can.cpp:89-103 | Under every interleaving the popped frames are the accepted ones, whole and in order; at most 7 are held; a push is dropped only when it read a full queue, a pop fails only when it read an empty one, and every push and pop is accounted for. |
| RxQueue.UndisturbedPush | firmware/custom_can.cpp:89-95 | Run to its end, a push accepts its frame if fewer than 7 are held and drops it otherwise. |
| RxQueue.UndisturbedPop | firmware/custom_can.cpp:97-103 | Run to its end, a pop takes the oldest frame held, or reports none if none is held. |
| RxQueue.PushWaitFree | firmware/custom_can.cpp:89-95 | A push ends after a bounded number of its own steps, whatever the main loop does in between. |
| RxQueue.PopWaitFree | firmware/custom_can.cpp:97-103 | A pop ends after a bounded number of its own steps, whatever the interrupt does in between. |
| RxQueue.FrameQueue.PushFrame | firmware/custom_can.cpp:89-95 | Outside an overlap with pop: appends to the queue, or drops the frame when 7 are queued. |
| RxQueue.FrameQueue.PopFrame | firmware/custom_can.cpp:97-103 | Outside an overlap with push: takes the oldest frame, if there is one. |
| RxQueue.FrameQueue.Clear | firmware/custom_can.cpp:132-136 | Outside an overlap with push or pop: empties the queue. |
| RingBuffer.WindowLength | firmware/due_can.cpp:434-439 | The number of entries between tail and head, wrapped or not, is the number of steps from one to the other. |
| RingBuffer.WindowGrows | firmware/due_can.cpp:382-396 | Filling the head slot and moving the head appends to the queue, as long as the ring does not close. |
| RingBuffer.Ring.constructor | firmware/due_can.cpp:364-370 | A new ring is empty. |
| RingBuffer.Ring.Add | firmware/due_can.cpp:382-398 | Appends, and fails exactly when size - 1 entries are queued. |
| RingBuffer.Ring.Remove | firmware/due_can.cpp:410-422 | Takes the oldest entry, if there is one. |
| RingBuffer.Ring.Count | firmware/due_can.cpp:434-439 | Returns the number of queued entries. |
| CanTransmit.CanRaw.SendFrame | firmware/due_can.cpp:903-934 | The scan for the first free mailbox, or queueing, is the send step of the state machine. |
| CanTransmit.CanRaw.SendFrameVia | firmware/due_can.cpp:947-968 | Sending through a given mailbox is that step of the state machine, refusals included. |
| CanTransmit.CanRaw.MailboxInterrupt | firmware/due_can.cpp:1445-1451 | The interrupt refills a ready transmit mailbox from its queue, or disables its interrupt. |
| CanTransmit.StepKeepsInv | firmware/due_can.cpp:903-968 | Every send, interrupt and hardware completion keeps the invariant on interrupts, queues and mailboxes. |
| CanTransmit.NothingLost | firmware/due_can.cpp:903-968 | In every run accepted frames = transmitted + in a mailbox + queued, as multisets; busy mailboxes, and all that serve a non-empty queue, have their interrupt enabled. |
| CanTransmit.WrittenInOrder | firmware/due_can.cpp:924-929 | Frames of one queue reach the mailboxes in the order they were accepted, for any number of mailboxes and both ways of sending. |
| CanTransmit.SendReports | firmware/due_can.cpp:903-934 | `sendFrame` returns true exactly when the frame became one of the accepted ones. |
| CanTransmit.SendViaReports | firmware/due_can.cpp:947-968 | The same for sending through a given mailbox. |
| CanTransmit.SendTakes | firmware/due_can.cpp:903-934 | `sendFrame` accepts a frame if and only if nothing is queued and a shared mailbox is free, or the queue has room; the frame goes to the first free mailbox alone, with its interrupt enabled, or to the end of the queue. |
| CanTransmit.SendViaTakes | firmware/due_can.cpp:947-968 | Through a given mailbox a frame is accepted if and only if the mailbox transmits and is ready with nothing queued for it alone, or has room in its own queue. |
| CanTransmit.InterruptServes | firmware/due_can.cpp:1445-1451 | The interrupt of a ready transmit mailbox loads the oldest frame waiting for it, or disables itself if none waits, and touches no other mailbox. |
| CanTransmit.AcceptedIsReported | firmware/due_can.cpp:903-968 | In every run the accepted frames are exactly those whose send returned true. |
| CanTransmit.NothingStranded | firmware/due_can.cpp:1445-1451 | Mailboxes serve themselves only finitely often, in any order, and when none has anything left to do every accepted frame was transmitted, if some mailbox serves the shared queue. |
| CanTransmit.StrandedWithoutMailbox | firmware/due_can.cpp:903-934 | Without such a mailbox nothing ever leaves the shared queue. |
| RangeFilter.WatchForRange | firmware/can_common.cpp:360-398 | The loop over all ids of the range, with its ends in either order, computes the common prefix of the ends and the mask that selects it; of the ids up to 0x7FF, or up to 29 bits if an end is above that, the filter accepts exactly the block with that prefix. |
| RangeFilter.AcceptsBlock | firmware/can_common.cpp:377-387 | That filter accepts exactly the block of ids with the prefix. |
| RangeFilter.BlockIsAligned | firmware/can_common.cpp:377-387 | The block is an aligned power-of-two block. |
| RangeFilter.RangeInBlock | firmware/can_common.cpp:377-387 | It holds the whole range. |
| RangeFilter.SmallestBlock | firmware/can_common.cpp:377-387 | It lies inside every aligned power-of-two block that holds both ends. |
| RangeFilter.LargestMask | firmware/can_common.cpp:377-387 | Every mask that admits the whole range, with whatever id, is part of the computed mask. |
| BaudRate.SetBaudrate | firmware/due_can.cpp:70-113 | Succeeds exactly for clocks from 8 to 3200 times the bit rate. The time quanta are the first with the least rest, the prescaler is their quotient, in 1 to 128, and the segments are those of their row. Of the bit that is programmed: the rate is too high by less than one part in the prescaler, and it is below the wanted one if and only if 23 quanta win for this clock and bit rate and their rest is below the bit rate times their quotient. |
| BaudRate.TableChecked | firmware/due_can.h:91-120 | Every row of the timing table can be programmed and adds up, except for 23; the phases are equal except for 14 and 23; the stated sample point is right except for 13, where it is 69; the jump width is the documented smaller of 4 and the first phase for 10 and 11 only, and wider than that phase for 8. |
| BaudRate.RateTooLow | firmware/due_can.cpp:87-113 | With an 84 MHz clock and a bit rate of 30350 that is so: 23 quanta win, 24 are programmed, and the bus runs at 29166. |
| BaudRate.Search | firmware/due_can.cpp:87-103 | The loop finds the first candidate in 8 to 25 with the least remainder among those whose divider fits. |
| BaudRate.WinnerDivides | firmware/due_can.cpp:96-113 | A candidate whose quotient is 0 never wins. |
| MailboxRegisters.Mailbox.SetDataByte | firmware/due_can.cpp:1142-1162 | Changes the given byte of the two data registers, position clamped to 7, and no other. |
| MailboxRegisters.Mailbox.WriteTxRegisters | firmware/due_can.cpp:879-887 | From any prior contents the registers then hold exactly the eight bytes, the length (at most 8), the remote-request bit and the priority, and the id and kind come back if and only if the id fits 29 or 11 bits. |
| MailboxRegisters.FieldReplaced | firmware/due_can.cpp:1071-1076 | The priority taken modulo 16 is put in its field; the mode of the mailbox stays, whatever the value. |
| MailboxRegisters.LengthReplaced | firmware/due_can.cpp:1212-1218 | The length field holds the length, but never more than 8. |
| MailboxRegisters.RtrReplaced | firmware/due_can.cpp:1197-1203 | The remote-request bit is set or cleared and no other bit changes. |
| MailboxRegisters.Mailbox.Read | firmware/due_can.cpp:996-1014 | Reading is the inverse of writing: a mailbox that holds a frame yields its id, kind and bytes. Of any other contents, the id fits its kind and encodes to the bits of the id register that count. Length, remote request and time stamp are what `StatusDecoded` says of the status register. |
| MailboxRegisters.IdRoundTrip | firmware/due_can.cpp:1035-1044 | The id register decodes to what was encoded if and only if the id fits its kind. |
| MailboxRegisters.ByteLayout | firmware/due_can.cpp:1142-1162 | The bytes make up their register, byte 0 lowest. |
| MailboxRegisters.StatusDecoded | firmware/due_can.cpp:1007-1009 | A status register with a given length and remote request decodes to these and to the time stamp in its lower half, whatever else it holds. |
| SerialFraming.ToSlice | driver/src/comm.rs:509-516 | Appending length, id, type and arguments yields the encoding the readers decode. |
| SerialFraming.TypesSurvive | driver/src/comm.rs:427-448 | Every message type of the driver comes back from its code, and the codes that do are exactly those the firmware uses; all others become unknown. |
| SerialFraming.SendableMessages | driver/src/comm.rs:427-448 | The messages of the framing theorems are those of a known type with up to 8188 bytes. |
| SerialFraming.WhatIsRead | driver/src/comm.rs:263-267 | Whatever is read as a message: the firmware takes it as it is, the driver turns codes it does not know into the unknown type and cuts what would not fit. |
| SerialFraming.NothingTaken | firmware/comm_a0.cpp:25-56 | A poll takes nothing if and only if it is within a message and nothing is there, or before one and the length field is not there, for which the A0 firmware wants three bytes. |
| SerialFraming.LengthIsLittleEndian | driver/src/comm.rs:256-257 | The length field is little-endian. |
| SerialFraming.SendMessage | firmware/comm_a0.cpp:70-81 | Fills a buffer with the same encoding. |
| SerialFraming.A0Port.ReadMessage | firmware/comm_a0.cpp:25-56 | One call of the A0 firmware's reader is one poll of the reader in the theorem; the last non-zero id is kept. |
| SerialFraming.M2Port.ReadMessage | firmware/comm_m2.cpp:16-46 | The same for the M2 firmware, which allocates a buffer for each message. |
| SerialFraming.DriverPort.ReadOnce | driver/src/comm.rs:253-267 | The same for the driver's reader thread for the A0. |
| SerialFraming.PollKeepsInv | firmware/comm_a0.cpp:25-56 | Every poll keeps: what was read, what is buffered and what is on its way are the rest of the stream. |
| SerialFraming.Framing | driver/src/comm.rs:253-267 | For every list of messages and every way the stream is split over polls, each reader delivers a prefix of the list with position below target, and all of it with no byte left once nothing more is to come. |
| SerialFraming.PollsAreFinite | firmware/comm_m2.cpp:16-46 | A poll that finds something to do takes at least one byte. |
| BlockReader.PackRoundTrip | driver/src/comm.rs:469-476 | `from_vec` recovers a message from the 8192-byte struct of the firmware, whatever pads it. |
| BlockReader.WhatIsUnpacked | driver/src/comm.rs:469-476 | Whatever struct arrives, its type is a known one or unknown and its data are the announced bytes behind the header. |
| BlockReader.BlockPort.ReadOnce | driver/src/comm.rs:218-228 | One pass of the reader takes off exactly the complete structs, shifts the rest to the front and leaves less than one struct, so that the next read never finds the buffer full. |
| BlockReader.ChunkingIrrelevant | driver/src/comm.rs:218-228 | Reading in any chunks gives the structs and the rest of the whole stream. |
| BlockReader.AnyChunking | driver/src/comm.rs:218-228 | Hence the messages arrive complete and in order, and the beginning of the next struct is what is left. |
| FilterTable.RequestAnswered | firmware/channel.cpp:175-206 | The arguments the driver serialises are the ones the firmware decodes, and are answered accordingly. |
| FilterTable.AddMeaning | driver/src/channels.rs:314-352 | `add_filter` takes the least free slot and stores exactly the requested ids, if and only if the channel is open, the request is a flow control filter with 4-byte ids and the slot has a mailbox; otherwise neither side changes. |
| FilterTable.RemoveMeaning | driver/src/channels.rs:354-378 | `remove_filter` removes exactly the filter in the slot, if and only if there is one. |
| FilterTable.RemoveAllMeaning | driver/src/channels.rs:380-390 | `remove_all_filters` empties both tables. |
| FilterTable.OpenCloseMeaning | firmware/channel.cpp:51-64 | A channel opens exactly when it is closed and the bus can be set up, without filters; closing leaves it closed on both sides. |
| FilterTable.TablesAgree | firmware/comm_channel_iso15765.cpp:33-85 | After every run of commands driver and firmware agree on the channel and on every slot, and no slot without a mailbox is marked. |
| FilterTable.RunIsApply | driver/src/channels.rs:67-112 | After every run of commands the firmware has exactly the filters of a map on which each command does what it is for: adding in the first free slot, removing one or all, opening and closing. |
| FilterTable.AddStatus | driver/src/channels.rs:314-352 | Which error a failing `add_filter` reports, in the order in which the reasons are found. |
| FilterTable.OtherStatuses | driver/src/channels.rs:354-390 | Which errors removing, opening and closing report. |
| FilterTable.FirmwareStatuses | firmware/channel.cpp:138-206 | Which errors the firmware reports for arbitrary requests. |
| FilterTable.RemovedEntry | firmware/comm_channel_iso15765.cpp:71-85 | Removal clears the mark and the reply id of its slot and nothing else. |
| FilterTable.Firmware.AddToTable | firmware/comm_channel_iso15765.cpp:33-69 | The checks and stores of `addFilter` in the firmware's arrays, in order. |
| FilterTable.Firmware.DelChannelFilter | firmware/comm_channel_iso15765.cpp:71-85 | Removal from the firmware's arrays, which also ends the message being received and the clearance of the one being sent; a refused removal changes nothing. |
| FilterTable.Firmware.SetupChannel | firmware/channel.cpp:51-64 | Opening with fresh tables, or refusing. |
| FilterTable.Driver.CreateChannel | driver/src/channels.rs:67-87 | Opening from the driver updates both sides together. |
| FilterTable.Driver.DestroyChannel | driver/src/channels.rs:98-112 | Closing from the driver updates both sides together. |
| FilterTable.Driver.AddFilter | driver/src/channels.rs:314-352 | The search for a free slot and the request update both tables together and return the slot. |
| FilterTable.Driver.RemoveFilter | driver/src/channels.rs:354-378 | Removal updates both tables together. |
| FilterTable.Driver.RemoveAllFilters | driver/src/channels.rs:380-390 | The loop over a snapshot of the table removes every filter on both sides. |
| RequestIds.IdSource.GetId | driver/src/comm.rs:23-30 | Call number k returns k mod 99 + 1: none of the ids of the 98 calls before, and the id of the call 99 before. |
| RequestIds.CounterCycles | driver/src/comm.rs:23-30 | After k calls the counter is k mod 99 + 1. |
| RequestIds.IdsRepeat | driver/src/comm.rs:23-30 | Two requests have the same id exactly when they are 99 apart. |
| RequestIds.StepKeepsInv | driver/src/comm.rs:234-246 | Every step of callers, firmware and reader thread, timeouts, repeated or missing answers and refused notifications included, keeps: what carries an id and answers a request belongs to the last request with that id, and comes in first for whoever waits under it, if ids are given out again only when unused and notifications refused only when covered. |
| RequestIds.OwnReplies | driver/src/comm.rs:374-393 | Then every caller that receives a reply receives one to its own request. With nothing in flight a waiting caller's queue starts with a reply to it and holds no reply to another: at least one if every request is answered, at most one if none is answered twice, and nothing else if no notification was refused. |
| RequestOrder.InOrder | driver/src/comm.rs:234-290 | In every run from any state, requests to the firmware, replies to the driver and replies in each queue are taken in the order they were put, none lost, doubled or overtaken. |
| RequestOrder.CallersSettle | driver/src/comm.rs:374-393 | A waiting caller is done exactly when it takes a reply and gives up exactly when its time is over; whoever settled stays settled. |
| RequestOrder.LastIdRead | firmware/comm_a0.cpp:44-49 | The firmware answers under the last id it read that is not 0. |
| RequestPacing.OrdinaryRunIsPaced | driver/src/comm.rs:374-393 | If a request is numbered only when the one 99 before has its reply, none is answered twice and no notification is refused, ids are given out only when unused, timeouts and missing answers included. |
| RequestPacing.OwnRepliesOrdinarily | driver/src/comm.rs:374-393 | So in every such run every reply reaches the caller whose request it answers, and with nothing in flight a waiting caller's queue holds its one reply and nothing else, if the firmware answered. |
| RequestReuse.ReuseExact | driver/src/comm.rs:374-393 | After any such run, the next id can be given out without any caller ever receiving a wrong reply, if and only if it is unused: no caller still has it, and nothing on its way or queued carries it. |
| RequestReuse.Drain | driver/src/comm.rs:253-290 | Firmware and reader thread can bring what carries an id into the queue of that id; if none of it belongs to a given request, the first reply there answers another. |
| RequestReuse.SlowCaller | driver/src/comm.rs:385-391 | From the initial state: a caller that does not take its reply for 99 requests loses it to another caller. |
| RequestReuse.LateReply | driver/src/comm.rs:387-392 | From the initial state: a reply that arrives after its caller gave up goes to the caller 99 requests later. |
| RequestReuse.SecondReply | firmware/channel.cpp:96-119 | From the initial state: the second answer to a close goes to the caller 99 requests later. |
| RequestReuse.RefusalExact | firmware/comm_channel_iso15765.cpp:287-291 | After any such run, a notification that is refused next can do no harm if and only if everyone who may still receive something under the id read last has something coming in already. |
| RequestReuse.UnaskedReply | firmware/comm_channel_iso15765.cpp:287-349 | From the initial state: a caller whose segmented message is never answered receives the refusal of a notification. |

## Left out

- IsoTpChannel.Iso15765Channel.SendMsg: data of fewer than 4 bytes, or of more than 5120 when nothing is being sent, make the code read or write outside its buffers (`send_data` passes up to 8180) and are excluded by a precondition, except when the request is refused first; a failed CAN transmission is not modelled, because the wrapper it comes from returns no value (firmware/custom_can.cpp:128-130), so every frame counts as sent.
- IsoTpChannel.Iso15765Channel.Update: the payload buffers are values in a field, so copying in place and aliasing of the buffers with the scratch frame are not captured; log messages are not modelled.
- IsoTpLink.SingleFrameRoundTrip: extended addressing is not modelled; the segmented paths ignore it, and the send path tests bit 0 of the flags where it means to test the address type (firmware/comm_channel_iso15765.cpp:288), which the model keeps.
- IsoTpLink.Delivery: messages of 4100 to 4107 bytes, of which the receiver expects less than the first frame carries, so that it reads behind its scratch frame, are outside the claim, as are lost frames, a receive queue that overflows, and adding or removing filters during a run of two adapters.
- IsoTpLink.ExactDelivery: messages whose length does not decode correctly arrive short, as `IsoTpLink.Delivery` says.
- IsoTpCompletion.Completion: block sizes that do not suffice are outside the claim, because it is false for them (`IsoTpStall.SmallBlockStalls`).
- IsoTpFlowControl.FlowControlObeyed: the wrap-around of the millisecond clock is not modelled.
- RxQueue.LockFree: resetting the queue during a run (firmware/custom_can.cpp:132-136) and memory that is not sequentially consistent are outside the claim.
- CanTransmit.NothingLost: re-initialising the controller, or giving mailboxes queues of their own, while frames are queued is not modelled.
- RangeFilter.WatchForRange: whether the filter is registered as standard or extended is decided by the common prefix and not by the range (firmware/can_common.cpp:396); the flag is returned, and nothing is claimed of it.
- BaudRate.SetBaudrate: the 32-bit overflow of bit rate times 25 is excluded by a precondition.
- MailboxRegisters.Mailbox.WriteTxRegisters: registers are plain words, so what the hardware does on a write is not captured; the header that gives the positions of their fields is not part of this model, and they are those of the SAM3X.
- MailboxRegisters.Mailbox.Read: the returned overwrite and read-again flags, and the release of the mailbox, are not modelled.
- SerialFraming.A0Port.ReadMessage: length fields below 2, or above the size of the buffer, never occur in a stream of messages and are excluded by a precondition.
- SerialFraming.M2Port.ReadMessage: length fields 0 and 1, with which the firmware computes a negative size, never occur in a stream of messages and are excluded by a precondition.
- SerialFraming.DriverPort.ReadOnce: length fields 0 and 1, on which the driver panics, are excluded by a precondition; all others are covered.
- BlockReader.BlockPort.ReadOnce: structs with a size field beyond their argument array, on which the driver panics, are excluded by a precondition.
- FilterTable.TablesAgree: replies that time out, and slots of 10 and more, on which the driver panics, are outside the claim.
- FilterTable.Firmware.DelChannelFilter: removal while a message is being received frees a member array (firmware/comm_channel_iso15765.cpp:76-78); the freeing is not modelled.
- IsoTpChannel.Iso15765Channel.RemoveFilter: as for `FilterTable.Firmware.DelChannelFilter`.
- RequestIds.OwnReplies: the flags of a notification are not part of its message in the model; whether the firmware refuses it is decided when it is read.
- Flow controls that ask to wait or report an overflow, which the code ignores like any unknown frame, have no behaviour of their own; separation times below a millisecond are taken as milliseconds, as in the code.
- `tx_id` and `respond_after_send` are written and never read, and are not modelled.
- `CanChannel` and its seven-entry boolean tables.
- K-line (firmware/comm_channel_iso9141.cpp).
- Callbacks and listeners of the receive interrupt, error counters and the family id of a mailbox.
- LEDs, battery voltage, pins, set-up of UART and USB, logging, registry and JSON look-up, and the C interface of the driver.
