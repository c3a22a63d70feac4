# librfid: verified models of the link protocols

librfid drives contactless smart-card readers. This project models the parts of it that are
protocol and arithmetic rather than register access, and proves properties of them for all inputs,
all reply streams and all runs.

| Part | Files |
|---|---|
| T=CL block protocol (ISO/IEC 14443-4): driver, card, activation | `TclBlocks`, `TclSpec`, `TclSegments`, `TclSafety`, `TclSession`, `TclAts`, `TclDriver` |
| T=1 over CCID (ISO/IEC 7816-3): driver and card | `T1Blocks`, `T1Spec`, `T1Safety`, `T1Outgoing`, `T1Replies`, `T1Session`, `T1Driver` |
| Listing and finding CCID readers, reader IDs | `ReaderId`, `CcidScan` |
| RC632 timer and FIFO, and what the layers promise one another | `Rc632Timer`, `Rc632Fifo`, `CrossLayer` |
| Type A anticollision and UID assembly (ISO/IEC 14443-3) | `Anticollision`, `Cascade` |
| Hexadecimal script notation | `HexScript` |

## How the two protocols are modelled

Each transceive loop appears twice. The imperative form (`TclDriver`, `T1Driver`) is a class with the
handle's fields, frames built in place in arrays, and the loop itself; its contract says that it
does what a step machine says (`TclSpec.Call`, `T1Spec.Call`). The step machine is a pure function of
the handle and a finite stream of replies, after which the layer below reports an error; since a
call looks at one reply at a time, this covers every card. The theorems are about the step machine:

* *Safety* (`TclSafety`, `T1Safety`, `T1Outgoing`, `T1Replies`): what holds whatever comes back.
* *Sessions* (`TclSession`, `T1Session`): the step machine composed with a card. The card is a relation
  between its state, the block it is sent, its reply and its next state; a history of card states
  that satisfies the relation at every exchange is a run of some conforming card. A block the card
  has no reason to expect allows every reply and every next state, so the theorems include that the
  driver never sends such a block.

The cards, and the promises about frames and replies, are written in the bits and codes of the standards,
not in the driver's own names for them.

`CrossLayer.ActivateAndCall` puts the T=CL parts together: a new handle is activated and used for any
number of calls, and the invariant every operation of the handle keeps (`TclDriver.Handle.Valid`) supplies
the hypotheses of the theorems about calls.

## What turned out not to hold

* A `tcl_transceive` that returns 0 need not have an answer: `TclSafety.ZeroIsNotComplete` gives a run,
  `TclSafety.ZeroIff` the exact condition: the last reply examined has the wrong block number, the wrong CID
  or a PCB of the form 01xx xxxx.
* An answer to select with TL of at least 2 but no TB leaves the frame waiting time of a new handle at
  zero, where ISO/IEC 14443-4 section 5.2.5 has a default: `TclAts.WaitingTimeMissing` gives an answer,
  `TclAts.WaitingTimeSetIff` the exact condition.
* An FSCI of 10 to 15 leaves a new handle without a frame size; the exact condition is
  `TclAts.FrameSizeIff`, and of every established handle `TclDriver.Handle.EstablishedFrameSize`. A message then
  goes out in one piece. FSCI 9 reads past the table and is excluded.
* The length of the historical bytes wraps around when T0 announces more interface bytes than there are:
  `TclAts.HistoricalWraps` and, exactly, `TclAts.HistoricalInBoundsIff`.
* A handle that has been deselected cannot be connected again, although `tcl_connect` lets the state pass:
  `TclDriver.Handle.Reconnect`; `TclDriver.Handle.Connect` says exactly when connecting succeeds.
* The chip's timer has a setting for an exchange exactly when ten times its timeout stays below one second,
  that is `3020 * 2^FWI * WTXM < 1000000` with a multiplier of 1 for ordinary blocks; otherwise the divisor is
  used uninitialised (`CrossLayer.TimerServesIff`, `CrossLayer.TimerServesFwiIff`). Waiting time integers above 8
  have no setting at all, and already the default of 4 has none for an extension by 21
  (`CrossLayer.ExtensionUnserved`).
* A T=1 card that acknowledges the last chunk instead of answering it gets that chunk again under the
  other number (`T1Outgoing.SentTwice`). The data sent is a prefix of the command exactly when there are fewer
  acknowledgements than chunks (`T1Outgoing.SendsPrefixIff`).
* A frame over 64 bytes is written whole only as long as the FIFO is never found full
  (`Rc632Fifo.WriteFifo`).
* Reader IDs drop the top four bits of the vendor number: `ReaderId.VendorsCollide`, with the exact
  condition in `ReaderId.SameIdIff`.

## Model

| member | source | states |
|---|---|---|
| TclSession.CallDelivers | src/rfid_proto_tcl.c:605-735 | Against any conforming card, which codes and expects PCBs as section 7.1.1.1 of ISO/IEC 14443-4 has them, and with any interleaving of waiting time extensions, a call either outlives the reply stream or returns 0 with the card having received exactly the message, the caller exactly the card's answer, equal block numbers at both ends at every examined reply and afterwards, after exactly segments + answer blocks - 1 + extensions exchanges |
| TclSession.SessionDelivers | src/rfid_proto_tcl.c:605-735 | Over any sequence of calls the card's log of commands and answers is the callers' log of messages and results, and the block numbers agree between calls |
| TclSession.AfterIsOutcomes | src/rfid_proto_tcl.c:605-735 | What the callers of a session hold is what the calls return one after the other |
| TclSession.RunInStep | src/rfid_proto_tcl.c:636-730 | The in-step relation between driver and card survives every exchange of a run until both messages are delivered |
| TclSession.ExchangeStep | src/rfid_proto_tcl.c:647-730 | One exchange keeps the ends in step or completes the call; the driver's block number equals the card's when the reply is examined |
| TclSession.Expected | src/rfid_proto_tcl.c:545-591 | Every frame the driver sends is one the card expects at that point |
| TclSession.FirstFrame | src/rfid_proto_tcl.c:620-634 | The first frame of a call meets an idle card that holds the same block number |
| TclSession.Coded | src/rfid_proto_tcl.c:365-385 | The driver's I-block and R-block PCBs are the standard's, bit for bit |
| TclSession.Completable | src/rfid_proto_tcl.c:605-735 | For every list of answer blocks there is a conforming run that delivers all of them |
| TclSafety.CallIsSafe | src/rfid_proto_tcl.c:605-735 | For any replies: the caller gets the in-order payloads of exactly the I-blocks with matching number, the I-blocks sent carry a prefix of the message, every frame fits the card and is an I-block with PCB 02, 03, 12 or 13, an R(ACK) a2 or a3, or f2 with a multiplier of 1 to 59, and the block number is its initial value flipped once per I- or R-block built |
| TclSafety.CompleteIff | src/rfid_proto_tcl.c:695-734 | The answer is complete, and 0 returned, exactly when the last reply examined is a matching I-block without chaining bit |
| TclSafety.ZeroIff | src/rfid_proto_tcl.c:647-734 | For any replies, 0 is returned exactly when the last reply examined completes the answer or is dropped silently, and without a complete answer exactly when that reply has the wrong block number, the wrong CID or a PCB of the form 01xx xxxx; the number is the initial one flipped once per I- or R-block sent |
| TclSafety.ErrorIff | src/rfid_proto_tcl.c:647-734 | For any replies the call returns 0, -1 or -5; -5 exactly when the transport fails, -1 exactly when there is no message or the last reply examined is an S-block that cannot be granted or an acknowledgement with nothing left to send |
| TclSafety.ExtensionGrantedIff | src/rfid_proto_tcl.c:660-694 | For any replies: an S-block goes out exactly after an S(WTX) request for this card with a multiplier of 1 to 59, repeats that multiplier and leaves the number; an acknowledgement brings an I-block, a chained I-block an R(ACK), each under the next number |
| TclSafety.ReplyProvokes | src/rfid_proto_tcl.c:647-730 | One reply brings another frame exactly when it is a grantable request, an acknowledgement with data left or a chained matching I-block, and which frame |
| TclSafety.BareRequest | src/rfid_proto_tcl.c:666-691 | A request for time without its multiplier byte ends the call with -1 |
| TclSafety.ReplyReturns | src/rfid_proto_tcl.c:647-708 | One reply ends the call with 0 exactly when it is final or dropped, never both, and otherwise with -1 |
| TclSafety.ZeroIsNotComplete | src/rfid_proto_tcl.c:701-704 | A reply with the wrong block number makes the call return 0 with nothing received |
| TclSafety.RunCollects | src/rfid_proto_tcl.c:695-730 | Delivered bytes equal the reference reading of the trace |
| TclSafety.RunSound | src/rfid_proto_tcl.c:326-363 | Every frame of a run keeps the length, numbering and timeout promises; S-blocks never change the block number |
| TclSafety.RunSendsPrefix | src/rfid_proto_tcl.c:545-579 | Data sent in any run is a prefix of the data to send |
| TclSafety.RunEnds | src/rfid_proto_tcl.c:732-734 | A run is complete, lost, or returns 0 exactly under the stated conditions on the last reply examined |
| TclSafety.ReplyCollects | src/rfid_proto_tcl.c:695-730 | A reply adds data exactly when it is a matching I-block |
| TclSafety.ReplySound | src/rfid_proto_tcl.c:647-730 | The frame a reply provokes keeps the per-frame promises and takes its data from the front of what is left |
| TclSafety.RefillSound | src/rfid_proto_tcl.c:545-579 | The next segment keeps the per-frame promises whatever the frame size, within the card's size when that is at least 2 |
| TclSegments.Segmentation | src/rfid_proto_tcl.c:545-579 | Successive refills lose, add and reorder nothing, never exceed the card's frame size, set the chaining bit on all frames but the last and alternate block numbers |
| TclSegments.UnsizedRefill | src/rfid_proto_tcl.c:559-562 | Without a frame size a message goes out in one piece |
| TclSegments.SegmentsIsCeiling | src/rfid_proto_tcl.c:559-562 | The number of frames is the length divided by the net frame size, rounded up |
| TclBlocks.PcbFields | src/rfid_proto_tcl.c:647-728 | Where kind, chaining, CID, NAD and block number lie in a PCB |
| TclBlocks.PayloadRecovers | src/rfid_proto_tcl.c:706-719 | The payload of an I-block is what follows its PCB and the CID and NAD it announces |
| TclDriver.Handle.Transceive | src/rfid_proto_tcl.c:605-735 | The imperative call returns, receives, sends and leaves the block number exactly as the step machine says, and keeps the handle's invariant |
| TclDriver.Handle.Pump | src/rfid_proto_tcl.c:636-730 | The exchange loop equals the step machine's run, and terminates |
| TclDriver.Handle.HandleReply | src/rfid_proto_tcl.c:647-730 | One reply is handled as the step machine says |
| TclDriver.Handle.HandleInformation | src/rfid_proto_tcl.c:695-730 | An I-block is taken in and acknowledged as the step machine says |
| TclDriver.Handle.HandleSupervisory | src/rfid_proto_tcl.c:660-694 | An S-block is granted or refused as the step machine says |
| TclDriver.Handle.RefillBuffer | src/rfid_proto_tcl.c:545-579 | The buffer holds the step machine's next segment, built in place, also for frame sizes 0 and 1 |
| TclDriver.Handle.BuildPrologue | src/rfid_proto_tcl.c:326-363 | I- and R-blocks take the next block number, S-blocks leave it; nothing beyond the prologue changes |
| TclDriver.Handle.FillWtx | src/rfid_proto_tcl.c:581-591 | The response repeats the granted multiplier and waits the 32-bit product |
| TclDriver.Handle.constructor | src/rfid_proto_tcl.c:737-759 | A new handle satisfies the invariant, will send block number 0 and announces a frame size that has a code and fits the reader |
| TclDriver.Handle.ParseAts | src/rfid_proto_tcl.c:98-171 | The handle's fields become those of the reference parse, or stay untouched |
| TclDriver.Handle.TakeAts | src/rfid_proto_tcl.c:98-171 | On a new handle parsing succeeds exactly for a non-empty answer, gives the reference parse, and keeps sizes and times in range |
| TclDriver.Handle.RequestAts | src/rfid_proto_tcl.c:175-214 | Succeeds exactly on an initial handle that gets a non-empty answer; any other handle sends nothing; the request carries the code of the handle's own frame size and the activation timeout |
| TclDriver.Handle.BuildRats | src/rfid_proto_tcl.c:182-192 | The request starts with 0xe0 and codes the CID and the announced frame size |
| TclDriver.Handle.Connect | src/rfid_proto_tcl.c:415-436 | Succeeds exactly on an initial handle that gets a non-empty answer, with speed negotiation not needed or successful; success establishes the connection with the parse of that answer; the block number and the invariant are kept; any handle past its initial state is left as it was and sends nothing |
| TclDriver.Handle.Reconnect | src/rfid_proto_tcl.c:415-436 | Deselecting and connecting again fails whatever the card answers |
| TclDriver.Handle.EstablishedFrameSize | src/rfid_proto_tcl.c:133-138 | The frame size of every established handle lies between 16 and the chip's limit exactly when its answer is a bare TL or has an FSCI of at most 8 |
| TclDriver.Handle.Deselect | src/rfid_proto_tcl.c:478-511 | Sends one S-block, leaves the block number and the invariant, and moves to the deselected state on success |
| TclAts.ParseRecovers | src/rfid_proto_tcl.c:98-171 | Parsing the encoding of any well-formed answer, followed by anything, recovers TA, the waiting time 302 us times two to the FWI (at most 14) coded in the upper half of TB, CID and NAD support, the smaller of the standard's FSC and the chip's limit, and exactly the historical bytes |
| TclAts.BareAnswer | src/rfid_proto_tcl.c:114-129 | A bare TL gives frame size 32, TA 0x80 and a waiting time of 4832 us, and nothing else |
| TclAts.TableIsStandard | src/rfid_iso14443_common.c:18 | The frame size table is the standard's |
| TclAts.HistoricalInBoundsIff | src/rfid_proto_tcl.c:165-166 | The historical bytes end with the answer, and lie within it, exactly when TL, T0 and the interface bytes announced in T0 fit its length; otherwise the length has wrapped by the excess |
| TclAts.HistoricalWraps | src/rfid_proto_tcl.c:140-166 | The answer 02 75 makes the length 2^32 - 3 |
| TclAts.WaitingTimeSetIff | src/rfid_proto_tcl.c:114-149 | A new handle gets a waiting time exactly when the answer is a bare TL or announces TB |
| TclAts.WaitingTimeMissing | src/rfid_proto_tcl.c:140-149 | The answer 02 05 gives a usable frame size and waiting time zero |
| TclAts.ParsedBounds | src/rfid_proto_tcl.c:98-171 | Parsing keeps the frame size within the driver's buffers and the waiting time within the longest one that can be coded |
| TclAts.FrameSizeIff | src/rfid_proto_tcl.c:133-138 | A new handle gets a frame size from 16 to the chip's limit exactly when the answer is a bare TL or FSCI is at most 8 |
| TclAts.WaitingTimeFits | src/rfid_proto_tcl.c:76-92 | No waiting time, extended or not, wraps 32 bits |
| TclAts.FsdApprox | src/rfid_iso14443_common.c:46-57 | The largest codable frame size not above the argument, or 16 |
| TclAts.FsdToFsdi | src/rfid_iso14443_common.c:30-42 | Finds a code exactly when there is one, and the right one |
| TclAts.FsdiToFsd | src/rfid_iso14443_common.c:20-28 | The size a code stands for in the standard; larger codes change nothing |
| TclAts.Announce | src/rfid_proto_tcl.c:185-192 | For every receive limit of at least 16 the announced size is the largest codable one, and coding and decoding it gives it back |
| CrossLayer.FramesFitFifo | src/rfid_asic_rc632.c:448-493 | With a frame size within the chip's limit every frame of every call fits the FIFO |
| CrossLayer.FramesReachChip | src/rfid_asic_rc632.c:448-493 | Each frame of each call then reaches the chip in exactly one FIFO write carrying exactly its bytes |
| CrossLayer.CallAndWrite | src/rfid_proto_tcl.c:605-735 | One call on a live handle: its result, its block number, and one FIFO write per frame |
| CrossLayer.CallAll | src/rfid_proto_tcl.c:605-735 | Successive calls on one handle, each from the block number the previous one left |
| CrossLayer.ActivateAndCall | src/rfid_proto_tcl.c:415-759 | From a new handle through activation to any number of calls: activation succeeds exactly as stated, the frame size lies between 16 and the FIFO's size, each frame of each call reaches the chip in one write of its bytes, and any conforming card that starts with block number 1 and keeps the link has logged exactly the callers' messages and results |
| CrossLayer.CallWaits | src/rfid_proto_tcl.c:576-591 | Over every call, also with waiting time zero, I- and R-blocks wait exactly FWT and only a granted extension waits FWT times its multiplier, without wrap-around |
| CrossLayer.TimerServesIff | src/rfid_asic_rc632.c:238-266 | Over every call: each exchange waits FWT times its multiplier, and the timer can be set for it exactly when ten times that stays below one second |
| CrossLayer.TimerServesFwiIff | src/rfid_asic_rc632.c:196-246 | The same as a condition on the waiting time integer and the multiplier the card asks for |
| CrossLayer.ExtensionUnserved | src/rfid_asic_rc632.c:196-246 | With waiting time integer 4 an extension by 21 is granted in a frame the timer cannot be set for |
| Rc632Fifo.WriteFifo | src/rfid_asic_rc632.c:442-493 | A frame reaches the chip in one write carrying exactly its bytes if and only if it has at most 64 of them; for any frame the writes together are a prefix of it, no write exceeds 64 bytes, and a frame under 256 bytes is written whole exactly when the levels read back leave room for the rest before one of them reports a full FIFO |
| Rc632Timer.BestPrescaler | src/rfid_asic_rc632.c:196-236 | For every timeout whose product with the clock fits 64 bits: a divisor results exactly below one second; stated without division, clock, divisor, rate and period are those of a setting whose period is not below the timeout, no setting of any prescaler has a shorter period, and no smaller prescaler an equal one; otherwise there is no setting at all |
| Rc632Timer.SettingIff | src/rfid_asic_rc632.c:206-220 | The division-free settings are exactly the candidates the search computes |
| Rc632Timer.EligibleIff | src/rfid_asic_rc632.c:206-214 | Some prescaler is eligible below one second, none from one second on |
| Rc632Timer.PeriodNotBelow | src/rfid_asic_rc632.c:209-220 | The three roundings never undershoot the timeout, so the negative-difference branch is never taken |
| Rc632Timer.ExcessIsReal | src/rfid_asic_rc632.c:216-220 | The signed 64-bit difference is the true excess |
| T1Session.CallDelivers | src/ccid/ccid-driver.c:1765-2003 | Against any conforming card, which codes and expects PCBs as ISO/IEC 7816-3 has them and may reject any block and ask for extensions, a call returning 0 has delivered the command once and in order, holds the whole response, and leaves both counters equal to the card's, after exactly chunks - 1 + answer blocks + extensions + rejections exchanges; only a shorter stream can lose the link; at every earlier point the card holds a prefix of the command and has logged nothing; any other end is one of a listed few |
| T1Session.CallSucceedsIff | src/ccid/ccid-driver.c:1765-2003 | Against any conforming card a call returns 0 exactly when the link holds, no four replies in a row are rejections, no S-block but requests for time comes, and the answer fits the buffer |
| T1Session.CallCompletable | src/ccid/ccid-driver.c:1765-2003 | For every command and every list of answer blocks that fits the buffer there is a conforming run that returns 0 with exactly their contents |
| T1Session.Completable | src/ccid/ccid-driver.c:1798-2000 | The same from any point of a call at which driver and card are in step |
| T1Session.SessionDelivers | src/ccid/ccid-driver.c:1765-2003 | Over any sequence of successful calls the card's log of commands and answers is the callers' log |
| T1Session.RunInStep | src/ccid/ccid-driver.c:1798-2000 | The in-step relation and the count of exchanges survive every exchange of a run |
| T1Session.RunAtMostOnce | src/ccid/ccid-driver.c:1798-2000 | Whenever a block is sent, the card has taken in a prefix of the command and logged nothing for this call |
| T1Session.ExchangeStep | src/ccid/ccid-driver.c:1882-1999 | One exchange keeps driver and card in step, and is accounted for by what the card has said and owes, or ends the call in one of the listed ways |
| T1Session.Expected | src/ccid/ccid-driver.c:1800-1856 | Every block the driver sends is one the card expects at that point |
| T1Session.ChunkInStep | src/ccid/ccid-driver.c:1800-1830 | The next chunk meets a card that has accepted exactly what came before it |
| T1Safety.CallIsSafe | src/ccid/ccid-driver.c:1765-2003 | For any replies, with or without a response buffer: the response is the in-order content of the in-sequence I-blocks, within the buffer; lack of room is reported exactly when they exceed it; the receive counter flips once per such block; every block sent is well formed, carries the reader's node address and is an I-block of at most 128 bytes, an R-block with error code 0 or 2, or a granted request for time; a rejected block is repeated byte for byte; giving up for lack of retries happens exactly at the fourth rejection in a row, for an S-block exactly when one other than a request for time is examined; 0 is returned exactly for a complete response |
| T1Safety.RunReceives | src/ccid/ccid-driver.c:1882-1943 | Buffer contents and receive counter equal a reference reading of the reply stream |
| T1Safety.RunSends | src/ccid/ccid-driver.c:1832-1857 | Every block of a run is one of the listed forms and every rejection makes the next block a copy |
| T1Safety.RunRetries | src/ccid/ccid-driver.c:1946-1955 | Four consecutive rejections are the last replies looked at, and only they exhaust the retries |
| T1Safety.RetriesIff | src/ccid/ccid-driver.c:1946-1955 | The retries run out exactly when four rejections in a row are among the replies examined |
| T1Safety.RunEnds | src/ccid/ccid-driver.c:1974-1999 | 0 means a complete response, and the call breaks off for an S-block exactly when one other than a request for time is examined |
| T1Safety.RunWithoutBuffer | src/ccid/ccid-driver.c:1882-1943 | Without a response buffer the receive counter is kept all the same and nothing is stored |
| T1Outgoing.CallSends | src/ccid/ccid-driver.c:1798-1830 | For any replies: the send counter flips once per acknowledgement before the first I-block and once for that block, and the data sent, repetitions of rejected blocks aside, is the first chunk and then the last chunk once per acknowledgement |
| T1Outgoing.SendsPrefixIff | src/ccid/ccid-driver.c:1956-1967 | The data sent is a prefix of the command exactly when there are fewer acknowledgements than chunks, and the whole command exactly when there is one fewer |
| T1Outgoing.SentTwice | src/ccid/ccid-driver.c:1961-1967 | A stray acknowledgement of the only chunk makes a call return 0 having sent the command twice, under both numbers |
| T1Outgoing.RunSendsLeft | src/ccid/ccid-driver.c:1944-1973 | Each acknowledgement before the first I-block, and nothing else, sends what is left of the command once more |
| T1Outgoing.ReplySends | src/ccid/ccid-driver.c:1882-1999 | Effect of one reply on the send counter and on the data of the next block |
| T1Replies.CallEnds | src/ccid/ccid-driver.c:1765-2003 | For any replies, the return code and exactly when: 0 for a final in-sequence I-block that fits, 0x10002 for a command over 254 bytes or a response over the buffer, 0x1000d for a reply under four bytes, 0x1000a when the reader fails, for four rejections in a row, for an S-block other than a request for time, and for an error-free R-block that acknowledges nothing under way |
| T1Replies.CallAnswers | src/ccid/ccid-driver.c:1882-1999 | For any replies: the first block carries the first chunk under the counter's number, and each later one is what its reply calls for, in literal codes: the same block, an R-block with the expected number and error code 0 or 2, the next I-block under the acknowledged number, or the grant of the time asked for |
| T1Replies.RunStops | src/ccid/ccid-driver.c:1865-1999 | The endings of a run, read off the replies examined |
| T1Replies.ReplyStops | src/ccid/ccid-driver.c:1865-1999 | Which single replies end a call, and with which code |
| T1Safety.RejectionsEnd | src/ccid/ccid-driver.c:1946-1955 | Enough rejections in a row end the call with an input/output error |
| T1Safety.IfsdRequest | src/ccid/ccid-driver.c:1550-1560 | The frame size request is a well-formed S-block 0xc1 with the reader's node address, carrying the low byte of the reader's size, or 32 for size 0 |
| T1Blocks.BlockWellFormed | src/ccid/ccid-driver.c:1812-1829 | Every block built has a LEN byte equal to its information length, sets every bit in an even number of bytes, and can be taken apart again |
| T1Blocks.XorIsParity | src/ccid/ccid-driver.c:1632-1636 | A bit of the check byte is the parity of the number of bytes that have it |
| T1Blocks.PcbFields | src/ccid/ccid-driver.c:1882-1946 | Where kind, send number, more bit and receive number lie in a PCB |
| T1Driver.ComputeEdc | src/ccid/ccid-driver.c:1623-1638 | Each bit of the check byte is set exactly when an odd number of the bytes have it |
| T1Driver.PutBlock | src/ccid/ccid-driver.c:1932-1942 | The buffer starts with exactly the block asked for |
| T1Driver.Handle.Transceive | src/ccid/ccid-driver.c:1765-2003 | The imperative call returns, stores, sends and counts exactly as the step machine says, and writes nothing past the offered space |
| T1Driver.Handle.Pump | src/ccid/ccid-driver.c:1798-2000 | The exchange loop equals the step machine's run, and terminates |
| T1Driver.Handle.HandleReply | src/ccid/ccid-driver.c:1865-1999 | One block from the card is handled as the step machine says |
| T1Driver.Handle.HandleInformation | src/ccid/ccid-driver.c:1882-1943 | An I-block settles what was sent and is stored or refused as the step machine says |
| T1Driver.Handle.HandleReady | src/ccid/ccid-driver.c:1944-1973 | An R-block repeats, advances or ends the call as the step machine says |
| T1Driver.Handle.BuildChunk | src/ccid/ccid-driver.c:1800-1830 | The send buffer holds the step machine's next chunk |
| T1Driver.Handle.StoreResponse | src/ccid/ccid-driver.c:1910-1927 | The information field is appended if it fits, and nothing else in the caller's array changes |
| T1Driver.Handle.constructor | src/ccid/ccid-driver.c:1544-1545 | Both counters start at zero |
| CcidScan.ScanOrFind | src/ccid/ccid-driver.c:667-893 | On every tree of buses, devices, configurations, interfaces and settings: scanning lists the IDs of all readers, finding by number gives the reader at that place of the same list or fails past its end, finding by ID gives the first reader listed with it |
| CcidScan.ScanThenFind | src/ccid/ccid-driver.c:692-694 | The number of a line of the printed list opens that very device, told apart even from a device with the same ID, its ID is that line, and no other number opens anything |
| CcidScan.ListedIff | src/ccid/ccid-driver.c:771-778 | The devices listed are exactly those that open and have a setting with a class descriptor and class 11, subclass 0, protocol 0, or class 255 on product 0xe003 of vendor 0x04e6 |
| CcidScan.FindInDevice | src/ccid/ccid-driver.c:744-786 | The first CCID setting of a device that can be opened, in walking order |
| CcidScan.Visit | src/ccid/ccid-driver.c:788-875 | A usable device is listed, taken or passed over, and the count-down moves accordingly |
| CcidScan.ListSplits | src/ccid/ccid-driver.c:804-817 | The newline-joined list splits back into exactly the IDs |
| ReaderId.GetEscaped | src/ccid/ccid-driver.c:541-610 | The writing pass fills exactly the buffer the counting pass reserved |
| ReaderId.CountEscaped | src/ccid/ccid-driver.c:579-587 | The number of bytes the escaped string takes |
| ReaderId.WriteEscaped | src/ccid/ccid-driver.c:595-606 | The escaped string, appended to what was there |
| ReaderId.EscapeRoundTrip | src/ccid/ccid-driver.c:595-606 | Unescaping recovers every code unit that fits a byte, and 0xff for every other one |
| ReaderId.EscapeInjective | src/ccid/ccid-driver.c:595-606 | Equal escaped texts come from equal code units, up to those that do not fit a byte |
| ReaderId.EscapedIsPlain | src/ccid/ccid-driver.c:597-605 | No separator, blank, newline or control byte survives escaping |
| ReaderId.EscapedLength | src/ccid/ccid-driver.c:579-587 | Exactly the byte-wide code units outside 0x21 to 0x7e, percent signs and colons take two bytes more |
| ReaderId.EscapedKeeps | src/ccid/ccid-driver.c:595-606 | A serial number without such units is left as it is |
| ReaderId.IdReads | src/ccid/ccid-driver.c:623-633 | An ID reads as the low twelve vendor bits, the product, the serial text or X, and 0, with colons between them |
| ReaderId.MakeReaderId | src/ccid/ccid-driver.c:612-634 | The ID made from numbers and serial, with X for a missing one |
| ReaderId.SameIdIff | src/ccid/ccid-driver.c:623-633 | Two IDs are equal exactly when product, serial text and the low twelve vendor bits are |
| ReaderId.VendorsCollide | src/ccid/ccid-driver.c:623 | Two vendors that share their IDs |
| Anticollision.Complete | src/rfid_asic_rc632.c:1109-1136 | Whatever prefix of 0 to 39 bits is known, the splice leaves exactly the card's five bytes |
| Anticollision.RemainderCompletes | src/rfid_asic_rc632.c:1129-1136 | Known low bits and received high bits join to the card's frame |
| Anticollision.Merge | src/rfid_asic_rc632.c:1129-1136 | Received bits are spliced in at the coded position and nothing before it changes |
| Anticollision.CodeNvb | src/rfid_layer2_iso14443a.c:74-86 | The coded byte is sixteen times the byte count plus the bit count and reads back, for all counts that can be coded |
| Cascade.SelectAssembles | src/rfid_layer2_iso14443a.c:168-256 | Every UID of 4, 7 or 10 bytes presented level by level is assembled exactly, with its length, in the selected state, and the select frames are 93 70, 95 70 and 97 70, each with exactly what the card presented at its level |
| Cascade.SelectsInOrder | src/rfid_layer2_iso14443a.c:197-241 | Whatever comes back, up to five bytes at each level, at most three selects are sent, starting 93 70, 95 70 and 97 70 in order, and only success ends selected |
| Cascade.SelectEnds | src/rfid_layer2_iso14443a.c:168-228 | Whatever comes back: which replies select, move up, give -5 or give -1, and each select repeats the five bytes that came back |
| Cascade.Layer2.Anticol | src/rfid_layer2_iso14443a.c:119-268 | The imperative selection leaves exactly the reference's UID, length, state and frames, and takes T=CL support from bit 0x20 of the last select acknowledge |
| Cascade.Layer2.DoLevel | src/rfid_layer2_iso14443a.c:168-268 | One cascade level does what the reference says, and settles T=CL support only when it selects |
| HexScript.RoundTrip | utils/send_script.c:36-49 | Printing and reading back gives the data, cut after 682 bytes |
| HexScript.HexDump | utils/send_script.c:36-49 | A blank and two digits per byte, for as many bytes as the buffer holds |
| HexScript.MakeCommand | utils/send_script.c:222-243 | The decoded line, never longer than half of it |
| HexScript.ReadDump | utils/send_script.c:212-243 | Reading from any byte position of a dump gives the rest of the data |
| HexScript.DumpShows | utils/send_script.c:36-49 | A byte is shown as a blank and its two digits in lower case |
| HexScript.UnhexIff | utils/send_script.c:212-220 | A character has a digit's value exactly when it is that digit in either case |
| HexScript.ReadUpper | utils/send_script.c:222-243 | A line reads the same in upper case |
| HexScript.LoneDigit | utils/send_script.c:222-243 | A digit followed by a character that is none still takes it along, counted as -1 |

## Left out

- CID and NAD in sent frames: no code sets the flags that would put them there, so sent prologues are one byte; received ones are handled.
- TclDriver.Handle.Transceive: received I-blocks are at least as long as the prologue they announce, because the payload length of a shorter one underflows and the copy leaves its buffers.
- TclDriver.Handle.Pump: the same bound on received I-blocks.
- TclDriver.Handle.HandleReply: the same bound on received I-blocks.
- TclDriver.Handle.HandleInformation: the same bound on received I-blocks.
- TclDriver.Handle.RefillBuffer: on a handle without a frame size a message of 256 bytes or more would overrun the driver's buffer, so shorter ones are required there.
- TclDriver.Handle.ParseAts: FSCI 9 passes the source's range test and reads past its table, so answers with it are excluded.
- TclDriver.Handle.RequestAts: the same exclusion of FSCI 9.
- TclDriver.Handle.Connect: the same exclusion of FSCI 9; type A only.
- TclAts.FrameSizeIff: the same exclusion of FSCI 9.
- TclAts.FsdiToFsd: the same exclusion of code 9.
- CrossLayer.ActivateAndCall: a non-empty answer to select is a bare TL or has an FSCI of at most 8, because any other leaves the handle without a frame size and nothing then bounds a frame by the FIFO.
- Anticollision.Merge: replies no longer than the rest of the five-byte frame, because the source copies longer ones past its end.
- Cascade.SelectsInOrder: anticollision replies of at most five bytes, for the same reason.
- Cascade.Layer2.Anticol: anticollision replies of at most five bytes, for the same reason.
- Cascade.Layer2.DoLevel: anticollision replies of at most five bytes, for the same reason.
- The size of the caller's T=CL receive buffer: `tcl_transceive` never looks at it, and the model gathers the answer in a sequence.
- Speed negotiation after the answer to select: its result is a parameter of `TclDriver.Handle.Connect`.
- Start-up frame guard time, type B activation and ISO 15693 inventory: not part of this model.
- Rc632Fifo.WriteFifo: FIFO levels above 64 are excluded, and bytes a burst would read past the end of a frame are not modelled.
- CCID message headers, sequence numbers and the reader's own time extensions: the reader is a stream of T=1 blocks that ends in an input/output error.
- APDU-level exchange and the secure command of the CCID driver: single exchanges without protocol state.
- T1Session.CallDelivers: covers commands of 1 to 254 bytes, because the driver asserts a non-empty command and refuses longer ones.
- Memory allocation failures in the reader scan, and devices whose opening succeeds only sometimes.
- The short frame that wakes a type A card up: whether its answer announces bit frame anticollision is a parameter of `Cascade.Layer2.Anticol`.
- Collisions between several type A cards: the chip wait loop reports them as errors before the resolution code runs, so one card is in the field.
- MIFARE access tables, options, command-line tools other than the hexadecimal codec, language wrappers: small finite domains or plumbing.
