# Verified models of an i.MX Android device tree

This project models the parts of the repository that hold real logic, and proves what they are for.
Each module follows one component.  State that the C code updates in place is a class whose methods are
proved against functions on values; the theorems are about those functions, and so about every run.

| file | component |
|---|---|
| `LineReader.dfy` | the AT channel's line reader: a fixed buffer, a cursor, compaction, and `read()` in arbitrary pieces |
| `LineCapacity.dfy` | how long a line that reader can take: the capacity condition is exact |
| `LinePrompt.dfy` | the SMS prompt, which no newline closes, through the same reader |
| `LineRouter.dfy` | `processLine`: where each line goes, the intermediate list and its reversal in place |
| `CommandProtocol.dfy` | two mutexes and a condition variable between any number of command threads and the reader |
| `CommandLines.dfy` | where every line and every PDU goes, over whole runs of that protocol |
| `CommandReturns.dfy` | what its calls return, and why |
| `CommandProgress.dfy` | that it comes to rest |
| `Pn533Scheduler.dfy` | the PN533 command queue, its work items, and "more information" chaining |
| `Pn533Frame.dfy` | PN533 standard frames and their checksums |
| `Multitouch.dfy` | the HID multitouch slot tracker |
| `SmsTransport.dfy` | the CDMA SMS transport codec (3GPP2 C.S0015-B section 3.4.3) |
| `AtTokenizer.dfy` | the destructive AT response tokenizer |
| `FcpParser.dfy` | FCP templates (ETSI TS 102 221 section 11.1.1.3) to the response of 3GPP TS 51.011 section 9.2.1 |
| `EdidExtension.dfy` | the CEA extension walker (CEA-861-D section 7.5) |
| `HdmiHotplug.dfy` | HDMI hot-plug, blanking and PHY power as an event system |
| `AtStrings.dfy`, `Wrappers.dfy`, `Sequences.dfy` | prefix tables of 3GPP TS 27.007 Annex B, shared value types, and facts about sequences |

## Reading the models

- A buffer the code writes is an `array`; a struct it updates is a class; a read-only memory that the
  code may overrun is a total function, so that those theorems hold whatever stands behind the input.
- What the environment decides is a parameter or an outcome of a step: how `read()` cuts the stream,
  whether a submission succeeds, which thread a signal wakes, which mode a display offers.
- Where a promised property holds only in some cases, the theorem is an equivalence whose right-hand
  side can be checked beforehand.

What the code does where its comments or the standards say otherwise, each stated as a lemma:

- SMS cause codes are sent under the bearer reply tag and come back as a bearer reply
  (`SmsTransport.RoundTrip`, `SmsTransport.CauseTakenForReply`).
- When the modem's stream ends and no handler is set, the reader thread ends without closing the channel or
  waking anybody, so a call without a timeout then waits until some thread closes the channel
  (`CommandProtocol.AbandonedReachable`, `CommandProtocol.AbandonedForGood`).
- A PN533 chain whose continuation cannot be sent leaves its fragments to the next exchange
  (`Pn533Scheduler.LostChainPollutes`), and a dequeued command that cannot be submitted stops the
  queue for good (`Pn533Scheduler.StallIsPermanent`, `Pn533Scheduler.StopsExactly`).
- A panel with one slot loses a finger that lands in the very frame from which another one is missing
  (`Multitouch.SecondFingerIsLost`).
- The walk over an EDID extension need not end when the timing offset exceeds 222
  (`EdidExtension.EndsExactly`), and an offset of 0, by which CEA-861-D means that there are no timings,
  makes it read the header as one (`EdidExtension.HeaderTakenForTiming`).
- A comment in `mxc_hdmi_notify_fb` says that the set-up is always done by the end of the function; it
  is done only if the mode differs from the previous one.  A display whose nearest mode is VGA, found
  anew, therefore gets no PHY (`HdmiHotplug.PhyAfterPlugin`, `HdmiHotplug.DarkReachable`), however often
  it is plugged in (`HdmiHotplug.VgaDisplayStaysDark`).
- The HDMI plug-out path holds no lock against the framebuffer events (`HdmiHotplug.TornPlugOut`).
- The buffer for new modes of an EDID extension has 50 entries and is not checked; a well-formed extension
  can say more (`EdidExtension.TooManyModes`, `EdidExtension.FitsExactly`).
- The SMS decoder passes over a field with an unhandled tag by its length alone, so a last such field may
  claim more octets than there are (`SmsTransport.DecodeComposes`).
- `at_tok_hasmore` does not see a last field that is written as nothing (`AtTokenizer.HasMoreRoundTrip`).

## Model

| member | source | states |
|---|---|---|
| LineReader.ChunkIndependence | hardware/ril/altair-ril/atchannel.c:309-419 | however `read()` cuts the stream, `readline` delivers exactly the non-empty CR/LF-terminated segments in order, if no line begins with the SMS prompt, every closed line is shorter than the buffer (counted with the newlines between it and the character that closes the line before), and the text behind the last one is shorter too or free of prompts |
| LineReader.FitsIsEnough | hardware/ril/altair-ril/atchannel.c:373-385 | a condition on the stream alone that implies both: every newline run with its following text is shorter than the buffer |
| LineCapacity.CapacityExactly | hardware/ril/altair-ril/atchannel.c:333-419 | every way of cutting the stream yields its lines if and only if every closed line fits the buffer |
| LineCapacity.LosesLine | hardware/ril/altair-ril/atchannel.c:373-385 | a stream with a closed line that does not fit, wherever it stands, can be cut so that the reader does not deliver its lines |
| LineCapacity.SessionGainsNothing | hardware/ril/altair-ril/atchannel.c:373-408 | for every cut, a session that meets no prompt delivers no more characters than the closed lines of the stream have |
| LinePrompt.NextByScans | hardware/ril/altair-ril/atchannel.c:309-419 | whatever is buffered and however the bytes arrive, the first scan that does not see an open text decides what `readline` returns: the prompt if it sees "> " and nothing else, otherwise the line before the first CR or LF; with none the channel has ended |
| LinePrompt.PromptExactly | hardware/ril/altair-ril/atchannel.c:309-320 | the prompt is returned if and only if that scan sees exactly "> " |
| LinePrompt.PromptIsDelivered | hardware/ril/altair-ril/atchannel.c:333-419 | closed lines that fit and then a prompt that comes by itself, in one read or in two, with room for it behind the last newlines: the session delivers the lines and then the prompt, whatever comes afterwards |
| LineReader.OverlongFirstLine | hardware/ril/altair-ril/atchannel.c:373-385 | the capacity condition is exact for the first line: if it does not fit, precisely the first MAX_AT_RESPONSE bytes are lost for every cut, and the result is not the lines of the stream |
| LineReader.NextAgrees | hardware/ril/altair-ril/atchannel.c:333-419 | one call of `readline` against the reference splitter: it returns the first remaining segment and leaves a regular remainder |
| LineReader.FillAgrees | hardware/ril/altair-ril/atchannel.c:373-408 | the read loop with a partial line at any offset of the buffer agrees with the splitter |
| LineReader.ReadTakes | hardware/ril/altair-ril/atchannel.c:382-385 | a read retried over EINTR takes from the front of the stream, and nothing only at its end |
| LineReader.Reader.ReadLine | hardware/ril/altair-ril/atchannel.c:333-419 | the imperative reader, with every index in bounds, returns what `Next` says, including prompts, EOF and dropped buffers |
| LineReader.Reader.FindEol | hardware/ril/altair-ril/atchannel.c:309-320 | `findNextEOL` finds the first CR or LF, the end of a prompt, or nothing |
| LineReader.Reader.MoveUp | hardware/ril/altair-ril/atchannel.c:359-368 | the memmove keeps the partial line and moves it to the front |
| LineReader.Reader.ReaderLoop | hardware/ril/altair-ril/atchannel.c:439-491 | the reader thread hands over every line of the stream once, pairing SMS headers with their PDU line, for every cut |
| LineReader.DeliveriesExactly | hardware/ril/altair-ril/atchannel.c:439-491 | of any lines, all are handed over once and in order but for an SMS header at the very end; a header, and nothing else, takes the line behind it along |
| AtStrings.StrStartsWith | hardware/ril/reference-ril/misc.c:88-97 | the two-pointer loop decides the prefix relation |
| AtStrings.MatchesTable | hardware/ril/altair-ril/atchannel.c:150-224 | the table scans decide whether some entry is a prefix |
| AtStrings.TablesAre | hardware/ril/altair-ril/atchannel.c:150-224 | which prefixes end a command with which result, and which announce an SMS |
| LineRouter.LinesConserved | hardware/ril/altair-ril/atchannel.c:242-300 | every line is counted exactly once among finals, prompts, intermediates and unsolicited lines |
| LineRouter.VerdictCharacterised | hardware/ril/reference-ril/atchannel.c:243-310 | what a line is taken as, in both dialects, read off the lines alone, without the router's state |
| LineRouter.IntermediatesInOrder | hardware/ril/altair-ril/atchannel.c:129-142 | after the reversal the intermediates are the accepted lines in arrival order |
| LineRouter.UnsolicitedInOrder | hardware/ril/altair-ril/atchannel.c:235-239 | the unsolicited handler is given exactly the other lines, in order |
| LineRouter.LastFinalStands | hardware/ril/altair-ril/atchannel.c:246-254 | the response carries the last final line and its verdict |
| LineRouter.PduWrittenOnce | hardware/ril/altair-ril/atchannel.c:255-259 | the PDU goes out at most once per command, at the first prompt and only then |
| LineRouter.OneLineResult | hardware/ril/altair-ril/atchannel.c:848-914 | single-line, SMS and numeric senders, in both dialects: a success that is passed on has a final line and exactly one intermediate, with the prefix or a leading digit, and those refused are exactly the successes without an eligible line |
| LineRouter.DigitsAre | hardware/ril/altair-ril/atchannel.c:264-273 | what counts as a numeric result |
| LineRouter.StoredSmsRead | hardware/ril/reference-ril/atchannel.c:286-301 | a multi-line command with prefix "+CMGR:" gets every plain line from the first prefixed one on, in order; all earlier plain lines are unsolicited |
| LineRouter.ATResponse.ReverseIntermediates | hardware/ril/altair-ril/atchannel.c:700-713 | the pointer reversal reverses the list, cell by cell |
| LineRouter.ATResponse.AddIntermediate | hardware/ril/altair-ril/atchannel.c:129-142 | the new line becomes the head of the list |
| LineRouter.AtChannel.ProcessLine | hardware/ril/reference-ril/atchannel.c:243-310 | the imperative router, in both dialects, has the effect of `Apply` on the whole channel |
| LineRouter.AtChannel.Accepts | hardware/ril/reference-ril/atchannel.c:261-307 | the switch on the command type accepts exactly the lines classified as intermediate |
| LineRouter.AtChannel.Issue | hardware/ril/altair-ril/atchannel.c:742-745 | makes the command pending with an empty response, and touches nothing else |
| LineRouter.AtChannel.TakeResponse | hardware/ril/altair-ril/atchannel.c:770-790 | with an out pointer the response is handed over in arrival order; the channel is cleared either way |
| CommandProtocol.ResponsesAreTheirOwn | hardware/ril/altair-ril/atchannel.c:722-825 | in every interleaving a call returns what the lines between its own issue and its own return determine, and those stretches do not overlap |
| CommandProtocol.PendingResponseIsOwned | hardware/ril/altair-ril/atchannel.c:722-790 | a pending response belongs to the holder of the outer mutex and is what its command makes of the lines since it was issued |
| CommandProtocol.NeverCommandPending | hardware/ril/altair-ril/atchannel.c:731-734 | AT_ERROR_COMMAND_PENDING is unreachable |
| CommandProtocol.MutualExclusion | hardware/ril/altair-ril/atchannel.c:797-825 | each mutex has at most one holder in the critical sections of the code, reader included |
| CommandProtocol.NoLostWakeup | hardware/ril/altair-ril/atchannel.c:753-768 | a thread that is still blocked has no final response and no closed channel to see |
| CommandProtocol.OnlyTheModemIsAwaited | hardware/ril/altair-ril/atchannel.c:722-825 | when nothing can run by itself, every call waits for an answer that has not come or behind one that does, and the channel is not closed; the modem is still listened to exactly if the stream has not ended unheard |
| CommandProtocol.AbandonedReachable | hardware/ril/altair-ril/atchannel.c:422-437 | for every command without a timeout, a run after which the call waits although the reader is gone, and nothing can go on |
| CommandProtocol.AbandonedForGood | hardware/ril/altair-ril/atchannel.c:753-768 | from such a state on no call returns, whatever happens, until some thread closes the channel |
| CommandProtocol.OneLineSenders | hardware/ril/altair-ril/atchannel.c:848-914 | in every run a call that a one-line sender passes on as a success has its final line and exactly one intermediate, of the form asked for |
| CommandLines.PdusWrittenOnce | hardware/ril/altair-ril/atchannel.c:255-259 | over any run what has been written is what each call wrote in its turn, and a call writes its PDU once if a prompt came while it was pending, and else nothing |
| CommandLines.UnsolicitedInTurn | hardware/ril/altair-ril/atchannel.c:242-300 | over any run the unsolicited handler has been given, in order, every line that came while no command was pending and, of each command's stretch, the lines it had no use for |
| CommandLines.EveryLineOnce | hardware/ril/altair-ril/atchannel.c:242-300 | over any run every line processed has gone to exactly one place: to the unsolicited handler, or to one call as a final line, a prompt or an intermediate |
| CommandReturns.ReturnsExactly | hardware/ril/altair-ril/atchannel.c:722-795 | over any run, for every call: once its command is issued it returns 0 exactly when its response is taken on an open channel, and then a final line has come; that the channel is closed exactly when it is closed by then; a timeout exactly when its wait times out, for which it has one; a command that cannot be written returns the error of that |
| CommandReturns.LeavesLoopExactly | hardware/ril/altair-ril/atchannel.c:753-785 | a thread leaves the wait loop by itself if and only if a final line has come since its command was issued or the channel is closed |
| CommandReturns.WriteDecides | hardware/ril/altair-ril/atchannel.c:731-745 | a failed write leaves nothing pending; a successful one the command with an empty response |
| CommandReturns.AnsweredReachable | hardware/ril/altair-ril/atchannel.c:780-785 | for every command and every final line, a run in which the call returns 0 with that answer |
| CommandReturns.ClosedReachable | hardware/ril/altair-ril/atchannel.c:651-667 | a run in which `at_close` ends a waiting call, which returns that the channel is closed |
| CommandReturns.TimeoutReachable | hardware/ril/altair-ril/atchannel.c:753-768 | a run in which a call times out |
| CommandProgress.ComesToRest | hardware/ril/altair-ril/atchannel.c:722-825 | from every reachable state, the steps that the program takes by itself are bounded: no livelock |
| CommandProgress.CanRest | hardware/ril/altair-ril/atchannel.c:242-300 | and they lead to a state in which it waits |
| CommandProtocol.RunKeeps | hardware/ril/altair-ril/atchannel.c:242-300 | the invariant of locks, pending response and history holds in every reachable state |
| CommandProtocol.CloseKeeps | hardware/ril/altair-ril/atchannel.c:651-667 | closing the channel from any thread keeps it |
| CommandProtocol.CloseSetKeeps | hardware/ril/altair-ril/atchannel.c:651-667 | setting the closed flag and signalling keeps it |
| CommandProtocol.EndSetKeeps | hardware/ril/altair-ril/atchannel.c:422-437 | so does the reader's end |
| Pn533Scheduler.TokenConservation | kernel_imx/drivers/nfc/pn533.c:857-905 | a pending command means that exactly one of frame in flight, completion work, command work, fetched command and MI work exists; none pending means that nothing goes on or waits |
| Pn533Scheduler.FirstComeFirstServed | kernel_imx/drivers/nfc/pn533.c:991-1043 | accepted commands go out in order, one at a time, and each ends exactly once |
| Pn533Scheduler.EndsInOrder | kernel_imx/drivers/nfc/pn533.c:1004-1043 | commands end in the order in which they started |
| Pn533Scheduler.OpenChain | kernel_imx/drivers/nfc/pn533.c:2359-2407 | since a command in progress went out, nothing but its own replies and continuations has passed |
| Pn533Scheduler.ChainReassembly | kernel_imx/drivers/nfc/pn533.c:2153-2242 | an exchange finishes once, with the in-order concatenation of its fragments or its error, exactly when no lost chain has left octets behind |
| Pn533Scheduler.ExchangeResult | kernel_imx/drivers/nfc/pn533.c:2191-2242 | over any run, by the bits of the status octet: every reply of an exchange but the last has none of the bits of 0x3F and has 0x40; the last, if a negative status, is the result, if it has one of the bits of 0x3F, makes it -5, and otherwise makes it data |
| Pn533Scheduler.CompletionDecides | kernel_imx/drivers/nfc/pn533.c:2191-2242 | over any run, what the completion of a frame does: the callback, or exactly with bit 0x40 and no error bit another round, with the fragment kept |
| Pn533Scheduler.FramesAnswered | kernel_imx/drivers/nfc/pn533.c:1004-1043 | at any moment of any run as many frames have been sent as replies have come, and one more while one is being handled |
| Pn533Scheduler.QueueEmptyBetweenExchanges | kernel_imx/drivers/nfc/pn533.c:2153-2189 | without lost chains the fragment queue is empty between exchanges |
| Pn533Scheduler.LostChainPollutes | kernel_imx/drivers/nfc/pn533.c:2395-2407 | a continuation that cannot be sent makes the next exchange start with the old fragments |
| Pn533Scheduler.StallIsPermanent | kernel_imx/drivers/nfc/pn533.c:1034-1043 | after a dequeued command that could not be submitted nothing is sent or finished any more |
| Pn533Scheduler.StopsExactly | kernel_imx/drivers/nfc/pn533.c:1034-1043 | while a command is pending something can go on if and only if no dequeued command has failed to be submitted |
| Pn533Scheduler.StalledMeansDropped | kernel_imx/drivers/nfc/pn533.c:1034-1043 | in every run the queue is stalled if and only if the log holds a dropped command |
| Pn533Scheduler.StallReachable | kernel_imx/drivers/nfc/pn533.c:1034-1043 | a run that stalls, with what it has sent, finished and dropped |
| Pn533Scheduler.Pn533.SendAsync | kernel_imx/drivers/nfc/pn533.c:857-905 | submits or queues as the step says, and returns 0 exactly for commands it takes |
| Pn533Scheduler.Pn533.BuildResponse | kernel_imx/drivers/nfc/pn533.c:2153-2189 | NULL for an empty queue, else the fragments in order; the queue is empty afterwards |
| Pn533Scheduler.Pn533.CopyFragments | kernel_imx/drivers/nfc/pn533.c:2168-2183 | the two walks concatenate the fragments in one buffer of their total length |
| Pn533Scheduler.Pn533.DataExchangeComplete | kernel_imx/drivers/nfc/pn533.c:2191-2242 | continues a chain, or calls back with data or error and leaves the queue empty |
| Pn533Scheduler.Pn533.WqCmdComplete | kernel_imx/drivers/nfc/pn533.c:1004-1012 | the completion work is the completion step, callback included |
| Pn533Scheduler.CompletedIs | kernel_imx/drivers/nfc/pn533.c:826-855 | the completion step is the callback's effect followed by the next work |
| Pn533Scheduler.Pn533.WqCmd | kernel_imx/drivers/nfc/pn533.c:1014-1043 | the command work dequeues the oldest command or clears the pending flag |
| Pn533Scheduler.Pn533.WqCmdSubmit | kernel_imx/drivers/nfc/pn533.c:1034-1043 | submits the dequeued command, or drops it and stalls |
| Pn533Scheduler.Pn533.WqMiRecv | kernel_imx/drivers/nfc/pn533.c:2359-2407 | the MI work sends a continuation past the queue |
| Pn533Frame.RoundTrip | kernel_imx/drivers/nfc/pn533.c:810-824 | code and payload come back from a built frame if and only if the payload has at most 253 octets |
| Pn533Frame.BuiltIsValid | kernel_imx/drivers/nfc/pn533.c:551-598 | every built frame passes validation |
| Pn533Frame.FrameOctets | kernel_imx/drivers/nfc/pn533.c:551-579 | a built frame octet by octet, with a length that its checksum complements and data that adds up to 0 modulo 256 |
| Pn533Frame.AckOctets | kernel_imx/drivers/nfc/pn533.c:600-609 | which octets are an acknowledge |
| Pn533Frame.SingleChangeDetected | kernel_imx/drivers/nfc/pn533.c:581-598 | changing one octet of a valid frame makes validation fail, except in the preamble and behind the checksum; a changed length is refused before it is used |
| Pn533Frame.SumChange | kernel_imx/drivers/nfc/pn533.c:540-549 | the sum moves by exactly the difference of the changed octet |
| Pn533Frame.ResponseIsNotAck | kernel_imx/drivers/nfc/pn533.c:600-609 | no frame is both a valid response and an acknowledge |
| Pn533Frame.BuildCmdFrame | kernel_imx/drivers/nfc/pn533.c:810-824 | the in-place construction yields `Built`, the value the frame lemmas are about |
| Pn533Frame.RxFrameIsValid | kernel_imx/drivers/nfc/pn533.c:581-598 | the imperative validation decides `IsValid` |
| Pn533Frame.DataChecksum | kernel_imx/drivers/nfc/pn533.c:534-549 | the loop sums modulo 256 and negates |
| Multitouch.TouchingSlotsAreUnique | kernel_imx/drivers/hid/hid-multitouch.c:360-398 | for the classes that look slots up by contact, no two touching slots share a contact in any reachable state |
| Multitouch.ContactKeepsSlot | kernel_imx/drivers/hid/hid-multitouch.c:115-132 | a contact that touches at the end of one frame and is reported touching in the next still has its slot in the state the run reaches with the event that ends that frame |
| Multitouch.ContactHoldsSlot | kernel_imx/drivers/hid/hid-multitouch.c:383-398 | and it is in its slot at every moment of the frame |
| Multitouch.FrameMeaning | kernel_imx/drivers/hid/hid-multitouch.c:400-435 | after a frame the touching contacts are exactly the valid ones completed in it if and only if the contacts touching before and those of the frame fit the slots together; all seen flags and the count are clear |
| Multitouch.SecondFingerIsLost | kernel_imx/drivers/hid/hid-multitouch.c:115-132 | a concrete run in which the condition fails and a finger is lost |
| Multitouch.FoldShows | kernel_imx/drivers/hid/hid-multitouch.c:383-398 | the contacts of a frame all find a slot exactly when they fit together with those already touching |
| Multitouch.FoldKeepsSlot | kernel_imx/drivers/hid/hid-multitouch.c:383-398 | placing contacts moves no touching contact to another slot |
| Multitouch.LatestValues | kernel_imx/drivers/hid/hid-multitouch.c:439-491 | in every run and for every class, the contact under way has the last value sent for each of its fields, the last word on its validity, and the last contact count |
| Multitouch.ContactCompleted | kernel_imx/drivers/hid/hid-multitouch.c:383-398 | the event that completes a contact puts exactly that in its slot, if it is valid and the slot exists, and changes no other slot |
| Multitouch.SlotByClass | kernel_imx/drivers/hid/hid-multitouch.c:360-381 | the slot for each class of device |
| Multitouch.FrameEnds | kernel_imx/drivers/hid/hid-multitouch.c:400-437 | what the end of a frame releases and clears, and that nothing but it does |
| Multitouch.ReportSays | kernel_imx/drivers/hid/hid-multitouch.c:414-427 | which field of a report is which of the contact |
| Multitouch.StartsEmpty | kernel_imx/drivers/hid/hid-multitouch.c:526-620 | before the first event nothing is touched, seen or received |
| Multitouch.MtDevice.FindSlotFromContactId | kernel_imx/drivers/hid/hid-multitouch.c:115-132 | the two scans find the touching slot of the contact, else the first free one, else none |
| Multitouch.MtDevice.Complete | kernel_imx/drivers/hid/hid-multitouch.c:383-398 | the completion of a contact on the slot array |
| Multitouch.MtDevice.Emit | kernel_imx/drivers/hid/hid-multitouch.c:400-437 | the loop lifts unseen slots, reports each slot, and clears the frame |
| Multitouch.MtDevice.OnEvent | kernel_imx/drivers/hid/hid-multitouch.c:439-507 | one HID event, with one report for each slot exactly where a frame ends |
| SmsTransport.RoundTrip | hardware/ril/altair-ril/SMS3GPP2.c:396-460 | a message comes back unchanged if and only if it has no cause codes option and its reply sequence number, when sent, is below 64 |
| SmsTransport.EncodedFieldsParse | hardware/ril/altair-ril/SMS3GPP2.c:184-255 | what exactly the receiver gets of a message without cause codes |
| SmsTransport.CauseTakenForReply | hardware/ril/altair-ril/SMS3GPP2.c:420-441 | what exactly it gets of one with error-free cause codes: a bearer reply |
| SmsTransport.CauseCodeTakenForTag | hardware/ril/altair-ril/SMS3GPP2.c:420-441 | and of one with an error: the same, and then the cause code as the tag of a field |
| SmsTransport.OriginatingField | hardware/ril/altair-ril/SMS3GPP2.c:218-220 | for every address of at most 19 digits, at any field boundary, a field with tag 2 sets the originating address to it, changes nothing else and leaves what follows |
| SmsTransport.DestinationField | hardware/ril/altair-ril/SMS3GPP2.c:221-223 | likewise tag 4 and the destination address |
| SmsTransport.CauseCodesField | hardware/ril/altair-ril/SMS3GPP2.c:230-239 | tag 7: the number, the class and, with a class other than 0, the code |
| SmsTransport.TeleserviceMeans | hardware/ril/altair-ril/SMS3GPP2.c:215-217 | tag 0: two octets, the high one first |
| SmsTransport.ReplyMeans | hardware/ril/altair-ril/SMS3GPP2.c:240-244 | tag 6: the six high bits of an octet |
| SmsTransport.BearerMeans | hardware/ril/altair-ril/SMS3GPP2.c:224-229 | tag 8: as many octets as the length says |
| SmsTransport.TypeAlone | hardware/ril/altair-ril/SMS3GPP2.c:184-203 | a message of its type only has all else zero, and an empty one is none |
| SmsTransport.AddressBits | hardware/ril/altair-ril/SMS3GPP2.c:282-333 | an encoded address bit by bit: the modes, eight bits of digit count, four bits for each digit, and zeros up to the next octet |
| SmsTransport.LongAddress | hardware/ril/altair-ril/SMS3GPP2.c:115-161 | an address of more than 19 digits is beyond the receiver's array |
| SmsTransport.UnknownTagTransparent | hardware/ril/altair-ril/SMS3GPP2.c:203-252 | a field with an unhandled tag changes nothing, at any field boundary of any message |
| SmsTransport.FieldExtends | hardware/ril/altair-ril/SMS3GPP2.c:203-252 | what a field means does not depend on what follows it |
| SmsTransport.DecodeComposes | hardware/ril/altair-ril/SMS3GPP2.c:203-252 | octets behind a decodable message are decoded as its continuation, less those that a skipped last field claims |
| SmsTransport.UnpackPack | hardware/ril/altair-ril/SMS3GPP2.c:282-333 | digits packed across octet boundaries unpack to themselves, whatever follows |
| SmsTransport.AddressRoundTrip | hardware/ril/altair-ril/SMS3GPP2.c:115-161 | every address of at most 19 digits comes back, with the cursor right behind it |
| SmsTransport.CauseNeverSet | hardware/ril/altair-ril/SMS3GPP2.c:224-244 | decoding never sets the cause codes option bit |
| SmsTransport.Serialize | hardware/ril/altair-ril/SMS3GPP2.c:396-460 | the in-place encoder writes exactly the encoding, reports its exact length, and touches nothing behind it |
| SmsTransport.AddrSerialize | hardware/ril/altair-ril/SMS3GPP2.c:282-333 | the address field, with the length patched in afterwards |
| SmsTransport.PackDigits | hardware/ril/altair-ril/SMS3GPP2.c:307-325 | the digit loop packs as `Pack` does |
| SmsTransport.Deserialize | hardware/ril/altair-ril/SMS3GPP2.c:184-255 | the cursor loop computes the decoding, reads within the data, and ends at its end or, behind a skipped last field, as far past it as that field claims |
| SmsTransport.AddrDeserialize | hardware/ril/altair-ril/SMS3GPP2.c:115-161 | the address and the cursor behind it |
| SmsTransport.UnpackDigits | hardware/ril/altair-ril/SMS3GPP2.c:131-158 | the digit loop with its early exit unpacks as `Unpack` does |
| SmsTransport.FieldDeserialize | hardware/ril/altair-ril/SMS3GPP2.c:206-252 | one turn of the TLV loop: the switch and where it leaves the cursor, which for a skipped field may be past the data |
| AtTokenizer.RoundTrip | hardware/ril/reference-ril/at_tok.c:51-110 | the fields of a printed line come back if and only if each is one the syntax can carry, and then nothing is left |
| AtTokenizer.HasMoreRoundTrip | hardware/ril/reference-ril/at_tok.c:207-211 | a caller that goes by `at_tok_hasmore` gets every field if and only if the last is not written as nothing |
| AtTokenizer.FieldRoundTrip | hardware/ril/reference-ril/at_tok.c:93-110 | the same equivalence for one field in any context |
| AtTokenizer.SpacesAre | hardware/ril/reference-ril/at_tok.c:71-80 | what is skipped as white space |
| AtTokenizer.Tokenizer.Take | hardware/ril/reference-ril/at_tok.c:196-205 | every token still reads, at the end, as when it was handed out: later writes alter none |
| AtTokenizer.Tokenizer.AtTokStart | hardware/ril/reference-ril/at_tok.c:51-69 | moves behind the first colon, or fails and leaves NULL |
| AtTokenizer.Tokenizer.NextTok | hardware/ril/reference-ril/at_tok.c:93-110 | the token and the rest, with nothing before the cursor changed |
| AtTokenizer.Tokenizer.AtTokNextStr | hardware/ril/reference-ril/at_tok.c:196-205 | fails exactly on a NULL cursor, else hands out the next token, closed before the new cursor |
| AtTokenizer.Tokenizer.AtTokHasMore | hardware/ril/reference-ril/at_tok.c:207-211 | says whether the cursor has text left |
| FcpParser.TemplateRoundTrip | hardware/ril/reference-ril/fcp_parser.c:38-126 | a well-formed template converts to the left-to-right fold over its properties, whatever stands behind it |
| FcpParser.SucceedsExactly | hardware/ril/reference-ril/fcp_parser.c:66-126 | conversion succeeds if and only if every property is acceptable |
| FcpParser.LastOneCounts | hardware/ril/reference-ril/fcp_parser.c:76-91 | size and identifier come from the last 0x80 and 0x83 |
| FcpParser.DataSizeAddsUp | hardware/ril/reference-ril/fcp_parser.c:92-123 | data_size adds up over all descriptors, modulo 256 |
| FcpParser.DescriptorTable | hardware/ril/reference-ril/fcp_parser.c:92-123 | the file type, structure, record size and sizes that each file descriptor octet gives, and its errors |
| FcpParser.PropertyTable | hardware/ril/reference-ril/fcp_parser.c:72-123 | what each tag does, and the error of each malformed property |
| FcpParser.NotATemplate | hardware/ril/reference-ril/fcp_parser.c:48-58 | anything else than a template is refused with the structure untouched |
| FcpParser.DigitsAre | hardware/ril/reference-ril/misc.c:99-111 | which characters are read as which digit |
| FcpParser.OctetDigits | hardware/ril/reference-ril/misc.c:113-172 | an octet has two digits, the high one first, written in upper case |
| FcpParser.TurnsBounded | hardware/ril/reference-ril/fcp_parser.c:66-126 | the loop ends on every input, four characters a turn at least |
| FcpParser.TlvsRoundTrip | hardware/ril/reference-ril/misc.c:113-150 | written TLVs are read back |
| FcpParser.HexRoundTrip | hardware/ril/reference-ril/misc.c:99-111 | pairs of `char2nib` invert `binaryToString` |
| FcpParser.BinaryToString | hardware/ril/reference-ril/misc.c:152-172 | writes the hexadecimal digits and the terminator, and nothing else |
| FcpParser.Response.FcpToTs51011 | hardware/ril/reference-ril/fcp_parser.c:38-126 | the return value and what is left in the structure, partial writes on failure included |
| FcpParser.Response.SetDescriptor | hardware/ril/reference-ril/fcp_parser.c:92-123 | the file descriptor case with its early failures |
| EdidExtension.EndsExactly | kernel_imx/drivers/video/mxc_edid.c:310-561 | the walk with its one-octet cursor ends on every content if and only if the timing offset is at most 222 |
| EdidExtension.VisitsHeaders | kernel_imx/drivers/video/mxc_edid.c:310-561 | over tiling data blocks the cursor visits exactly their headers and ends at the timings if and only if audio and speaker lengths are multiples of three |
| EdidExtension.ModesInOrder | kernel_imx/drivers/video/mxc_edid.c:319-336 | and then the new modes are the known VICs in order, followed by the detailed timings |
| EdidExtension.HdmiExactly | kernel_imx/drivers/video/mxc_edid.c:353-364 | a display counts as HDMI if and only if the HDMI identifier stands behind the header of a vendor block, which is that block's own when none is shorter than three octets |
| EdidExtension.HeaderTakenForTiming | kernel_imx/drivers/video/mxc_edid.c:568-577 | with offset 0 the header is appended as a timing |
| EdidExtension.TimingsExactly | kernel_imx/drivers/video/mxc_edid.c:565-577 | the timings are those of the places every 18 octets from the offset, before octet 110, whose first two octets are not both zero, in order, octet by octet |
| EdidExtension.ConfigInOrder | kernel_imx/drivers/video/mxc_edid.c:310-561 | over tiling, aligned blocks the configuration is what the last audio, speaker and vendor blocks say |
| EdidExtension.AudioExactly | kernel_imx/drivers/video/mxc_edid.c:506-542 | the channels are the most of an LPCM descriptor, and a rate or size is offered if and only if some LPCM descriptor has its bit |
| EdidExtension.SpeakersExactly | kernel_imx/drivers/video/mxc_edid.c:543-552 | the allocation is the first octet of the last triple |
| EdidExtension.AddressDigits | kernel_imx/drivers/video/mxc_edid.c:353-372 | the four digits of the physical address |
| EdidExtension.FlagsAre | kernel_imx/drivers/video/mxc_edid.c:296-305 | the four high bits of octet 3 |
| EdidExtension.OldRevision | kernel_imx/drivers/video/mxc_edid.c:296-310 | before revision 3 there are no data blocks |
| EdidExtension.ModesBounded | kernel_imx/drivers/video/mxc_edid.c:287-334 | there are no more new modes than octets in the video blocks and room for timings |
| EdidExtension.FitsExactly | kernel_imx/drivers/video/mxc_edid.c:287-334 | the new modes of a tiling, aligned extension fit their buffer if and only if its known VICs and its filled-in timings are together at most 50 |
| EdidExtension.TooManyModes | kernel_imx/drivers/video/mxc_edid.c:287-334 | a well-formed extension whose 62 modes do not fit the buffer of 50 |
| EdidExtension.ParseExtBlk | kernel_imx/drivers/video/mxc_edid.c:272-602 | the new mode list is the old one followed by the new modes; other extensions change nothing |
| EdidExtension.DataBlocks | kernel_imx/drivers/video/mxc_edid.c:310-561 | the loop over the data blocks computes the walk |
| EdidExtension.VideoBlock | kernel_imx/drivers/video/mxc_edid.c:319-336 | appends the known VICs of one block |
| EdidExtension.Config.AudioBlock | kernel_imx/drivers/video/mxc_edid.c:506-542 | the most channels and all rates and sizes of the block's LPCM descriptors, and a cursor rounded up to triples |
| EdidExtension.DetailedTimings | kernel_imx/drivers/video/mxc_edid.c:568-577 | appends the timings that are filled in |
| EdidExtension.Specs.Append | kernel_imx/drivers/video/mxc_edid.c:579-602 | the longer list holds the old modes, then the new ones |
| HdmiHotplug.SafeAlways | kernel_imx/drivers/video/mxc_hdmi.c:1244-1263 | in every run the PHY is on only with a cable and an unblanked display, the polarity bit is clear exactly while a cable counts as plugged in, and no muted interrupt is forgotten |
| HdmiHotplug.CableIsParity | kernel_imx/drivers/video/mxc_hdmi.c:2019-2064 | the cable state is the parity of the worker's runs, whatever else happens |
| HdmiHotplug.PhyAfterPlugin | kernel_imx/drivers/video/mxc_hdmi.c:1879-1925 | plugging in leaves the PHY on if and only if the driver is registered, the display is not blank, a mode is found, and it is not VGA found anew |
| HdmiHotplug.PhyExactly | kernel_imx/drivers/video/mxc_hdmi.c:2312-2395 | after any event of any run, when exactly the PHY is on |
| HdmiHotplug.Remembers | kernel_imx/drivers/video/mxc_hdmi.c:2001-2160 | in any run, blanking, registration, the scheduled worker and the masked interrupt are what the events so far say |
| HdmiHotplug.ModesAfterPlugin | kernel_imx/drivers/video/mxc_hdmi.c:1866-1925 | the mode set by a plug-in, and the two modes that it leaves remembered |
| HdmiHotplug.VgaDisplayStaysDark | kernel_imx/drivers/video/mxc_hdmi.c:1866-1925 | a display that offers VGA only gets no PHY in any run of plugging and unplugging |
| HdmiHotplug.DarkReachable | kernel_imx/drivers/video/mxc_hdmi.c:1866-1925 | a run from the initial state that ends registered, not blank, plugged in, with a mode and without PHY |
| HdmiHotplug.RegisteredWhileOn | kernel_imx/drivers/video/mxc_hdmi.c:2329-2333 | unregistering, and only that, leaves the PHY on without a framebuffer |
| HdmiHotplug.TornPlugOut | kernel_imx/drivers/video/mxc_hdmi.c:1987-1999 | for a scheduled plug-out, which undisturbed is the worker's step: safety survives an event in its middle if and only if the event does not power the PHY up |
| HdmiHotplug.TornReachable | kernel_imx/drivers/video/mxc_hdmi.c:2382-2390 | a reachable state with the plug-out scheduled, in the middle of which a resume breaks it |
| HdmiHotplug.RunKeeps | kernel_imx/drivers/video/mxc_hdmi.c:2312-2395 | the invariant behind all of these |
| HdmiHotplug.Hdmi.HotplugWorker | kernel_imx/drivers/video/mxc_hdmi.c:2001-2082 | toggles the cable state and the polarity bit, and unmutes the interrupt |
| HdmiHotplug.Hdmi.HandleInterrupt | kernel_imx/drivers/video/mxc_hdmi.c:2099-2160 | records the hot-plug, mutes the interrupt and schedules the worker |
| HdmiHotplug.Hdmi.FbEvent | kernel_imx/drivers/video/mxc_hdmi.c:2312-2395 | each framebuffer event has the effect of its step and keeps the invariant |
| HdmiHotplug.Hdmi.Connect | kernel_imx/drivers/video/mxc_hdmi.c:1927-1972 | plug-in with the mode that is found |
| HdmiHotplug.Hdmi.SetMode | kernel_imx/drivers/video/mxc_hdmi.c:1879-1925 | nothing, the same mode again, or a new one by way of VGA, against the two previous modes |
| HdmiHotplug.Hdmi.SetUp | kernel_imx/drivers/video/mxc_hdmi.c:2162-2246 | remembers the mode that is set up, not the VGA detour, and powers the PHY if it may |

## Left out

AT channel:
- Lines that begin with the SMS prompt: after one the reader's cursor stands behind the buffered text, on bytes of older reads, so they are excluded from the splitter theorem; up to the first prompt the session is modelled (`LinePrompt`), behind it not.
- LineCapacity.CapacityExactly: is about streams without a run of 8192 newlines, of which the reader drops whole buffers without loss, and like ChunkIndependence about those without a prompt at the start of a line or in an unclosed text of 8192 characters and more.
- NUL bytes in the stream: the reader works on C strings, and the stream is assumed to hold none.
- `at_handshake`, which takes only the inner mutex, and the several sessions that one process may open.
- The reference channel's concurrency: it has one mutex and a PPP checker thread; only its "+CMGR:" rule is modelled.
- Timeouts are a nondeterministic outcome of the wait, and a failed write is one of the write.
- `at_send_command_multiline` and `at_send_command` add no check of their own; `writeline` and `writeCtrlZ` count as one write.
- Allocation counts as succeeding, here and in every other module; freeing is not modelled.
- altair-ril.c, reference-ril.c and altair_at_socket.c: request plumbing and socket set-up.

PN533:
- Submitting a frame and setting `dev->cmd` are one step; the acknowledge frame between command and response is elided; a USB status is never -EINPROGRESS.
- A received frame that validates up to its length checksum is assumed to be as long as it says: the code reads what it says.
- Power-down and `pn533_dep_link_down`, which purge the queues, the ACR122 framing, polling, and target parsing.

Multitouch:
- Device classes with slot quirks are in the event model, but the theorems on runs are for the classes that look slots up by contact, as only those promise it.
- Values have no width; feature reports and input mapping are not part of this model.

SMS transport:
- Input on which the code fails an assertion, reads behind the data or writes behind an array decodes to Malformed; digits of 16 and more, 20-digit addresses and the 8-bit digit mode are not representable.
- The space accounting in `*bufferLen`, an unsigned number whose check against 0 never fails; the final length is modelled.

Tokenizer:
- `at_tok_nextint` and its variants, whose work is that of `strtol`; `at_tok_charcounter`.
- `isspace` is that of the C locale.

FCP converter:
- The reserved and access fields of the response, which are zeroed and never set; the logging that uses the stream's length.

EDID:
- EdidExtension.Config.VendorBlock: stops after the physical address, because the deep colour, latency and 3D fields do not move the cursor in the end.
- EdidExtension.ParseExtBlk: requires at most 50 new modes and an offset of at most 222, because the code checks neither (`TooManyModes`, `EndsExactly`); plain `char` is unsigned, as on ARM.
- A detailed timing is kept as its 18 octets: the macros that take it apart are not part of this model, nor are the contents of the standard modes.

HDMI:
- Events are handled one at a time, except in `TornPlugOut`; events of other framebuffers, EDID contents, clocks, CEC, audio and HDCP are not modelled, and of the registers only the hot-plug bits.
- Which mode of the display is nearest to the wanted one is a parameter; modes are compared as fb_mode_is_equal does, and setting a mode is taken to keep it equal to itself.

pn544.c, the sensor, user interface and build parts of the repository are not modelled.
