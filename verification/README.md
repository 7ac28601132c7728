# Verified models of a phone's radio daemon and HALs

A Dafny model of three parts of the repository, with proofs about whole runs, whole streams and whole
interleavings:

- **The GSM 07.10 multiplexer daemon** (`gsm0710muxd`), in the configuration of its `Android.mk`
  (`MUX_ANDROID`, `__MUXD_FLOWCONTROL__` and `MTK_GEMINI` on, the UT and IT switches off), with both framings
  of TS 27.010: basic (section 5.2.6) and advanced (section 5.2.7).
- **The GPS HAL's arithmetic and parsing** (`gps/hal`): GPS time to civil time, the NMEA line reader and the
  tokenizer.
- **The WiFi HAL's command lifetime** (`wifi_hal`): the handler table, the command table, and the reference
  counts that keep a command alive between dispatch, completion and cancel.

Where the source changes state step by step, so does the model: the ring, both decoders, the sender, the
channel list, the pending-frame list, the NMEA reader, the tokenizer and the WiFi tables are classes and
methods over arrays, fields and heap nodes, each proved against a specification function. What threads do
together is a state machine whose steps are the source's critical sections, and every lemma about it holds
after every possible sequence of steps.

## The modules

| file | what it holds |
|---|---|
| `octets.dfy` | octet type, frames, constants, address octet |
| `fcs.dfy` | frame check sequence: table, bit-serial register, what it accepts and detects |
| `stuffing.dfy` | byte stuffing of the advanced option |
| `wire_format.dfy`, `peer_frames.dfy` | the frames of both options in plain numbers: what is sent, what is made of any octets, and the frames of a peer |
| `ring.dfy`, `ring_threads.dfy` | the reassembly buffer as a class, and as shared by reader and assembler thread |
| `advanced_spec.dfy`, `advanced_decoder.dfy`, `advanced_stream.dfy` | the advanced receiver: octet machine, code, streams |
| `advanced_tags.dfy`, `advanced_threads.dfy` | the same receiver while the reader thread publishes during its calls |
| `basic_spec.dfy`, `basic_decoder.dfy`, `basic_stream.dfy` | the basic receiver: parse, code, streams |
| `basic_rejection.dfy` | the basic receiver on frames it rejects, and when its assertion fires |
| `basic_threads.dfy`, `basic_delivery.dfy`, `basic_losses.dfy` | the same receiver while the reader thread publishes during its calls: what it delivers of any octets, when it asserts on any frames, and what late flags cost |
| `advanced_drops.dfy`, `basic_drops.dfy` | what both receivers count as dropped, frames longer than the buffer among it |
| `sender.dfy`, `end_to_end.dfy` | frame writing and fragmentation; application data from one end to the other |
| `frame_list.dfy`, `flow_control.dfy`, `flow_refinement.dfy` | the circular list on the heap, receive flow control under its threads, and that the first does the steps of the second |
| `flow_ledger.dfy` | which payloads are due, and what flags and counters are, from the history of a channel alone |
| `channels_spec.dfy`, `channels.dfy` | SABM, UA, DM and DISC on the channel list |
| `channels_history.dfy` | what every flag is after a run, from the history alone |
| `gps_time.dfy`, `nmea.dfy` | GPS week to date; NMEA lines and fields |
| `wifi_tables.dfy`, `wifi_lifetime.dfy` | handler and command tables; the steps of the threads on them and the reference counts |
| `wifi_safety.dfy`, `wifi_discipline.dfy` | what the discipline of the callers keeps; that it is exact |

## Main results

1. *Self-stabilisation.* In every interleaving of the reader thread's publications with the advanced decoder's
   looks at the ring, from every state and behind any garbage, the frames lost of the stream that follows are
   counted exactly: one to get in step, and one for each flag that is published while the decoder stands between
   its flag-skipping loop and its main loop. Of the others, all that the receiver accepts are delivered in order,
   behind at most one frame that was not sent (`AdvancedThreads.RecoveryAccount`,
   `AdvancedThreads.SelfStabilisationInEveryInterleaving`). That window is, with a pending escape, the only place where
   an arrival can show (`AdvancedThreads.ArrivalsAreInvisibleIff`).
2. *Round trips.* What an application writes is what arrives at the other end, through fragmentation, framing,
   ring wrap-around and every chunking, in both modes (`EndToEnd.AdvancedDataArrives`,
   `EndToEnd.BasicDataArrives`, `BasicDecoder.ReceiveSent`); and a receiver that starts in step loses no frame of
   a stream in any interleaving (`AdvancedThreads.FramesArriveInEveryInterleaving`,
   `BasicDelivery.FramesArriveInEveryInterleaving`). What stands on the line is stated in numbers, octet by octet, for
   the sender (`WireFormat.SentInBasic`, `WireFormat.SentInAdvanced`) and for whatever a peer sends
   (`WireFormat.ParsedIffReceived`, `WireFormat.ClosedInNumbers`); the frames of a peer arrive too, with the
   command/response bit in either setting (`PeerFrames.PeersArriveInEveryInterleaving`, `PeerFrames.PeerPiecesArrive`).
3. *Flow control.* In every interleaving of assembler and retry threads, what reached the pty and what is still
   pending are together all accepted frames in order, and neither assertion fires
   (`FlowControl.DeliveryInOrderOnce`); and accepted are all that arrived but those over 4096 octets while flow control
   is off and, on the video channel, those whose write would have blocked (`FlowLedger.AcceptedAreDue`). All of this
   holds although the receive flags share an octet with the transmit flag, whose writes can undo theirs; what that can
   cost is exactly progress (`FlowControl.StuckIff`).
4. *The ring.* In every interleaving of reader and assembler it is a first-in first-out queue
   (`RingThreads.RingIsQueue`).
5. *FCS.* The table is the reversed CRC-8 bit by bit; the residue test lets exactly the sender's octet through;
   errors in one octet and of odd weight are found (`Fcs.FoldIsSerial`, `Fcs.ResidueAcceptsOnlyFrameFcs`,
   `Fcs.OneOctetErrorDetected`, `Fcs.OddErrorDetected`).
6. *Setup and lifecycle.* A completed setup means that every channel had its own SABM acknowledged if and only if
   every allocation of the run took its turn (`ChannelsSpec.SetupCompleteMeansAllAcked`). A close-down signal means
   that every channel to which a DISC went has been answered, and the wait ends with it if and only if the last
   answer is a UA (`ChannelsSpec.SignalMeansAllAnswered`, `ChannelsSpec.WaitEndsWithSignalIff`). All flags of all
   channels are what the history tells (`ChannelsHistory.RunIsTold`), a channel open exactly from a SABM or the UA to
   its SABM until the next DM, DISC or UA to a DISC (`ChannelsHistory.ChannelOpenIff`).
7. *Time and text.* GPS time becomes a valid date that lies exactly as far from 6 January 1980; NMEA lines and
   fields are those of the text (`GpsTime.GpsToUtcTime`, `Nmea.AllFittingDeliveredIff`, `Nmea.FieldsJoinUp`).
8. *Command lifetime.* With one event loop, which dispatches one event at a time, three rules for the callers are
   exact: a step of any thread keeps every continuation by the rules free of the use of a deleted command if and
   only if the step keeps the rules (`WifiDiscipline.StepSafeIff`, `WifiDiscipline.RunSafeIff`); and under them no
   command is deleted twice, and each exactly when its count is zero (`WifiSafety.CommandsAreSafe`).
9. *Rejected frames.* For every interleaving of publications with the basic decoder's looks at the ring, over any
   octets, the assertion fires if and only if one call drops three attempts in a row
   (`BasicDelivery.AssertsIffThreeDropped`). Over frames within their limits, whether their FCS agree or not, of which
   no start flag is taken for an address, these are three frames in a row that are to be rejected and that one call
   finds whole (`BasicDelivery.AssertsInEveryInterleavingIff`), and exactly the frames that agree are delivered
   (`BasicDelivery.AgreeingArriveInEveryInterleaving`). Every interleaving delivers what one run does that begins
   attempts at the flags taken for addresses as well (`BasicThreads.InterleavingAccount`); the first of them stands
   right behind a rejected frame (`BasicDelivery.FirstLossIsBehindRejected`), and what they cost is counted frame by
   frame (`BasicLosses.LossesInEveryInterleaving`). For pieces that arrive between calls all this is decided by the
   cutting alone (`BasicRejection.RejectionAssertsIff`).

## What does not hold, and when it does

Each of these is stated as a condition that is both necessary and sufficient, or with the runs that lead to it:

- The sender's FCS never covers the payload, the receivers' does for UI frames. A frame is accepted exactly
  when the two agree (`FcsAgrees`): always for other types and for empty payloads, and never for both of two
  different one-octet UI payloads (`BasicStream.EncodedIsParsed`, `AdvancedStream.BodyAcceptedIff`,
  `BasicStream.UiPayloadLost`).
- A frame of the peer on channel 62 with the command/response bit clear is lost in the basic option: its address octet
  is the flag, and is skipped (`PeerFrames.FlagAsAddress`). Those with every other address octet are read exactly if
  their check octets agree (`PeerFrames.PeerIsParsed`).
- The advanced decoder skips flags on entry to a call although an escape may be pending. A call boundary is
  invisible exactly in the states other than "escape read, nothing stored"
  (`AdvancedStream.BoundaryInvisibleIff`); there it can lose a valid frame
  (`AdvancedStream.CutBehindEscapeLosesFrame`).
- A flag that arrives while the advanced decoder stands between its two loops closes the frame it should open. On
  an empty ring an arrival can change delivery exactly there and at the pending escape above
  (`AdvancedThreads.ArrivalsAreInvisibleIff`). If each frame arrives just then, a receiver in step delivers none of
  them (`AdvancedThreads.LateFlagsCanLoseAll`). The basic decoder has such a window between skipping flags and
  copying the count, where an arriving flag is parsed as the address (`BasicThreads.ArrivalsAreInvisibleIff`).
  In step it can be met only behind a frame that is rejected, so frames whose FCS agree never meet it
  (`BasicDelivery.FirstLossIsBehindRejected`, `BasicDelivery.FramesArriveInEveryInterleaving`); but behind one that
  is rejected, a frame that agrees can be lost to it (`BasicDelivery.LateFlagLosesAgreeing`).
- The basic decoder's "no more than two drops in a row" is false of what a correct sender writes: three UI frames
  whose FCS disagree, read in one piece, fire the assertion (`BasicDelivery.ThreeUiFramesAssert`). Read one by one
  between calls no frames do (`BasicRejection.OneByOneNeverAsserts`), and yet the same three published one by one
  fire it if each arrives while the call that dropped the one before is still searching
  (`BasicDelivery.OneByOneInOneCallAsserts`). So it depends on what one call finds in the ring, exactly as far as
  `BasicDelivery.AssertsInEveryInterleavingIff` says, and between calls `BasicRejection.RejectionAssertsIff`. With
  late flags one rejected frame is enough: two frames that agree, each published into the window behind it, make up
  the three drops (`BasicDelivery.LateFlagsAssert`), and only `BasicDelivery.AssertsIffThreeDropped` still tells. The
  assertion is taken to end the daemon, as in the build without `__PRODUCTION_RELEASE__`.
- Receive flow control can stay off for good. The assembler writes the transmit flag under another lock, but all
  three flags are bits of one octet that it reads and writes back, so it can undo what a retry thread wrote in
  between. Flow control is off with no thread to turn it on, if and only if such a write has put it back off
  (`FlowControl.StuckIff`); nothing then reaches the pty any more (`FlowControl.StuckForGood`, and a run from the
  start in `FlowControl.LostWriteSticks`).
- The stuffed frame of a channel can outgrow the sender's buffer when `-f` sets `cmux_N1` below the channel's N1:
  every payload fits if and only if twice N1 and the escapes of the header stay within the room
  (`Sender.FrameFitsIff`), so from two octets above `cmux_N1` on a payload of escaped octets does not
  (`Sender.RoomByLimit`).
- A full ring can wedge the basic decoder exactly when some channel's N1 exceeds 2042
  (`BasicStream.FullRingProgressIff`); the configured values do not (`BasicStream.ConfiguredRingNeverWedges`).
- Setup can be complete with a channel never acknowledged: a pty that closes before the next allocation makes one
  channel count twice (`ChannelsSpec.ClosedPtyCountsTwice`, a run to completion without the last channel). It means
  what it says exactly if each allocation finds the daemon muxing and the ptys before it open
  (`ChannelsSpec.SetupCompleteMeansAllAcked`).
- The close-down wait can end without its signal: exactly if the last answer is a DM or DISC
  (`ChannelsSpec.WaitEndsWithSignalIff`).
- An NMEA line of exactly 128 characters is lost and takes the next line with it; all fitting lines arrive
  exactly when no such follower fits (`Nmea.AllFittingDeliveredIff`).
- `*hh` is cut off a sentence wherever a star stands third from the end, so a sentence without a checksum keeps its
  text exactly when none does, and a first or last character of the text is cut off exactly when it can be taken for a
  missing dollar or a missing part of the line end (`Nmea.StrippedWithoutChecksum`, `Nmea.StrippedWithChecksum`).
- Unregistering a handler undoes its registration exactly when the event had none before; otherwise the newest
  handler stays (`WifiTables.UnregisterUndoesIff`).
- The use of a deleted command can be brought about, by steps that all keep the rules, exactly after a step that
  breaks one: a request with the id of a command that can still complete, a cancel while the request is inside
  `start()` with its entry in the table, or a handler for an event that has one, with room for it and the command
  in the table (`WifiDiscipline.StepSafeIff`).
- A live command can lose its handler to a finished one. A step takes it away exactly if it is its own completion
  or cancel, or that of a command of the same event that has lost its own handler
  (`WifiSafety.HandlerLostIff`, and a run by the rules in `WifiSafety.LateEventTakesHandler`).

## Model

| member | source | states |
|---|---|---|
| Fcs.CalcCrc | gsm0710muxd/src/gsm0710muxd.c:399-408 | The loop computes the check octet of the specification, for words of every length |
| Fcs.ExtendCrc | gsm0710muxd/src/gsm0710muxd.c:1441-1443 | The receiver's loop over a UI payload carries the register on over exactly that payload |
| Fcs.TableIsShift8 | gsm0710muxd/src/gsm0710muxd.c:145-170 | Each of the 256 table entries is eight shifts of the reversed polynomial's register |
| Fcs.FoldIsSerial | gsm0710muxd/src/gsm0710muxd.c:399-408 | The table-driven register equals the bit-serial one on words of every length, from every start |
| Fcs.FrameFcsIsCheckOctet | gsm0710muxd/src/gsm0710muxd.c:399-408 | The octet the sender computes is the complement of the bit-serial register preset to ones, for words of every length |
| Fcs.ResidueAcceptsOnlyFrameFcs | gsm0710muxd/src/gsm0710muxd.c:1447 | Behind a header the 0xCF test accepts an octet if and only if it is the one the sender computes |
| Fcs.OneOctetErrorDetected | gsm0710muxd/src/gsm0710muxd.c:1447 | A change confined to one octet of an accepted word, anywhere in it, is rejected |
| Fcs.OddErrorDetected | gsm0710muxd/src/gsm0710muxd.c:1583 | Flipping any odd number of bits of an accepted word makes it rejected |
| Stuffing.PutOctet | gsm0710muxd/src/gsm0710muxd.c:423-432 | Writing the octet and over-writing it when the symbol scan finds it appends its stuffed form and disturbs nothing else |
| Stuffing.FillAdvFrameBuf | gsm0710muxd/src/gsm0710muxd.c:417-434 | The buffer gains exactly the stuffed data at the offset, and the result is its length |
| Stuffing.StuffedOctets | gsm0710muxd/src/gsm0710muxd.c:417-434 | Exactly six octets are escaped, and these are the pairs that stand for them |
| Stuffing.StuffAppend | gsm0710muxd/src/gsm0710muxd.c:625-630 | Stuffing header, payload and FCS one after the other is stuffing the whole |
| Stuffing.UnescapeStuff | gsm0710muxd/src/gsm0710muxd.c:1604-1613 | The receiver's unescaping inverts stuffing, whatever follows on the line |
| Stuffing.StuffInjective | gsm0710muxd/src/gsm0710muxd.c:417-434 | Different data never look alike once stuffed |
| Stuffing.StuffIsClean | gsm0710muxd/src/gsm0710muxd.c:417-434 | Of the special octets only the escape itself appears in stuffed data, and never last |
| Stuffing.StuffLength | gsm0710muxd/src/gsm0710muxd.c:3350-3352 | Stuffing adds one octet per escaped one, so it at most doubles the length the buffer is sized by |
| Ring.Gsm0710Buffer.constructor | gsm0710muxd/src/gsm0710muxd.c:1145-1156 | A new buffer is empty, valid and looking for a flag |
| Ring.Gsm0710Buffer.BufferInc | gsm0710muxd/src/gsm0710muxd.h:178-181 | One step of the read pointer removes exactly the oldest octet, also at the wrap |
| Ring.Gsm0710Buffer.Write | gsm0710muxd/src/gsm0710muxd.c:1175-1213 | The longest prefix that fits is appended to the contents, in one copy or two, and nothing unread is touched |
| RingThreads.StepKeeps | gsm0710muxd/src/gsm0710muxd.c:1175-1213 | Every single step of the reader (room seen, each octet copied, count published) or the assembler keeps the ring's invariant |
| RingThreads.RingIsQueue | gsm0710muxd/src/gsm0710muxd.c:1482-1486 | In every interleaving, what was taken, what is unread and what the reader still holds are together all that was fetched, in order; the pointers agree modulo 2048 whenever no publication is under way; and what the assembler looked at is still there |
| RingThreads.NothingIsLost | gsm0710muxd/src/gsm0710muxd.c:1175-1213 | In every interleaving all that the device gave, read after read, has been taken, is unread, or is still with the reader, in order |
| RingThreads.NothingIsCutOff | gsm0710muxd/src/gsm0710muxd.c:2489-2493 | A reader that fetched no more than the room it saw has every octet stored, however much is consumed meanwhile |
| AdvancedSpec.FramesAppend | gsm0710muxd/src/gsm0710muxd.c:1514-1621 | The receiver's deliveries over two stretches of stream are those of the first and then of the second from where the first left it |
| AdvancedSpec.ScanConsumes | gsm0710muxd/src/gsm0710muxd.c:1543-1620 | A call removes octets from the front only, returns no frame only when all is read, and what it leaves continues the same run |
| AdvancedDecoder.BodyOkByParts | gsm0710muxd/src/gsm0710muxd.c:1558-1583 | The stepwise check of address, control and UI payload decides exactly what the residue test of the covered word does |
| AdvancedDecoder.CloseFrame | gsm0710muxd/src/gsm0710muxd.c:1552-1594 | At a closing flag the frame is returned and counted, dropped and counted, or too short to matter; it is returned exactly if the unescaped octets are those of a frame, whose channel is a quarter of the first, rounded down |
| AdvancedDecoder.AdvancedGetFrame | gsm0710muxd/src/gsm0710muxd.c:1514-1621 | One call during which nothing arrives, goto and all, ends with the frame, state, rest and drop count of the specification, terminates, and counts each frame once; a frame returned was closed by the last flag read, and is what stood in front of it |
| AdvancedDecoder.ExtractFrames | gsm0710muxd/src/gsm0710muxd.c:2047-2056 | Calling until no frame comes empties the ring, yields all frames of the octet machine's run over it and counts its drops |
| AdvancedDecoder.ReceiveChunks | gsm0710muxd/src/gsm0710muxd.c:2472-2493 | Writing pieces to the ring and draining it in turn delivers the frames of the chunked stream, counts its drops and leaves its final state |
| AdvancedStream.BoundaryInvisibleIff | gsm0710muxd/src/gsm0710muxd.c:1534-1544 | A call boundary changes nothing that may follow if and only if the state is not the one with an escape read and nothing stored |
| AdvancedStream.ChunkingIsInvisible | gsm0710muxd/src/gsm0710muxd.c:1514-1621 | For every stream without an escape directly before a flag, deliveries and final state do not depend on how it is cut into pieces that arrive between calls |
| AdvancedStream.StreamRoundTrip | gsm0710muxd/src/gsm0710muxd.c:623-634 | Of stuffed bodies that fit the buffer, those the receiver accepts come back as their frames, once and in order, for every chunking between calls; the others leave it in step |
| AdvancedStream.WireResyncs | gsm0710muxd/src/gsm0710muxd.c:1514-1621 | From every decoder state one whole frame brings the receiver in step, at the cost of at most one delivered frame |
| AdvancedStream.SelfStabilisation | gsm0710muxd/src/gsm0710muxd.c:1514-1621 | When octets arrive between calls only: after any state, any garbage and any cutting, all accepted frames of the stream that follows are delivered from its second frame on at the latest, behind at most one other frame, and what the garbage itself delivers is what it would have alone |
| AdvancedStream.CutBehindEscapeLosesFrame | gsm0710muxd/src/gsm0710muxd.c:1534-1537 | The excluded case is real: a valid frame is returned from one piece and lost when the call boundary falls behind its opening escape |
| AdvancedStream.BodyAcceptedIff | gsm0710muxd/src/gsm0710muxd.c:1571-1575 | A sent frame is accepted if and only if the sender's and the receiver's FCS agree, and then reads back unchanged |
| AdvancedStream.EndToEnd | gsm0710muxd/src/gsm0710muxd.c:623-634 | Of all frames written that fit, whether their FCS agree or not, exactly those that agree come out of the decoder, in order, for every chunking; so all of them if all agree |
| AdvancedDrops.EveryFrameIsCounted | gsm0710muxd/src/gsm0710muxd.c:1576-1594 | In step, for every cutting between calls, exactly the frames that are not accepted are counted as dropped, so each frame is counted once |
| AdvancedDrops.OversizedIsDropped | gsm0710muxd/src/gsm0710muxd.c:1596-1602 | A frame longer than the buffer delivers nothing, is counted once, and leaves the receiver in step for the next |
| AdvancedDrops.ShortAndLong | gsm0710muxd/src/gsm0710muxd.c:1514-1621 | Of a stream of frames of all lengths those that fit and are accepted are delivered, and the others counted |
| AdvancedTags.StreamAccount | gsm0710muxd/src/gsm0710muxd.c:1519-1557 | From every state, and however the flags of a stream fare at the two loops, exactly the frames counted by the late flags, and one to get in step where the next flag does not open a frame, are missing at its beginning; of the others all accepted ones are delivered |
| AdvancedThreads.StepKeeps | gsm0710muxd/src/gsm0710muxd.c:1519-1545 | Every publication and every look of the decoder at the ring keeps: what was delivered and where it stands are those of the octets read, each taken as its tag says, and as many are late as flags were published into the window |
| AdvancedThreads.FramesArriveInEveryInterleaving | gsm0710muxd/src/gsm0710muxd.c:1514-1621 | From a state in step, with arrivals at any moment of any call, the accepted frames of a stream arrive whole and in order, rejected ones among them or not, and none of its flags is ever late |
| AdvancedThreads.InterleavingIsInvisible | gsm0710muxd/src/gsm0710muxd.c:1519-1545 | Without a late flag, and without an escape before a flag, every interleaving delivers what one run over the octets does |
| AdvancedThreads.RecoveryAccount | gsm0710muxd/src/gsm0710muxd.c:1519-1557 | In every interleaving, from every state and garbage, the frames missing of the stream behind it are counted exactly: one to get in step where the next flag does not open a frame, and one for each late flag; of the rest all accepted frames arrive in order behind at most one other frame |
| AdvancedThreads.SelfStabilisationInEveryInterleaving | gsm0710muxd/src/gsm0710muxd.c:1514-1621 | If no flag is published into the window, at most the first frame behind the garbage is lost, in every interleaving, and of the others those accepted are delivered |
| AdvancedThreads.CallIsGetFrame | gsm0710muxd/src/gsm0710muxd.c:1514-1621 | A call into which nothing is published comes to the specified call, so the steps are those of the code |
| AdvancedThreads.ArrivalsAreInvisibleIff | gsm0710muxd/src/gsm0710muxd.c:1534-1545 | On an empty ring, whatever is published next and whatever follows is delivered as if all had been there, if and only if the decoder stands neither between its loops behind a start flag nor at the start of a call with an escape pending |
| AdvancedThreads.LateFlagsCanLoseAll | gsm0710muxd/src/gsm0710muxd.c:1542-1557 | From the start there is an interleaving in which a whole stream of frames, all accepted ones included, is read and none is delivered |
| BasicSpec.TryStable | gsm0710muxd/src/gsm0710muxd.c:1254-1480 | Octets that arrive later never change the outcome of an attempt that had one, and an attempt that wants more resumes as if they had been there |
| BasicSpec.TryShrinks | gsm0710muxd/src/gsm0710muxd.c:1495-1505 | Every frame and every drop takes octets off the front, so the recursion makes progress |
| BasicSpec.RunAppend | gsm0710muxd/src/gsm0710muxd.c:1237-1506 | Decoding a stream in two stretches is decoding it in one: same frames, same drops, same end |
| BasicSpec.CallFollowsRun | gsm0710muxd/src/gsm0710muxd.c:1249-1252 | A call that does not assert returns the run's next frame and leaves the rest of the run; it asserts when its third attempt in a row is a drop |
| BasicSpec.LoopAssertsIff | gsm0710muxd/src/gsm0710muxd.c:2047-2056 | The extraction loop asserts if and only if one run over the buffer, with no calls in it, meets three drops in a row |
| BasicSpec.LoopFollowsRun | gsm0710muxd/src/gsm0710muxd.c:2047-2056 | What the loop delivers is the beginning of the run's frames, and all of them unless it asserts |
| BasicDecoder.FindStart | gsm0710muxd/src/gsm0710muxd.c:1254-1290 | Flag search and flag skipping lead to the octets the specification parses, or to an empty ring |
| BasicDecoder.CopyOut | gsm0710muxd/src/gsm0710muxd.c:1423-1440 | The payload is copied whole, in two parts if it wraps, and the local pointer ends behind it |
| BasicDecoder.ReadHeader | gsm0710muxd/src/gsm0710muxd.c:1310-1366 | Address, control, one- or two-octet length and FCS register are those of the contents, whatever the wrap; in numbers the channel is a quarter of the address octet, and the length as its field says |
| BasicDecoder.ExamineFrame | gsm0710muxd/src/gsm0710muxd.c:1292-1480 | The in-place parse over local pointers returns frame, drop or shortage exactly as the parse of the contents, with the pointer where the rest begins; a frame is what the octets in front of it say |
| BasicDecoder.BasicGetFrame | gsm0710muxd/src/gsm0710muxd.c:1237-1506 | The recursive call on the ring, while nothing arrives, ends as the specified call: same frame, flag, rest, drop count and assertion; each frame is counted once, and one returned stood at the end of what was read |
| BasicDecoder.LoopStep | gsm0710muxd/src/gsm0710muxd.c:2047-2056 | One round of the extraction loop yields the run's next frame and keeps its end, or ends it without leaving a frame behind |
| BasicDecoder.ExtractFrames | gsm0710muxd/src/gsm0710muxd.c:2047-2056 | The loop yields the frames of the specified loop; it asserts exactly as that does, and otherwise leaves what the run leaves and counts its drops |
| BasicDecoder.ReceiveStream | gsm0710muxd/src/gsm0710muxd.c:2472-2493 | Reading a stream of any length between calls, as much at a time as the ring has room, never stalls; for the pieces read it asserts exactly when the specification over these pieces does, and yields its frames |
| BasicDecoder.ReceiveSent | gsm0710muxd/src/gsm0710muxd.c:1237-1506 | All frames sent and read between calls come out of the ring, in order and unchanged, and nothing is left of them |
| BasicStream.LengthDecodes | gsm0710muxd/src/gsm0710muxd.c:564-572 | Every length from 0 to 32767 decodes from its one- or two-octet field, and the field's size is recognised |
| BasicStream.EncodedIsParsed | gsm0710muxd/src/gsm0710muxd.c:546-612 | An encoded frame is parsed back, consuming exactly its own octets, if and only if the two FCS agree; otherwise it is dropped up to its end flag |
| BasicStream.UiPayloadLost | gsm0710muxd/src/gsm0710muxd.c:1441-1443 | Of any two different one-octet UI payloads at least one is rejected |
| BasicStream.StreamIsParsed | gsm0710muxd/src/gsm0710muxd.c:546-612 | A sequence of sendable frames, payloads with flags included, is parsed back in order, without a drop and with nothing left |
| BasicDrops.RejectedAreCounted | gsm0710muxd/src/gsm0710muxd.c:1495-1505 | Over frames within their limits the run drops, and so counts, exactly those whose check octets disagree |
| BasicDrops.CallDrops | gsm0710muxd/src/gsm0710muxd.c:1495-1505 | A call counts the drops of the run up to its frame or its end, and one that asserts three in all |
| BasicStream.PiecesAreOneRun | gsm0710muxd/src/gsm0710muxd.c:1237-1506 | However a stream is cut, decoding its pieces one after the other, each read between calls, yields a beginning of the frames of the whole, and all of them unless the assertion fires at some piece |
| BasicStream.FullRingProgressIff | gsm0710muxd/src/gsm0710muxd.h:53-55 | Every call on a full ring frees room if and only if every channel's N1 is at most 2042 |
| BasicStream.FullRingCall | gsm0710muxd/src/gsm0710muxd.c:1254-1480 | Under that bound a call on a full ring frees room, whether it was searching a flag or behind one |
| BasicStream.ConfiguredRingNeverWedges | gsm0710muxd/src/gsm0710muxd.c:286-336 | The configured N1 values meet the bound |
| BasicRejection.RunOfFrames | gsm0710muxd/src/gsm0710muxd.c:1237-1506 | Over frames within their limits, and the beginning of one more, the run delivers exactly those whose FCS agree, and meets three drops in a row exactly if three frames in a row are rejected |
| BasicRejection.RejectionAssertsIff | gsm0710muxd/src/gsm0710muxd.c:1249-1252 | For every such sequence and every cutting into pieces that arrive between calls, the assertion fires if and only if some piece ends three rejected frames in a row; otherwise exactly the agreeing frames are delivered |
| BasicRejection.AllAtOnceAssertsIff | gsm0710muxd/src/gsm0710muxd.c:1249-1252 | Read in one piece between calls, frames fire the assertion if and only if three in a row are rejected |
| BasicRejection.OneByOneNeverAsserts | gsm0710muxd/src/gsm0710muxd.c:1249-1252 | Read one by one between calls, no frames whatever fire it |
| BasicRejection.SentPiecesArrive | gsm0710muxd/src/gsm0710muxd.c:1237-1506 | Frames whose FCS agree arrive, all of them, for every cutting into pieces that arrive between calls, and never fire it |
| BasicThreads.StepKeeps | gsm0710muxd/src/gsm0710muxd.c:1254-1302 | Every publication and every look of the decoder at the ring keeps, while no flag has come late: what was delivered and what the unread octets will deliver are one run over all that was published |
| BasicThreads.InterleavingIsInvisible | gsm0710muxd/src/gsm0710muxd.c:1254-1302 | Without a late flag every interleaving delivers what one run over the octets does |
| BasicThreads.InterleavingAccount | gsm0710muxd/src/gsm0710muxd.c:1254-1506 | For every stream and every interleaving: what was delivered, and what the unread octets will deliver, is the run over all octets published in which an attempt begins at the marked octets too; only flags are marked, none unless one came late, and without a mark it is the plain run |
| BasicThreads.StepKeepsAccount | gsm0710muxd/src/gsm0710muxd.c:1254-1506 | Every publication and every look of the decoder at the ring keeps that account |
| BasicDelivery.FramesArriveInEveryInterleaving | gsm0710muxd/src/gsm0710muxd.c:1237-1506 | From the start, with arrivals at any moment of any call, sent frames arrive in order, the assertion never fires, no flag is late, and once all is read all have arrived |
| BasicDelivery.StepInStep | gsm0710muxd/src/gsm0710muxd.c:1254-1480 | Over frames accepted or not, every step that takes no flag for an address keeps the decoder in step; one that does takes the start flag of the frame right behind a rejected one |
| BasicDelivery.AgreeingArriveInEveryInterleaving | gsm0710muxd/src/gsm0710muxd.c:1237-1506 | Over frames within their limits, agreeing or not, in every interleaving in which no flag is taken for an address: those of the frames read that agree are delivered in order, and all of them once everything is read |
| BasicDelivery.AssertsIffThreeDropped | gsm0710muxd/src/gsm0710muxd.c:1495-1505 | For any octets and every interleaving, late flags or not, the assertion fires if and only if one call drops three attempts in a row |
| BasicDelivery.AssertsInEveryInterleavingIff | gsm0710muxd/src/gsm0710muxd.c:1495-1505 | Over frames within their limits, agreeing or not, in every interleaving in which no flag is taken for an address: it fires if and only if one call examines three frames in a row that are to be rejected, each with all of it published |
| BasicDelivery.RejectsThreeAsserts | gsm0710muxd/src/gsm0710muxd.c:1495-1505 | Three such frames examined in one call fire it in every interleaving, whatever flags were taken before |
| BasicDelivery.FirstLossIsBehindRejected | gsm0710muxd/src/gsm0710muxd.c:1285-1302 | In every interleaving the first flag taken for an address, if any, is the start flag of a frame whose predecessor is rejected, and all agreeing frames before it are delivered |
| BasicDelivery.OneByOneInOneCallAsserts | gsm0710muxd/src/gsm0710muxd.c:1254-1283 | Any frame to be rejected, published three times one by one while a call searches, fires the assertion without a late flag |
| BasicDelivery.LateFlagLosesAgreeing | gsm0710muxd/src/gsm0710muxd.c:1285-1302 | Behind any frame to be rejected there is an interleaving in which a frame that agrees is read and lost: nothing is delivered and nothing asserted |
| BasicDelivery.LateFlagsAssert | gsm0710muxd/src/gsm0710muxd.c:1285-1302 | One frame to be rejected and two that agree, each published into the window, fire the assertion |
| BasicDelivery.ThreeUiFramesAssert | gsm0710muxd/src/gsm0710muxd.c:1441-1443 | On every channel with N1 of at least 1 there is a UI frame of one octet that, sent three times and read in one piece, fires the assertion |
| BasicLosses.LossesInEveryInterleaving | gsm0710muxd/src/gsm0710muxd.c:1285-1302 | For frames without inner flags, agreeing or not, and every interleaving that reads them all: exactly the agreeing frames are delivered but those within the octets that an attempt at a late start flag takes off, in whose place stands what that attempt finds; without a late flag they are all the agreeing ones |
| BasicThreads.CallIsGetFrame | gsm0710muxd/src/gsm0710muxd.c:1237-1506 | A call into which nothing is published comes to the specified call |
| BasicThreads.ArrivalsAreInvisibleIff | gsm0710muxd/src/gsm0710muxd.c:1285-1302 | On an empty ring, whatever is published next and whatever follows is delivered as in one run, if and only if the decoder does not stand between skipping flags and copying the count |
| Octets.AddressFacts | gsm0710muxd/src/gsm0710muxd.c:547 | The address octet sent is never the flag, and the receiver's decoding takes it back to the channel |
| Octets.AddressValue | gsm0710muxd/src/gsm0710muxd.c:503-547 | The address octet sent to channel c is 4c + 3 |
| Octets.DecodedChannel | gsm0710muxd/src/gsm0710muxd.c:79 | From every address octet, whatever its two low bits, the channel decoded is a quarter of it, rounded down |
| Octets.ControlOctets | gsm0710muxd/src/gsm0710muxd.c:77 | The control octets of the six frame types, without and with the poll/final bit |
| WireFormat.SentInBasic | gsm0710muxd/src/gsm0710muxd.c:546-612 | Every frame sent is flag, 4c + 3, control octet, the length in one or two octets, payload, check octet of the head, flag |
| WireFormat.SentInAdvanced | gsm0710muxd/src/gsm0710muxd.c:623-634 | Every frame sent is flag, stuffed body, flag, no other flag between, and the body 4c + 3, control octet, payload and check octet of the first two |
| WireFormat.AttemptInNumbers | gsm0710muxd/src/gsm0710muxd.c:1292-1480 | For all octets the numbers in them decide between frame, drop and shortage, and where the rest begins |
| WireFormat.ParsedIffReceived | gsm0710muxd/src/gsm0710muxd.c:1292-1480 | A frame is read off the octets if and only if they are its octets, with any setting of the low address bits and of the poll/final bit, and it is within the limit of its channel |
| WireFormat.CallReturnsFromLine | gsm0710muxd/src/gsm0710muxd.c:1237-1506 | A frame that a call returns stood at the end of the octets read, with its channel, control octet and payload |
| WireFormat.ClosedInNumbers | gsm0710muxd/src/gsm0710muxd.c:1552-1594 | A closing flag delivers a frame if and only if the unescaped octets are its octets; fewer than three are ignored |
| WireFormat.ScanClosesFrame | gsm0710muxd/src/gsm0710muxd.c:1514-1621 | A frame that a call returns is the one that the last flag read closes |
| PeerFrames.PeerBodyAccepted | gsm0710muxd/src/gsm0710muxd.c:1558-1594 | A peer's frame, with any address octet, is accepted exactly if the check octets agree, and handed to the channel it names |
| PeerFrames.PeersRoundTrip | gsm0710muxd/src/gsm0710muxd.c:1514-1621 | The accepted frames of a peer's stream arrive, in order, for every cutting between calls |
| PeerFrames.PeersArriveInEveryInterleaving | gsm0710muxd/src/gsm0710muxd.c:1514-1621 | And in every interleaving of publications with the looks of the decoder |
| PeerFrames.PeerIsParsed | gsm0710muxd/src/gsm0710muxd.c:1237-1480 | In the basic option a peer's frame with another address octet than the flag is read exactly if the check octets agree, with the channel it names |
| PeerFrames.FlagAsAddress | gsm0710muxd/src/gsm0710muxd.c:1285-1290 | With the flag for an address octet it is not |
| PeerFrames.PeerPiecesArrive | gsm0710muxd/src/gsm0710muxd.c:1237-1506 | The frames of a peer's stream arrive, in order, for every cutting into pieces between calls, and the assertion stays silent |
| Sender.Transmitter.WriteFrame | gsm0710muxd/src/gsm0710muxd.c:492-646 | The line takes exactly the frame meant, cut to the channel's N1 and with the poll bit given back at most once, in numbers too: address octet 4c + 3, control octet with the poll bit as owed; the result is the payload's length; or a write fell short and the result is 0 |
| Sender.PollInNumbers | gsm0710muxd/src/gsm0710muxd.c:549-556 | A pending poll bit is given back exactly with a UIH or UI frame whose first octet is 0xE1 or 0xE3, as 0xFF or 0x13 |
| Sender.Transmitter.BuildAdvanced | gsm0710muxd/src/gsm0710muxd.c:623-632 | If each N1 meets the exact bound of the room, the frame buffer always holds the whole stuffed frame between its flags, in numbers too |
| Sender.FrameFitsIff | gsm0710muxd/src/gsm0710muxd.c:3350-3352 | Every payload up to N1 fits the buffer sized by `cmux_N1` if and only if twice N1 and the escapes of the header stay within the room |
| Sender.RoomByLimit | gsm0710muxd/src/gsm0710muxd.c:3296 | So every N1 up to `cmux_N1` has room, and none from two above it on |
| Sender.WireLayout | gsm0710muxd/src/gsm0710muxd.c:625-632 | Stuffing by parts lays out the stuffed body, within the bounds the buffer is sized by |
| Sender.Transmitter.HandleChannelData | gsm0710muxd/src/gsm0710muxd.c:672-693 | For any write outcomes the loop ends, with octets left exactly if five attempts made no progress; when the device takes everything and N1 is positive nothing remains and the line holds exactly the fragments |
| Sender.FragmentsJoinUp | gsm0710muxd/src/gsm0710muxd.c:672-685 | The fragments are the ceiling of length over N1 many, all but the last full, none empty, and their payloads join up to the input |
| EndToEnd.AdvancedDataArrives | gsm0710muxd/src/gsm0710muxd.c:623-693 | Application data cut into advanced frames and chunked at will between calls comes out at the other end whole |
| EndToEnd.BasicDataArrives | gsm0710muxd/src/gsm0710muxd.c:546-693 | Application data cut into basic frames and read in any pieces between calls comes out at the other end whole, and the assertion does not fire |
| FrameList.PushFrame | gsm0710muxd/src/gsm0710muxd_fc.c:120-132 | Storing into the old sentinel and returning a new one appends to the queue and keeps the cycle |
| FrameList.PopFrame | gsm0710muxd/src/gsm0710muxd_fc.c:134-147 | Unlinking behind the sentinel returns the oldest frame and leaves the others in order |
| FrameList.CleanNodes | gsm0710muxd/src/gsm0710muxd_fc.c:149-157 | Cleaning destroys every pending frame once, in order, and leaves an empty cycle |
| FrameList.IsEmpty | gsm0710muxd/src/gsm0710muxd_fc.c:159-163 | The sentinel points to itself exactly when nothing is pending |
| FrameList.Channel.CacheFrameData | gsm0710muxd/src/gsm0710muxd_fc.c:214-236 | A frame is queued last and counted, or dropped exactly when the total would pass 4096 |
| FrameList.Channel.CacheRemainingFrameData | gsm0710muxd/src/gsm0710muxd_fc.c:238-258 | The rest of a frame becomes the only pending one with its resume point, or the assertion fires exactly when something was pending |
| FrameList.Channel.TakeFirst | gsm0710muxd/src/gsm0710muxd_fc.c:280-289 | A retry thread takes the oldest frame and the resume point, which is cleared |
| FrameList.Channel.TakeNext | gsm0710muxd/src/gsm0710muxd_fc.c:334-337 | It goes on with the next frame, or turns flow control on exactly when none is left |
| FlowControl.StepKeeps | gsm0710muxd/src/gsm0710muxd_fc.c:267-366 | Every step of the assembler or of any retry thread keeps the invariant, with the octet of flags that the assembler reads and writes back among them |
| FlowControl.DeliveryInOrderOnce | gsm0710muxd/src/gsm0710muxd.c:2085-2140 | In every interleaving what the pty took and what is outstanding are all accepted payloads in order; no assertion has fired; no two writers are active; the total is at most 4096, and from the first blocked write on it bounds the outstanding octets |
| FlowControl.QuietMeansDelivered | gsm0710muxd/src/gsm0710muxd_fc.c:374-414 | With the assembler idle and flow control on, every accepted payload has reached the pty |
| FlowLedger.AcceptedAreDue | gsm0710muxd/src/gsm0710muxd.c:2085-2140 | In every interleaving the accepted payloads and the one being written are all that arrived, in order, less exactly those that came with flow control off and would have passed 4096 counted octets and those whose write would have blocked on channel 24; flags, counter and list are what the history tells |
| FlowLedger.QuietMeansDueDelivered | gsm0710muxd/src/gsm0710muxd_fc.c:374-414 | With the assembler idle and flow control on, exactly these are on the pty |
| FlowLedger.AllArrivalsAreDue | gsm0710muxd/src/gsm0710muxd.c:2085-2140 | Off the video channel, if no payload passes the limit, nothing that arrives is lost |
| FlowControl.StuckIff | gsm0710muxd/src/gsm0710muxd.c:1884-1914 | In every run flow control is off with no thread left to turn it on, if and only if the assembler has written the flags back as off after a thread turned flow control on |
| FlowControl.StuckForGood | gsm0710muxd/src/gsm0710muxd.c:1884-1914 | After such a write no continuation writes anything to the pty |
| FlowControl.LostWriteSticks | gsm0710muxd/src/gsm0710muxd.h:415 | There is such a run from the start |
| FlowRefinement.CacheArrival | gsm0710muxd/src/gsm0710muxd_fc.c:214-236 | Beside a state of the interleaved model, the code on the heap queues or drops as the model's step does |
| FlowRefinement.CacheRest | gsm0710muxd/src/gsm0710muxd_fc.c:238-258 | Beside a reachable state the code's assertion cannot fire and list, total and resume point become the step's |
| FlowRefinement.StartDraining | gsm0710muxd/src/gsm0710muxd_fc.c:280-289 | Beside a reachable state there is a first frame, and it is the one the step gives the thread |
| FlowRefinement.GoOnDraining | gsm0710muxd/src/gsm0710muxd_fc.c:334-337 | The next frame, or its absence, is the step's |
| ChannelsSpec.StepKeeps | gsm0710muxd/src/gsm0710muxd.c:2189-2324 | Every received frame and local action keeps: a pending DISC only on open channels, never on channel 0, no assertion |
| ChannelsSpec.LifecycleInvariant | gsm0710muxd/src/gsm0710muxd.c:700-735 | So does every run from the start |
| ChannelsSpec.SignalMeansAllAnswered | gsm0710muxd/src/gsm0710muxd.c:2779-2832 | In every run, a signal after the close-down began means that every channel it marked has since had a UA, DM or DISC |
| ChannelsSpec.WaitEndsWithSignalIff | gsm0710muxd/src/gsm0710muxd.c:2193-2229 | In every run, the wait ends at an answer to the last channel still marked, no signal came before, and it comes with that answer if and only if this is a UA |
| ChannelsSpec.LastUaSignals | gsm0710muxd/src/gsm0710muxd.c:2193-2229 | The UA to a DISC raises it if and only if no other channel still waits |
| ChannelsSpec.OtherEndsAreSilent | gsm0710muxd/src/gsm0710muxd.c:2271-2308 | A DM or DISC ends a channel's wait without raising the signal |
| ChannelsSpec.SetupStepKeeps | gsm0710muxd/src/gsm0710muxd.c:1118-1125 | Every step keeps the count of acknowledgements; while allocations take their turn the channels asked are the first configured ones, and once one does not, one asked channel is missing for good |
| ChannelsSpec.SetupCompleteMeansAllAcked | gsm0710muxd/src/gsm0710muxd.c:2231-2258 | In every run whose setup is complete, the control channel and every configured channel had its own SABM acknowledged if and only if each allocation found the daemon muxing and the ptys before it open |
| ChannelsSpec.OpenPtysTakeTurns | gsm0710muxd/src/gsm0710muxd.c:1109-1138 | It is so in every run in which no pty closes and each allocation finds the daemon muxing |
| ChannelsSpec.ClosedPtyCountsTwice | gsm0710muxd/src/gsm0710muxd.c:2231-2258 | There is a run from the start to a complete setup in which the last configured channel is never acknowledged |
| ChannelsHistory.RunIsTold | gsm0710muxd/src/gsm0710muxd.c:2189-2324 | In every run from the start all flags of all channels, the state of the multiplexer, the channels asked and acknowledged, and the counts of acknowledgements and signals are what the frames received and the local actions tell |
| ChannelsHistory.ChannelOpenIff | gsm0710muxd/src/gsm0710muxd.c:2189-2324 | After every run a channel is open if and only if a SABM on it, or the UA to its own SABM, was followed by no DM, no DISC and no UA to a DISC |
| ChannelsHistory.MuxStateIs | gsm0710muxd/src/gsm0710muxd.c:2279-2296 | After every run the multiplexer is closed by the peer if the last to decide was a DISC on the open control channel, closing if it was a DM on the control channel while not open, and multiplexing if and only if there was neither |
| Channels.Daemon.LogicalChannelClose | gsm0710muxd/src/gsm0710muxd.c:700-735 | Closing resets that channel's flags and pty and no other channel's |
| Channels.Daemon.AllocChannel | gsm0710muxd/src/gsm0710muxd.c:1109-1138 | While muxing, the two searches establish the first configured channel without a pty, or, with another channel free, the last configured one again; otherwise nothing is established and setup ends |
| Channels.Daemon.OpenControlChannel | gsm0710muxd/src/gsm0710muxd.c:2985-2987 | Setup begins with the control channel waiting for the answer to its SABM |
| Channels.Daemon.HandleUa | gsm0710muxd/src/gsm0710muxd.c:2190-2270 | The code for a UA, with its scan for outstanding DISCs, is the specified step |
| Channels.Daemon.HandleDm | gsm0710muxd/src/gsm0710muxd.c:2271-2286 | A DM closes an open channel, or tells that the control channel was refused |
| Channels.Daemon.HandleDisc | gsm0710muxd/src/gsm0710muxd.c:2287-2308 | A DISC closes an open channel and is answered by a UA, or by a DM; on channel 0 the peer closes the multiplexer |
| Channels.Daemon.HandleControlFrame | gsm0710muxd/src/gsm0710muxd.c:2189-2324 | Each control octet, with the poll/final bit or without, leads to its own step and answer, and any other changes nothing |
| Channels.Daemon.CloseAllChannels | gsm0710muxd/src/gsm0710muxd.c:2774-2802 | Close-down marks exactly the open channels with a pty as waiting, in the basic option only, and counts them |
| GpsTime.ElapsedIsStrictlyMonotone | gps/hal/gps_mtk_aosp.c:4970-5062 | Valid dates and times are in calendar order exactly when their elapsed seconds are, and equal exactly when those are |
| GpsTime.EpochIsZero | gps/hal/gps_mtk_aosp.c:4970-4991 | Exactly midnight of 6 January 1980 has no seconds elapsed |
| GpsTime.YearAndDay | gps/hal/gps_mtk_aosp.c:4990-5020 | The year loop terminates with the year and day of the year that the Gregorian day count gives, century rule included |
| GpsTime.MonthAndDay | gps/hal/gps_mtk_aosp.c:5023-5048 | The table edited for leap years yields the valid month and day of that day of the year |
| GpsTime.TimeOfDay | gps/hal/gps_mtk_aosp.c:5050-5053 | Hour, minute and second are in range and make up the whole seconds of the day |
| GpsTime.GpsToUtcTime | gps/hal/gps_mtk_aosp.c:4970-5062 | For every non-negative week and time of week the result is a valid date and time that lies exactly so many whole seconds behind 1980-01-06 |
| Nmea.NmeaReader.AddC | gps/hal/gps_mtk_aosp.c:2433-2458 | One character moves buffer, position and overflow flag as specified and parses the line it completes |
| Nmea.NmeaReader.AddAll | gps/hal/gps_mtk_aosp.c:3902-3908 | Feeding all characters of one read yields the sentences of the specification and leaves its state, a sentence begun included |
| Nmea.NmeaReader.AddReads | gps/hal/gps_mtk_aosp.c:3902-3908 | Successive reads yield what the reader delivers read by read |
| Nmea.ReadsJoinUp | gps/hal/gps_mtk_aosp.c:3902-3908 | For every text and every cutting into reads the sentences of the successive reads join up to those of its lines that the line rule lets through |
| Nmea.ReaderDeliversLines | gps/hal/gps_mtk_aosp.c:2433-2458 | For any text the sentences are those of its lines that fit and do not follow an overflow left by a line of exactly 128 characters |
| Nmea.AllFittingDeliveredIff | gps/hal/gps_mtk_aosp.c:2433-2458 | All lines that fit are delivered if and only if none of them follows a line of exactly 128 characters that was itself read |
| Nmea.FieldsJoinUp | gps/hal/gps_mtk_aosp.c:1344-1362 | Fields contain no comma and, joined by commas, are the text but for one final comma |
| Nmea.NmeaTokenizer.Init | gps/hal/gps_mtk_aosp.c:1322-1366 | The tokens are the first 24 fields of the stripped sentence, in order |
| Nmea.NmeaTokenizer.Get | gps/hal/gps_mtk_aosp.c:1368-1380 | An index within the count gives that field, every other index the empty one |
| Nmea.StrippedWithChecksum | gps/hal/gps_mtk_aosp.c:1328-1342 | With or without dollar, carriage return and newline in front and behind, the text is what is left exactly unless it begins like the missing dollar or the checksum ends like the missing part of the line end |
| Nmea.StrippedWithoutChecksum | gps/hal/gps_mtk_aosp.c:1328-1342 | Without a checksum likewise, exactly unless the text begins or ends like what is missing or has a star third from its end |
| WifiTables.HalInfo.RegisterHandler | wifi_hal/common.cpp:52-75 | A handler for a command goes behind the others, or the table is full and unchanged |
| WifiTables.HalInfo.RegisterVendorHandler | wifi_hal/common.cpp:77-101 | A handler goes behind the others, or the table of 64 is full and unchanged |
| WifiTables.HalInfo.UnregisterHandler | wifi_hal/common.cpp:103-127 | The first handler of the command goes and the others keep their order; vendor commands are refused |
| WifiTables.HalInfo.UnregisterVendorHandler | wifi_hal/common.cpp:129-150 | The first handler of that vendor and subcommand goes and the others keep their order |
| WifiTables.HalInfo.Dispatch | wifi_hal/wifi_hal.cpp:473-501 | The loop with its skipped entries finds the first handler of the event |
| WifiTables.HalInfo.RegisterCmd | wifi_hal/common.cpp:153-173 | A command goes behind the others, or the table is full and unchanged |
| WifiTables.HalInfo.UnregisterCmd | wifi_hal/common.cpp:175-198 | The first entry of the id is returned and removed, the others keep their order; the read of one entry behind a full table is not modelled |
| WifiTables.HalInfo.GetCmd | wifi_hal/common.cpp:200-214 | The first entry of the id is returned |
| WifiTables.EarlierWins | wifi_hal/wifi_hal.cpp:473-501 | A later registration never takes an event away from an earlier one |
| WifiTables.OtherEventsUndisturbed | wifi_hal/common.cpp:129-150 | Removing a handler changes the handler of no other event |
| WifiTables.UnregisterUndoesIff | wifi_hal/common.cpp:77-150 | Registering and unregistering restores the table if and only if the event had no handler; otherwise the new one stays |
| WifiTables.LifetimeTable | wifi_hal/common.cpp:77-150 | On vendor handlers this table finds and removes as the lifetime model's does |
| WifiSafety.StepKeeps | wifi_hal/rtt.cpp:586-626 | Every step of request, dispatch, completion or cancel that keeps the rules of the callers keeps the invariant, with one dispatch under way at most |
| WifiSafety.CommandsAreSafe | wifi_hal/cpp_bindings.h:248-260 | In every interleaving by the rules no step uses a deleted command, each is deleted at most once and exactly at count zero, and each count is at most one owner plus at most one dispatch under way |
| WifiSafety.StepKeepsOneDispatch | wifi_hal/wifi_hal.cpp:384-433 | Since the event loop runs each callback to its end before it receives again, no step brings two dispatches under way at once |
| WifiLifetime.OwnerStep | wifi_hal/rtt.cpp:594-622 | The owner's token of a command is made once, and every step only moves it or gives it back |
| WifiLifetime.CommandsAreRequests | wifi_hal/rtt.cpp:600-609 | In every run the commands are the requests made, in order, and keep their ids and events |
| WifiSafety.HandlerLostIff | wifi_hal/common.cpp:129-150 | From every state of the invariant, so every one that a run by the rules reaches, a step takes the handler of a command away if and only if it is its own completion or cancel, or that of a command of the same event without a handler, while this one is the first for the event |
| WifiSafety.LateEventTakesHandler | wifi_hal/rtt.cpp:586-594 | There is a run by the rules, its events dispatched one after the other, in which a command in the table loses its handler to an event of a cancelled one, and no thread will complete it |
| WifiDiscipline.StepSafeIff | wifi_hal/rtt.cpp:586-626 | From every state of the invariant, so every one that a run by the rules reaches, a step keeps all continuations by the rules, with events dispatched one after the other, free of the use of a deleted command if and only if it keeps the rules |
| WifiDiscipline.RunSafeIff | wifi_hal/rtt.cpp:586-626 | A run keeps the rules if and only if none of its steps opens a way, by the rules, to the use of a deleted command |
| WifiDiscipline.CancelDuringRequestFaults | wifi_hal/rtt.cpp:603-622 | A cancel of a command whose request is inside start() opens a way to the use of the deleted command |
| WifiDiscipline.LiveDuplicateFaults | wifi_hal/rtt.cpp:603-610 | So does a request with the id of any command that can still complete: the completion takes the entry of the new one |
| WifiDiscipline.SecondRegistrationFaults | wifi_hal/common.cpp:77-101 | So does a second handler for an event: the cancel removes the first, and leaves that of the deleted command |
| WifiDiscipline.DeletedHandlerFaults | wifi_hal/wifi_hal.cpp:473-501 | A handler whose command is deleted is reached, however many stand before it, by events dispatched one after the other |

## Left out

- Ring.Gsm0710Buffer.Write: the class takes a write as one step; the copy, the publication and the assembler's steps between them are interleaved in `ring_threads.dfy`, under sequential consistency.
- AdvancedDecoder.AdvancedGetFrame: the method takes a call as one step on the ring; publications between its looks at the count are interleaved in `advanced_threads.dfy`, each look and its move of the pointer being one step.
- BasicDecoder.BasicGetFrame: a call by itself, as for the advanced option; publications during a call are in `basic_threads.dfy`. N1 is a total function of the channel; the source indexes `channellist` with channels up to 63 although it has 32 entries.
- BasicSpec.LoopAssertsIff: the assertion ends the run, as it does in the build without `__PRODUCTION_RELEASE__`; with it the macro only asks for the exit and the call goes on, which is not modelled.
- Channels.Daemon.HandleControlFrame: channels below 32, for the same reason; each received frame is one step.
- Sender.Transmitter.WriteFrame: `write_frame_lock` is not modelled; the source returns with it held after a short write, so nothing is claimed about what other threads can do then.
- The receipt of the poll bit, which sets what `WriteFrame` gives back: `pollPending` is given.
- PeerFrames.PeerPiecesArrive: frames whose check octets disagree, and arrivals during a call, are left to `WireFormat.AttemptInNumbers` and `BasicThreads.InterleavingAccount`, which hold for all octets.
- Sender.Transmitter.BuildAdvanced: what the source does to the memory behind the buffer when the bound of `FrameFitsIff` fails is not modelled.
- Sender.Transmitter.HandleChannelData: after a short write nothing is claimed about the line, on which the source leaves part of a frame.
- FlowControl.DeliveryInOrderOnce: pty writes take any prefix, are interrupted or would block; other errors, and closing or reopening the channel while a retry thread runs, are not modelled. The wait for the earlier thread's signal may end at any time. `rx_fl_total` is an upper bound, since draining never lowers it. Transmit flow control itself is left out, but for its writes to the octet it shares with the receive flags.
- The order of the FC-on and FC-off messages: they may cross, so nothing is claimed about the modem's view.
- Frames for the video channel are discarded when its pty would block; they count as not accepted.
- ChannelsSpec.SetupCompleteMeansAllAcked: one setup, with at most one allocation per configured channel; the timer that supervises it is left out.
- GpsTime.GpsToUtcTime: integers are unbounded, so the overflow of week times seven beyond 300 million weeks is not modelled; seconds are `real`, since rounding does not matter; `mktime` and time zones are left out.
- Nmea.NmeaReader.AddC: the parser behind the reader is left out, with its refusal of sentences shorter than nine characters.
- BasicLosses.LossesInEveryInterleaving: frames with a flag between their first octet and their last are left to `BasicThreads.InterleavingAccount`, since behind a late flag such a frame can be parsed from its inside.
- WifiTables.HalInfo.UnregisterCmd: the source moves one entry more than it holds, and with a full table reads one behind the array; the model moves only entries of the table. Removal by command object, the second overload, is left out.
- WifiSafety.CommandsAreSafe: commands, counts and tables are values of one state, since threads interleave on them; each table access and count change is one step, though the source guards only the handler table by a lock and the command table by none; which results an event carries is left open, so any event may complete a command, one that has completed before too.
- `ScanCommand` and the other commands, which register handlers again or on failure, netlink attributes, and the copying of results.
- Thread liveness: wake-ups that the "no frame yet" returns do not send, and mutex waits.
- Device I/O, ptys, symlinks, AT chat, signals, properties, logging; `malloc` succeeds.
- The code under `#if 0`, `__MUX_UT__` and `__MUX_IT__`.
- The rest of the GPS HAL (sockets, EPO download, floating-point coordinates, satellite lists, the byte codec, which would add only easy round trips).
- `liblights`, `power`, `memtrack`, `audio`, `atv`, `libbt-vendor`, `libcorkscrew`, `libxlog`, `wpa_supplicant`: plumbing, or facts that would only add easy members.
