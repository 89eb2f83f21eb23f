# A verified model of the DLMS meter reader

This project models, in Dafny, the protocol stack of a smart-meter reader from serial octets to readings, and proves
what the stack is for: frames are checked, built, found and parsed correctly; a polling session obeys its protocol
against any meter; pushed values are paired with the right codes; and what a caller or the dashboard sees is what the
meter sent. Read-only C buffers are sequences of octets, written buffers are arrays, structures and statics that the
C code updates are classes, and each imperative method is proved against a function whose properties are then proved
as lemmas. What rests on octets and numbers of the protocol is stated in written-out octets and numbers as well, apart
from the constants and tables that the model computes with.

| module | models |
|---|---|
| `Fcs16` | FCS-16: the table, its bit-serial meaning, what errors it notices |
| `Hdlc`, `HdlcParser`, `HdlcRoundTrip` | the type-3 frame builders and parser of `dlms_hdlc.c` (Annex H.4 of ISO/IEC 13239) and their round trips |
| `FrameFinder`, `Splitting` | the flag-delimited frame finder, and splitting a stream at a separator |
| `Receiver` | `wait_for_frame`: reception under any chunking |
| `Axdr`, `AxdrDecoder`, `Readings` | the A-XDR grammar, its recursive parser, and the decoder that fills a reading |
| `Association` | AARQ, AARE and read requests |
| `PollSession`, `PollReadings`, `PollClient` | the poll cycle: its specification and safety, registered entries and look-ups, and the client that does it in place |
| `PushBuffer`, `PushLine`, `PushSession`, `PushPipeline`, `PushTask` | the E450 push: sliding buffer, which frames it never breaks, definition/value machine, all with parser and cache end to end, and the loop that does it in place |
| `ReadingCache` | the 32-slot dashboard cache |
| `Rings`, `AnsiStripper` | the debug and trace rings, their readouts, and the removal of colour codes |
| `LineAssembler` | the line splitter of `am550_ascii_task` |
| `Obis` | OBIS codes as text |
| `Bytes`, `Buffers` | octets, and filling a buffer through a running index |

What comes from outside is a parameter: the reads that happen during each wait (any number, any cut; a wait that ends
without a frame is a timeout) and whether the lock of a reading slot is obtained. Theorems about the poll cycle hold
for every such parameter, so for every meter, well behaved or not. `PollClient.Client.waits` and the ghost fields
`trace` and `wire` have no counterpart in the C structure: they tell which arrivals a wait meets and record what was
exchanged and sent.

Where code and comments differ the model follows the code. The comments of `dlms_client.c` and `dlms_client.h` speak of
GET requests; what is sent is a read request by short name. `dlms_types.h` lists bit strings, dates and times as data
types; the decoder accepts none of them. The capacity guard of `build_frame` is two octets too low for a 4-octet
address with information; no caller passes a buffer small enough to matter. The test `tx_len == 0` after building the
SNRM cannot fire, since 33 octets always fit the transmit buffer.

Some promises hold only under a condition, which is stated and proved to be exact: an APDU survives the second LLC
removal (`HdlcRoundTrip.IframeRoundTrip`), a built frame is found whole (`Receiver.BuiltFrameFoundIff`), a frame behind
noise is received however it is cut (`Receiver.ReceivedIff`, `Receiver.ArrivesIff`), the push buffer loses no body
(`PushBuffer.RefinesIff` of a run, `PushLine.KeptIff` of the frames sent), a continuation frame of a push keeps its
records (`PushSession.HeaderlessIntactIff`), and lines do not depend on the reads (`LineAssembler.LinesIndependentIff`).
`Receiver.StrayFlagLosesFrame`, `PushSession.IntegersTakenForNotification`, `PushSession.StructureTakenForArrayHead`,
`PushLine.FatalRun` and `LineAssembler.LongLineDependsOnChunking` give inputs for which they fail.

## Model

| member | source | states |
|---|---|---|
| `Fcs16.ComputeCrc16` | components/dlms_client/dlms_hdlc.c:42-48 | The table loop ends with the frame check of the whole input, `Crc16`, which `Fcs16.CheckIsBitSerial` gives in numbers |
| `Fcs16.VerifyCrc16` | components/dlms_client/dlms_hdlc.c:50-56 | The loop decides whether data and check verify, `Verify`, which `Fcs16.CheckIsBitSerial` gives in numbers |
| `Fcs16.TableIsBitSerial` | components/dlms_client/dlms_hdlc.c:7-48 | The 256-entry table computes, for every register and every input, what shifting bit by bit with the reflected polynomial 0x8408 computes (Appendix C.2 of RFC 1662) |
| `Fcs16.CheckIsBitSerial` | components/dlms_client/dlms_hdlc.c:42-56 | The check of any data is the complement of the bit-serial register started at FFFF, and data verify if and only if that register ends at F0B8 |
| `Fcs16.VerifyIffTrailer` | components/dlms_client/dlms_hdlc.c:42-56 | Two octets behind any data pass verification if and only if they are the low and the high octet of its check |
| `Fcs16.RunInjective` | components/dlms_client/dlms_hdlc.c:42-48 | No octet string merges two register states, so an error is never forgotten by what follows |
| `Fcs16.NeverGoodTwice` | components/dlms_client/dlms_hdlc.c:50-56 | No string and its one-octet extension both verify |
| `Fcs16.UndetectedIff` | components/dlms_client/dlms_hdlc.c:42-56 | A changed string of the same length still verifies if and only if the difference pattern runs from register 0 back to 0: the code is linear |
| `Fcs16.TwoAdjacentOctetsDetected` | components/dlms_client/dlms_hdlc.c:42-56 | Every change of one octet or of two adjacent octets, at any place of a string of any length, is noticed |
| `Fcs16.BurstDetected` | components/dlms_client/dlms_hdlc.c:42-56 | Every error burst of at most 16 bits, however it lies across octets, is noticed |
| `Fcs16.OddErrorsDetected` | components/dlms_client/dlms_hdlc.c:42-56 | Every odd number of flipped bits, anywhere, is noticed |
| `Hdlc.EncodeAddress` | components/dlms_client/dlms_hdlc.c:58-74 | Writes the address octets of a 1, 2 or 4 octet server address behind what is there, and nothing for any other length |
| `HdlcRoundTrip.AddressesReadBack` | components/dlms_client/dlms_hdlc.c:58-85 | Read as seven-bit groups, the address octets give back the logical and the physical address, in this order, and the client address, if and only if these fit their 7 or 14 bits |
| `HdlcRoundTrip.FrameOctets` | components/dlms_client/dlms_hdlc.c:76-115 | A frame octet by octet: 7E, A0 plus the upper bits of the length, its lower bits, destination, source, control octet, a check over these and the information if there is any, a check over all, low octets first, and 7E |
| `Hdlc.BuildFrame` | components/dlms_client/dlms_hdlc.c:76-115 | Below the capacity guard nothing is written and 0 returned; otherwise the buffer starts with exactly the type-3 frame `Wire` and is otherwise untouched, provided the frame truly fits |
| `Hdlc.GuardSufficesIff` | components/dlms_client/dlms_hdlc.c:77 | The guard `12 + info_len` keeps the frame inside its buffer if and only if not: 4-octet address, information present and less than `14 + info_len` room |
| `Hdlc.BuildSnrm` | components/dlms_client/dlms_hdlc.c:117-120 | SNRM with its 21 parameter octets |
| `Hdlc.BuildDisc` | components/dlms_client/dlms_hdlc.c:122-124 | DISC |
| `Hdlc.BuildIframe` | components/dlms_client/dlms_hdlc.c:126-141 | An I-frame with N(S), N(R), P set and the LLC header before the APDU; nothing for an APDU over 509 octets |
| `HdlcParser.InfoLengthNeverUnderflows` | components/dlms_client/dlms_hdlc.c:182-189 | Where header check and frame check both verify, the subtraction that gives the information length is not below zero |
| `HdlcRoundTrip.ControlMeaning` | components/dlms_client/dlms_hdlc.c:174-183 | Kind and sequence numbers as arithmetic on the control octet: even is an I-frame, 1 modulo 16 an RR, 13 a UI, N(S) and N(R) are its bits 1 to 3 and 5 to 7 |
| `HdlcRoundTrip.ControlPlace` | components/dlms_client/dlms_hdlc.c:162-168 | On every input the control octet is taken from behind the second octet with its low bit set, or, if there are not two, from the first octet of the frame check |
| `HdlcRoundTrip.StripHeader` | components/dlms_client/dlms_hdlc.c:192-201 | The headers E6 E7 00, E6 E6 00 and E0 x 00 are removed, and with each an E0 x 00 behind it |
| `HdlcRoundTrip.NoHeaderKept` | components/dlms_client/dlms_hdlc.c:192-201 | Information that starts with none of these stays as it is |
| `HdlcParser.ParseFrame` | components/dlms_client/dlms_hdlc.c:143-215 | On every input, every access in bounds: accepts exactly when `Parse` does, and then the structure shows the control octet, kind, sequence numbers and information, whose meaning in octets `HdlcRoundTrip.ControlMeaning`, `HdlcRoundTrip.StripHeader` and `HdlcRoundTrip.NoHeaderKept` give |
| `HdlcRoundTrip.AcceptedShape` | components/dlms_client/dlms_hdlc.c:143-215 | Soundness and completeness for every input: accepted with this result if and only if it is flags around a covered part with its correct check, of format type 3, with a true length field and, where there is information, a correct header check, and the result is the octet in the place of the control octet and the information after LLC removal |
| `HdlcRoundTrip.FiveOctetsRefused` | components/dlms_client/dlms_hdlc.c:144-152 | The shortest string the length test lets through is never accepted |
| `HdlcRoundTrip.ParseWire` | components/dlms_client/dlms_hdlc.c:143-215 | Every type-3 frame with two address fields of any lengths, any control octet and any information whose length the 11-bit field can hold is parsed to its control octet and its information, up to the LLC headers the parser removes |
| `HdlcRoundTrip.ParseBuilt` | components/dlms_client/dlms_hdlc.c:76-215 | Parsing so undoes building, for every supported server address, control octet and information |
| `HdlcRoundTrip.IframeRoundTrip` | components/dlms_client/dlms_hdlc.c:126-215 | An I-frame comes back with its N(S), N(R) and APDU; the APDU is intact if and only if it does not look like the second LLC header of the E450 (at least 3 octets, first 0xE0, third 0x00), and loses exactly 3 octets otherwise |
| `HdlcRoundTrip.ControlFramesRoundTrip` | components/dlms_client/dlms_hdlc.c:117-215 | SNRM and DISC come back as sent and are taken for no other kind |
| `FrameFinder.FindFrame` | components/dlms_client/dlms_hdlc.c:217-239 | The scan returns 0 with the span `Find`, or -1 if there is none |
| `FrameFinder.FindIsLeftmost` | components/dlms_client/dlms_hdlc.c:217-239 | The span is the leftmost pair of neighbouring flags more than one apart, and there is one if and only if something is found |
| `FrameFinder.FindStable` | components/dlms_client/dlms_hdlc.c:217-239 | Later bytes never change what has been found |
| `FrameFinder.FindTakesFirstBody` | components/dlms_client/dlms_hdlc.c:217-239 | What is found is the first nonempty body of the buffer split at its flags, and what follows the removal (closing flag kept) splits into the remaining ones |
| `Receiver.Client.Append` | components/dlms_client/dlms_client.c:112-117 | A read is appended, truncated to the space left |
| `Receiver.Client.WaitForFrame` | components/dlms_client/dlms_client.c:99-146 | For every sequence of reads before the timeout: true, with the parsed frame, exactly when `Wait` yields one |
| `Receiver.AnyChunking` | components/dlms_client/dlms_client.c:99-146 | A valid frame without a flag in its body, behind flag-free noise and before anything, is returned under every way of cutting the bytes into reads |
| `Receiver.ArrivesIff` | components/dlms_client/dlms_client.c:99-146 | Such a frame is returned under every way of cutting it if and only if noise and frame fit the receive buffer; if they do not, it is lost under every one |
| `Receiver.BuiltFrameArrives` | components/dlms_client/dlms_client.c:99-146 | Any type-3 frame without an inner flag, whatever its addresses, behind flag-free noise arrives with its control octet and information, under every chunking |
| `Receiver.IframeArrives` | components/dlms_client/dlms_client.c:99-146 | An I-frame one side builds is received by the other with its sequence numbers and APDU, under every chunking |
| `Receiver.NothingElseReceived` | components/dlms_client/dlms_client.c:99-146 | For all bytes and every way of cutting them: what is returned is the first frame that parses when the bytes are searched from frame to frame, or nothing |
| `Receiver.ReceivedIff` | components/dlms_client/dlms_client.c:99-146 | For all bytes that contain such a frame: it is returned under every way of cutting them into reads of at most a given size (256 in the code) if and only if it comes in time, that is, unless a frame before it that does not parse may be read to the end together with it |
| `Receiver.NeverReceivedIff` | components/dlms_client/dlms_client.c:99-146 | All bytes are received as nothing under every way of cutting them if and only if no frame among them parses |
| `Receiver.FrameReceivedIff` | components/dlms_client/dlms_client.c:99-146 | The same for a valid frame behind any noise, flags included: always returned if and only if the search arrives at it first and in time |
| `Receiver.AnyReadsIff` | components/dlms_client/dlms_client.c:99-146 | Over reads of any size: always returned if and only if what is found first parses to the same |
| `Receiver.FillFlagsHarmless` | components/dlms_client/dlms_client.c:122-139 | Flag-free noise and any number of fill flags before a frame do no harm, however all is cut |
| `Receiver.StrayFlagLosesFrame` | components/dlms_client/dlms_client.c:122-139 | A flag and junk that does not parse use up the opening flag of the frame behind them: for every such junk and frame the frame is lost under every way of cutting the bytes |
| `Receiver.BuiltFrameFoundIff` | components/dlms_client/dlms_hdlc.c:76-239 | A type-3 frame is cut out whole if and only if it has no flag between its flags (there is no octet transparency) |
| `Axdr.ParseValue` | components/dlms_client/dlms_axdr.c:151-309 | On every input at most one call per octet and one more, nested at most one deeper than half the octets, although a count can be 65535; success uses between 1 and all octets |
| `Axdr.FixedParses` | components/dlms_client/dlms_axdr.c:34-115 | Each type of fixed size takes exactly its octets: 03, 0F, 11, 16 one, 10 and 12 two, 05, 06, 17 four, 14, 15, 18 eight; fewer are refused |
| `Axdr.OthersParse` | components/dlms_client/dlms_axdr.c:117-309 | 00 is null, 09, 0A and 0C are strings as long as their length says, 01 and 02 have as many elements as it says, and every other tag is refused |
| `Axdr.LengthOctetsMean` | components/dlms_client/dlms_axdr.c:8-26 | Lengths in octets: below 80 as it is, 81 with one octet, 82 with two, the upper one first, and nothing else |
| `Axdr.NestingBoundReached` | components/dlms_client/dlms_axdr.c:286-300 | The bounds on calls and nesting are reached |
| `Axdr.LengthSound` | components/dlms_client/dlms_axdr.c:8-26 | Every accepted length is the short form or a one- or two-octet long form of that number (sections 8.1.3.4 and 8.1.3.5 of ITU-T X.690) |
| `Axdr.LengthComplete` | components/dlms_client/dlms_axdr.c:8-26 | Every such form of a number it can hold is read back as that number |
| `Axdr.ParseSound` | components/dlms_client/dlms_axdr.c:151-309 | Success means that the octets used encode one valid value tree |
| `Axdr.ParseComplete` | components/dlms_client/dlms_axdr.c:151-309 | Every valid tree in any accepted length forms is read back, whatever follows it |
| `Axdr.AcceptsIff` | components/dlms_client/dlms_axdr.c:151-309 | Success with n octets used if and only if the first n octets encode some valid tree |
| `Axdr.DependsOnUsedOnly` | components/dlms_client/dlms_axdr.c:151-309 | The result depends on the octets used only |
| `Axdr.PrefixFree` | components/dlms_client/dlms_axdr.c:151-309 | No encoding is a proper prefix of another |
| `AxdrDecoder.DecodeUnsigned` | components/dlms_client/dlms_axdr.c:55-94 | The loop over octets yields their big-endian value |
| `AxdrDecoder.ParseInto` | components/dlms_client/dlms_axdr.c:151-309 | The recursive decoder returns the octets used or -1 as `ParseValue` says, and leaves in the reading the type octet and the decoded value, strings cut to 127 octets |
| `AxdrDecoder.ParseItemsInto` | components/dlms_client/dlms_axdr.c:286-300 | The loop over the elements uses the octets of exactly as many values as the count says, or fails |
| `AxdrDecoder.TwosComplementRoundTrip` | components/dlms_client/dlms_axdr.c:34-63 | Reading back the octets of any integer in the signed range of n octets gives that integer |
| `AxdrDecoder.BigEndianCons` | components/dlms_client/dlms_axdr.c:40-94 | The first octet of a number weighs most |
| `AxdrDecoder.FixedStores` | components/dlms_client/dlms_axdr.c:165-265 | What every fixed-size type leaves in a reading, in numbers: booleans, signed and unsigned integers of each size, floating-point bits |
| `AxdrDecoder.OthersStore` | components/dlms_client/dlms_axdr.c:267-303 | Strings leave their first 127 octets, everything else nothing |
| `AxdrDecoder.IntegersDecode` | components/dlms_client/dlms_axdr.c:165-249 | Every integer of the nine integer types, each with its size, encoded big-endian, is decoded to itself (64-bit unsigned values as their signed counterpart) |
| `Association.BuildAarq` | components/dlms_client/dlms_client.c:155-212 | Writes exactly the request `Aarq` for no authentication or for a password |
| `Association.AarqOctets` | components/dlms_client/dlms_client.c:155-212 | The request without authentication, all 31 octets of it |
| `Association.AarqPasswordOctets` | components/dlms_client/dlms_client.c:155-212 | The request with a password, octet by octet, the password and its three length octets in their places |
| `Association.AarqTiles` | components/dlms_client/dlms_client.c:155-212 | For every password of at most 31 octets: one TLV with a true one-octet short-form length, whose content the expected child TLVs tile exactly, with the password recoverable |
| `Association.LengthOctetTrueIff` | components/dlms_client/dlms_client.c:208-209 | For passwords of any length the length octet is a true short form if and only if the password has at most 81 octets |
| `Association.ParseAare` | components/dlms_client/dlms_client.c:237-268 | On every input the scan stops, stays in bounds and accepts exactly when `AareAccepted` holds |
| `Association.AcceptedIffFirstResultZero` | components/dlms_client/dlms_client.c:237-268 | A response made of TLVs is accepted if and only if its first association result carries 0 |
| `Association.ResultDecides` | components/dlms_client/dlms_client.c:237-268 | A response 61, behind any TLVs that are no result, with A2 03 02 01 r, is accepted if and only if r is 0, whatever follows; nothing that does not start with 61 is accepted |
| `Association.BuildReadRequest` | components/dlms_client/dlms_client.c:219-230 | Writes the read request for a short name |
| `Association.ReadRequestOctets` | components/dlms_client/dlms_client.c:219-230 | 05 01 02 and the short name, upper octet first; requests for different names differ |
| `PollSession.CycleShape` | components/dlms_client/dlms_client.c:476-692 | For every sequence of bytes the meter may send, cut in any way, and every lock outcome: at most 3 SNRMs, each but the last undecided; then, only after a UA, one AARQ; then, only after an accepted AARE, one read per entry in order; then one DISC; every exchange in its state and with its sequence numbers |
| `PollSession.CycleIsSafe` | components/dlms_client/dlms_client.c:476-692 | The same as safety: no I-frame without an earlier UA, no read without an earlier accepted AARE, exactly one DISC, last, if a UA came and none otherwise |
| `PollSession.DecidedBy` | components/dlms_client/dlms_client.c:511-525 | An answer confirms if and only if its control octet is 73 or 63, and refuses if and only if it is 1F |
| `PollSession.AcceptedBy` | components/dlms_client/dlms_client.c:556-567 | Whatever its control octet, an answer accepts the association if and only if what it carries is an accepting AARE; it moves N(R) if and only if its control octet is even |
| `PollSession.CycleNumbers` | components/dlms_client/dlms_client.c:538-606 | The k-th I-frame carries N(S) = k modulo 8, and its N(R) counts the numbered answers so far, modulo 8, if the meter has numbered these consecutively from 0 |
| `PollSession.CycleEndsNumbered` | components/dlms_client/dlms_client.c:489-606 | After a cycle `send_seq` counts the I-frames sent and `recv_seq` the answers to them, modulo 8, under the same condition; the answer to the disconnect changes neither |
| `PollSession.AcknowledgedIffConsecutive` | components/dlms_client/dlms_client.c:556-606 | `recv_seq` counts the I-frames received at every point if and only if the meter numbers them consecutively |
| `PollSession.CycleStores` | components/dlms_client/dlms_client.c:565-677 | After an accepted association slot i holds what was heard during the wait of read i (or its old reading if the lock was not obtained), otherwise no slot changes; exactly one of `polls_completed` and `errors_total` moves. Answers are paired by time only, as the code does: neither N(S) nor N(R) of an answer is looked at (`PollReadings.LateMeterIsMisread` shows what follows) |
| `PollReadings.CompletedIff` | components/dlms_client/dlms_client.c:511-533 | A cycle counts as completed, and not as an error, if and only if one of the first three answers has control octet 73 or 63 and none before it 1F |
| `PollReadings.WellBehavedMeterIsRead` | components/dlms_client/dlms_client.c:476-692 | Liveness: a meter that confirms at the first, second or third attempt, with parameters or without, accepts the association and answers every read, each in a frame with any addresses and any LLC header the parser knows, behind flag-free noise and in any chunks, is read completely: the cycle completes and every slot holds the value encoded for its entry, marked valid |
| `PollReadings.LateMeterIsMisread` | components/dlms_client/dlms_client.c:565-633 | From such a meter whose every answer comes one read late, slot i + 1 gets the value of entry i under its own codes, marked valid, and slot 0 stays unanswered |
| `PollReadings.RunKeeps` | components/dlms_client/dlms_client.c:374-445 | Over every run of registrations and cycles each slot keeps the codes of its entry, and the two counters together count the cycles modulo 2 to the power 32 |
| `PollReadings.LookupIff` | components/dlms_client/dlms_client.c:422-445 | A look-up gives the reading of the first entry with the code, and "not found" if and only if no entry has it; a text that is no code is refused before the lock is asked for, and a lock not obtained is a timeout |
| `PollReadings.LookupOwn` | components/dlms_client/dlms_client.c:422-445 | With different codes registered, the text of an entry's code finds that entry's reading |
| `PollReadings.RegisteredByText` | components/dlms_client/dlms_client.c:374-412 | Up to 32 codes are registered by their texts, each with its octets, its text, its short name and a cleared reading |
| `PollReadings.RegisteredAnyway` | components/dlms_client/dlms_client.c:374-412 | A text of fewer numbers leaves these and zeros, one that starts with no digit leaves zeros, and of every text 31 characters are kept |
| `PollReadings.ResponseDecodes` | components/dlms_client/dlms_client.c:274-302 | A read response is taken to hold exactly the value it encodes |
| `PollReadings.ValidMeansEncoded` | components/dlms_client/dlms_client.c:274-302 | A reading is marked valid if and only if the response starts with 0C 01 00 and the encoding of some value; otherwise it keeps nothing but the type octet |
| `PollReadings.PolledValueArrives` | components/dlms_client/dlms_client.c:565-633 | End to end: if the answer to read i arrives in a frame with any addresses and control octet, with E6 E7 00 or another known LLC header or none, behind flag-free noise and in any chunks, the slot of entry i holds the encoded value and the codes of entry i |
| `PollReadings.PolledIntegerArrives` | components/dlms_client/dlms_client.c:565-633 | End to end for integers of every supported type: the slot shows the very integer the meter encoded, an unsigned 64-bit one as its signed counterpart |
| `PollClient.Client.constructor` | components/dlms_client/dlms_client.c:306-314 | A zeroed client in state IDLE |
| `PollClient.CommandOctets` | components/dlms_client/dlms_hdlc.c:117-141 | The frames of a cycle in octets: SNRM 93 with its 21 parameters, DISC 53, and I-frames with 32 N(R) + 16 + 2 N(S) and E6 E6 00 before the APDU |
| `PollClient.Client.AddObis` | components/dlms_client/dlms_client.c:374-412 | Entry and slot are added in place, or nothing changes when 32 are there |
| `PollClient.Client.GetReading` | components/dlms_client/dlms_client.c:422-445 | The loop over the slots is the look-up `GetReading`, with its three error results |
| `PollClient.HandleReadResponse` | components/dlms_client/dlms_client.c:274-302 | The reading is filled as `FromResponse` says; 0 exactly when it is valid |
| `PollClient.Client.Connect` | components/dlms_client/dlms_client.c:511-531 | The retry loop is `Link`, and the frames on the wire are its SNRMs |
| `PollClient.Client.Request` | components/dlms_client/dlms_client.c:540-558 | An I-frame goes out with the current numbers, N(S) advances, N(R) follows a numbered answer |
| `PollClient.Client.ReadEntries` | components/dlms_client/dlms_client.c:570-652 | The loop over the entries is `ReadAll`, and the wire shows its requests |
| `PollClient.Client.DoPollCycle` | components/dlms_client/dlms_client.c:476-692 | The whole cycle in place: entries, slots, counters, trace and sequence numbers end as `Cycle` says, the octets sent are the frames of its trace, the state is IDLE |
| `PushBuffer.FindMbus` | main/main.c:519-538 | The window scan finds the first M-Bus long frame, if there is one |
| `PushBuffer.MbusIff` | main/main.c:519-538 | A window is 68, a length twice, 68, as many octets, a checksum and 16, and nothing else is |
| `PushBuffer.WithoutFrame` | main/main.c:519-650 | Where no frame is found: everything before the last octet of the first window goes; without one, 2048 octets are thrown away and fewer are kept |
| `PushBuffer.PushReceiver.OnBytes` | main/main.c:494-650 | One turn in place: buffer and extracted frame are those of `Step` |
| `PushBuffer.PushReceiver.OnTimeout` | main/main.c:652-660 | A timeout drops text that starts with 2F, a slash, and nothing else |
| `PushBuffer.RoomForARead` | main/main.c:494-650 | Between turns the buffer is never full, so every read asks for at least one byte, and each extraction removes at least two |
| `PushBuffer.RunRefinesSplitting` | main/main.c:494-660 | For every run in which no turn throws away a flag: what was extracted, followed by the bodies still to come from the buffer and any further bytes, is the stream split at its flags; nothing is lost, repeated or reordered, shared flags included |
| `PushBuffer.RefinesIff` | main/main.c:494-660 | The condition is exact: for every run whatsoever, this holds at every moment and for every continuation if and only if no M-Bus removal, buffer-full clear or dropped text throws away a flag |
| `PushBuffer.TakenArePrefix` | main/main.c:494-660 | At every moment of such a run the extracted bodies are a prefix of the nonempty bodies of the stream |
| `PushBuffer.FramesAreFramed` | main/main.c:516-518 | Everything extracted is delimited by flags and has a nonempty flag-free body |
| `PushLine.KeptIff` | main/main.c:494-660 | For frames sent one after the other, with any addresses: no reads whatsoever, timeouts included, make the buffer throw away a flag if and only if no frame holds an M-Bus window and each fits the buffer, behind the closing flag of the one before it |
| `PushLine.FatalRun` | main/main.c:519-538 | Where a frame does hold a window or is too long: reads the buffer has room for under which a flag is thrown away |
| `PushSession.PushMachine.Define` | main/main.c:579-600 | A definition after values starts a new list; its code, which `PushSession.SetupStores` gives in octets, is stored while fewer than 30 are |
| `PushSession.SetupStores` | main/main.c:577-601 | Handling 02 04 12 x y 09 06, a code of six octets and five more octets adds exactly this code to the list, while that has fewer than 30, and goes on behind the 18 octets |
| `PushSession.OtherDefinitionStoresNothing` | main/main.c:577-601 | With anything else in the place of 09 06 nothing is added |
| `PushSession.PushMachine.Measure` | main/main.c:603-636 | A value is decoded, published with the code at the value index if there is one, and counted |
| `PushSession.PushMachine.HandleInfo` | main/main.c:556-638 | The loop over one information field publishes and leaves behind what `Handle` says |
| `PushSession.LoopIsFold` | main/main.c:577-638 | On the octets of any records, definitions and values not shaped like one, the loop acts on the records one after the other |
| `PushSession.BoundariesDoNotMatter` | main/main.c:556-638 | Where frame boundaries fall between records makes no difference |
| `PushSession.EveryRunPairsCorrectly` | main/main.c:449-451 | For every sequence of records whatsoever: the i-th value after a run of definitions is published with code i of that run, never with one of an earlier run, and not at all if there is none |
| `PushSession.CyclesPairCorrectly` | main/main.c:577-638 | Across any run of cycles D0..Dn-1, V1..Vm exactly the pairs (Di, Vi) are published, in order, for i below n and 30 |
| `PushSession.FramedCyclesPairCorrectly` | main/main.c:556-638 | The same wherever the records are cut into frames |
| `PushSession.ReportsArePublished` | main/main.c:449-638 | From codes to readings: of pushes given by the codes in their definitions and their values, wherever they are cut into frames, exactly the readings of value k under code k + 1 are published, with the octets and the text of that code |
| `PushSession.HeaderlessIntactIff` | main/main.c:563-573 | A frame that carries any records and no headers keeps all of them if and only if they do not look like a data notification (an 8-bit integer first, over 18 octets) and not like the head of a definition array (a structure first whose third octet falls on an array, or on a count octet 1) |
| `PushSession.HeadersStripped` | main/main.c:556-573 | A frame that starts with the four octets passed over, a data notification of 18 octets or none, and the head of the definition array carries the records behind them |
| `PushSession.StructureTakenForArrayHead` | main/main.c:569-573 | The second test fires on values too: a structure that holds one array has both heads dropped, and each element is counted as a value of its own |
| `PushSession.IntegersTakenForNotification` | main/main.c:564-567 | The first test does fire on values: a continuation frame that starts with ten 8-bit integers loses nine of them, so that the tenth is published with the code of the first |
| `PushPipeline.PublishedSoFar` | main/main.c:494-650 | As long as no flag is thrown away, what has been published at any moment is a prefix of what the whole stream publishes, and all of it once all frames are taken out |
| `PushPipeline.PushedPairsArePublished` | main/main.c:494-650 | End to end from octets: for frames without an inner flag, sent one after the other and read in any pieces, every one of them satisfying the condition of `PushLine.KeptIff` (or else for reads that happen to throw away no flag), what has been published at any moment is a prefix of the pairs of the cycles, in order, and all of them once the last frame is taken out |
| `PushPipeline.EachReadAFrame` | main/main.c:494-650 | When every read brings one frame without an inner flag, each frame is extracted as it comes; here what looks like an M-Bus window does no harm |
| `PushPipeline.FrameByFramePublishesAll` | main/main.c:494-638 | Then all pairs of the cycles are published, in order, and nothing else |
| `PushPipeline.DashboardShowsLastPushed` | main/main.c:91-131 | End to end to the dashboard, under the condition of `PushPipeline.PushedPairsArePublished`: at any moment the entry shown for a code is the last value published for it so far, and at the end the last one pushed, while no more than 32 codes are in use |
| `PushTask.E450Push.OnTurn` | main/main.c:494-660 | One whole turn in place: debug ring, buffer, parser, machine and cache end as `TurnOf` says |
| `PushTask.RunIsPipeline` | main/main.c:494-660 | Any run of turns is the buffer, then the machine over the information of the frames that parse, then the cache over what is published |
| `PushTask.CacheIsPipeline` | main/main.c:494-660 | From the start the cache holds what the pipeline publishes, so the end-to-end results hold of the loop |
| `ReadingCache.DashboardCache.Store` | main/main.c:95-112 | Storing one reading in the slots is `Cached` on the map |
| `ReadingCache.DashboardCache.CacheReadings` | main/main.c:91-115 | The slots refine a map bounded to 32: insert or overwrite, a null reading deletes its key, only a new key that finds the map full is ignored; occupied slots keep different keys |
| `ReadingCache.DashboardCache.GetCachedReading` | main/main.c:117-131 | A look-up agrees with the map |
| `ReadingCache.Bounded` | main/main.c:91-115 | The map never exceeds 32 entries |
| `ReadingCache.OnlyItsKey` | main/main.c:91-131 | Caching a reading changes what is shown for its own key only: the reading, or none if it is neither valid nor has a type; a 33rd key is ignored |
| `ReadingCache.LookupIsLast` | main/main.c:91-131 | After any batches with at most 32 keys, a look-up gives the last reading of its key, or none if that was null |
| `Rings.Ring.Append` | main/main.c:500-504 | One byte in place, the tail giving way: the ring holds exactly the last 4095 bytes since the last clear, in order |
| `Rings.Ring.AppendAll` | main/main.c:46-56 | The same for a whole text or read |
| `Rings.Ring.Clear` | main/main.c:167-174 | The ring is empty |
| `Rings.Ring.ReadHex` | main/main.c:182-191 | The hex readout shows every byte held: its bound never cuts it short and no write passes its buffer |
| `Rings.Ring.ReadText` | main/main.c:196-205 | The trace copy is exactly what is held, zero-terminated |
| `Rings.HexReadsBack` | main/main.c:182-191 | The hex digits read back as the octets, upper digit first |
| `Rings.KeepsLast` | main/main.c:500-504 | What a ring holds are the last 4095 bytes |
| `Rings.WindowPush` | main/main.c:500-504 | Writing at the head appends to the window and drops its first byte exactly when the head reaches the tail |
| `AnsiStripper.StripInPlace` | main/main.c:208-219 | The in-place loop stops despite `i--`, keeps the text zero-terminated and computes `Stripped` |
| `AnsiStripper.CodeRemoved` | main/main.c:208-219 | From the first 1B up to the next 6D everything is removed, what is before stays and the rest is stripped in turn |
| `AnsiStripper.StrippedIff` | main/main.c:208-219 | What is left has no escape with a later "m"; exactly such texts are left alone; a second pass changes nothing |
| `LineAssembler.Assembler.OnBytes` | main/ascii_parsers.c:90-109 | One read in place: the lines passed on and what stays are those of `Step` |
| `LineAssembler.RoomForARead` | main/ascii_parsers.c:78-109 | Every read asks for at least one byte |
| `LineAssembler.LinesIndependentOfChunking` | main/ascii_parsers.c:77-110 | For zero-free streams whose finished lines have at most 999 bytes, the lines passed on are the stream cut at its newlines, one trailing CR removed, however it is cut into reads; what is unfinished stays in the buffer unless it has 1000 bytes |
| `LineAssembler.LinesIndependentIff` | main/ascii_parsers.c:77-110 | The condition is exact: for every zero-free stream this holds under every way of cutting it if and only if every finished line has at most 999 bytes |
| `LineAssembler.SentLinesArrive` | main/ascii_parsers.c:77-110 | Lines ended by 0A or 0D 0A arrive as they were sent, without their ends, however they are cut into reads |
| `LineAssembler.ZeroHides` | main/ascii_parsers.c:93-99 | A zero hides what comes behind it: only newlines before the first zero finish lines |
| `LineAssembler.LongLineDependsOnChunking` | main/ascii_parsers.c:106-108 | For every stream with a longer finished line there are reads under which other lines are passed on |
| `Obis.TextRoundTrip` | components/dlms_client/dlms_helpers.c:6-22 | Scanning the dotted text of any code gives the code back |
| `Obis.TextIs` | components/dlms_client/dlms_helpers.c:17-23 | The text is the six octets in order, in decimal, with dots |
| `Obis.NoLeadingZero` | components/dlms_client/dlms_helpers.c:17-23 | No number is written with a leading zero, except zero itself |
| `Obis.TextWithMore` | components/dlms_client/dlms_helpers.c:6-15 | What follows the sixth number is ignored unless it is a digit; fewer than six numbers are no code |
| `Obis.TextInjective` | components/dlms_client/dlms_helpers.c:6-22 | Different codes have different texts, so the text-keyed cache and the octet-keyed look-up agree |

## Left out

- UART, FreeRTOS, NVS, Wi-Fi, HTTP, MQTT, cJSON and logging: foreign calls. A read is a chunk of bytes, a timeout ends
  a sequence of chunks, a lock is an atomic step that may fail.
- Floating point: `float_val`, `double_val`, `scaled_value` and `axdr_apply_scaler`; readings carry the raw bits of a float.
- Names, units, device classes, scalers and timestamps of readings and entries, and `axdr_parse_scaler_unit`.
- `dlms_client_push_task`: it writes one reading with a zeroed code to every slot, so there is no alignment to keep.
- `dlms_client_get_all_readings`, the readings callback and the state and unit names: copies and switches.
- MQTT topic templates, Home Assistant discovery, `web_server.c` and its configuration forms: glue around text formatting.
- `parse_text_line` behind the line splitter, and the IEC 62056-21 handshake: library number parsing and timing.
- The payload of M-Bus frames: the firmware only logs it. The model keeps the window scan, which decides what is removed.
- The filter of `trace_vprintf` that chooses what enters the trace ring, and the JSON text around the readouts.
- White space, signs and overflowing digit runs in `sscanf` with `%hhu`: the scanner of `Obis` reads plain digits and keeps the low octet.
- The push value index is a C `int`; the model counts without a bound.
- Stack use of the recursive decoder: its depth is bounded by `Axdr.ParseValue`, not its bytes.
- `tools/pc_test`, `e450_push.c` and the Python scripts: other programs, superseded copies and text patches.
- The segmentation bit of the format octet: `Wire` leaves it clear; that the parser ignores it is part of `HdlcRoundTrip.AcceptedShape`.
- In the loop of the push a frame's readings are cached when the whole frame has been handled; the firmware caches each as it is decoded, in the same order.
- `PushSession.EveryRunPairsCorrectly`: speaks of records; that octets are these records is `PushSession.LoopIsFold`, which needs values that are not shaped like a definition.
