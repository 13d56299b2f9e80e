# A verified model of sms-gate

sms-gate multiplexes GSM modems behind a WebSocket tunnel to a cloud server. This project models its core in
Dafny 4.11 and proves what the gateway promises about it:

- **SMS codec** (`internal/at/pdu.go`): `Options`, `Octets`, `Septets`, `Gsm7Text`, `Ucs2`, `Address`, `Hex`, `Submit`,
  `Segments`, `Deliver`. Octets are integers below 256 with the truncating shifts and the bitwise or written out;
  texts are sequences of Unicode scalar values. The packing loops are proved against a definition by single bits, the
  SMS-SUBMIT builders against a reader written from sections 9.1.2.3, 9.1.2.5, 9.2.2.2, 9.2.3.16 and 9.2.3.24 of 3GPP TS 23.040,
  the SMS-DELIVER decoder against a field-by-field form and against frames laid out by section 9.2.2.1.
- **Store-and-forward delivery** (`internal/buffer/buffer.go`, `internal/tunnel/manager.go`, the receive path of
  `internal/modem/worker.go`): `Buffer`, `Delivery`, `DeliverySafety`, `Tunnel`. `Delivery` is a system of
  interleaved steps of SIM cards, workers, table, outbox, sessions, flush, ACK handling, an unreliable cloud and crashes;
  `DeliverySafety` holds what every run keeps; `Buffer` and `Tunnel` hold the imperative methods.
- **Rate limiters** (`internal/modem/ratelimit.go`, `internal/ratelimit/limiter.go`): `SimRateLimit`, `TokenBucket`.
- **AT serializer** (`internal/at/serializer.go`): `Serializer`, a system of steps of the port reader, the worker that
  takes unsolicited codes, and one caller.
- **Task dispatch and duplicate detection** (`internal/modem/registry.go`, `internal/modem/worker.go`,
  `internal/dedup/dedup.go`): `Tasks`, `Dedup`.

`dafny verify dfyconfig.toml` checks everything.

Parameters of the model: clocks (as the time of each call), the outcomes of serial, database and network operations, the
cloud's choices, and the scheduler's (as the order of steps). SHA-256 and the duplicate fingerprint are taken to be injective,
so a hash stands for its message. The table has SQLite's contract: atomic statements, a unique hash, AUTOINCREMENT. A
crash ends the process, not the disk. Integers other than octets are unbounded.

## Where the code does not do what its documentation or a standard says

The model follows the code. For each divergence it proves exactly when the property holds, and gives an input on which it
does not.

| what the code does | exactly when | an input |
|---|---|---|
| `DecodePDU` skips a user data header but not the fill bits behind it | `Deliver.Gsm7BehindHeader`, `Deliver.HeaderFrame` | `Deliver.OwnPartsMisread` |
| `IsGSM7` accepts U+001B, which does not survive | `Gsm7Text.TextRoundTrip` | `Gsm7Text.EscapePassesIsGsm7` |
| a cut every 153 septets can separate ESC from its extension code | `Segments.PartwiseDecoding` | `Segments.EuroAtTheCut` |
| UCS2 parts are cut by runes, so astral text can overflow a part and its length octet | `Segments.Ucs2MessageWhole`, `Segments.Ucs2PartFits` | `Segments.AstralPartOverflows` |
| asked for "GSM7", the gateway sends a body with what the alphabet lacks left out | `Segments.SentText`, `Segments.PrepareSend` | `Segments.CyrillicVanishes` |
| `DecodePDU` takes the UCS2 length for characters | `Deliver.Ucs2UserData` | `Deliver.Ucs2Overread` |
| `dcsEncoding` differs from section 4 of 3GPP TS 23.038 | `Deliver.AlphabetAgreement` | `Deliver.FlashUcs2Misread` |
| semi-octets 1010 to 1110 are read as ':' to '>' instead of '*', '#', 'a', 'b', 'c'; the plus sign depends on the plan | `Address.NumberAgreement`, `Deliver.SinglePartByStandard` | `Address.ServiceCodeMisread` |
| `encodeBCDAddress` encodes characters that are no decimal digits, a star only in some places | `Address.StandardReadsBack` | `Address.StarSpoilsNext`, `Address.ColonIsStar` |
| an alphanumeric sender of 7, 15, ... septets gains an '@' | `Address.AlphanumericSender` | `Address.SevenLetters` |
| the Retry-After header drops the fraction of a second | `TokenBucket.HeaderSuffices` | `TokenBucket.HeaderTooEarly` |
| `tryAll` is all-or-nothing for one caller only | `SimRateLimit.SecondCallerLeavesTrace` | `SimRateLimit.TraceLeft` |
| a worker that leaves deregisters its ICCID, also when another worker has it by now | `Tasks.RegistryIsLastWord` | `Tasks.OldWorkerHidesNew` |
| a flush woken by the end of a session counts the row as delivered | `DeliverySafety.WakeUpMeans`, `DeliverySafety.WokenIsAcked` | `DeliverySafety.WokenByTheEnd` |

`EncodedPDU.NumParts` is documented as 1 for a single part; the builders return 0 (`p.numParts == total`).

## Model

| member | source | states |
|---|---|---|
| Septets.Packed | internal/at/pdu.go:629-652 | the packed form is the shortest octet string whose bit stream is the fill, then every code's seven bits, then zeros |
| Septets.PackedUnique | internal/at/pdu.go:108-120 | no other octet string has that bit stream and length |
| Septets.PackGsm7 | internal/at/pdu.go:108-120 | the byte-at-a-time packer with its spill guard computes the bit-stream packing with fill 0: no needed write is suppressed |
| Septets.RepackWithFill | internal/at/pdu.go:629-652 | the bit-list packer computes the same packing for every fill, so it agrees with PackGsm7 at fill 0 |
| Septets.UnpackGsm7 | internal/at/pdu.go:85-105 | the unpacker returns the septets of the bit stream, as many as asked for or as many whole septets as the data holds, and is in bounds on all data |
| Septets.PackUnpack | internal/at/pdu.go:85-120 | reading the packed form at its fill offset gives the codes back, for all codes and fills |
| Septets.ReadsBackBehind | internal/at/pdu.go:610-616 | the same behind a header of whole octets |
| Septets.SeptetRoundTrip | internal/at/pdu.go:85-120 | unpacking what was packed, with the clamp, is the identity on every sequence of codes |
| Septets.PackedHoldsAll | internal/at/pdu.go:86-90 | the clamp never truncates a packed message |
| Septets.MisalignedRead | internal/at/pdu.go:431-452 | a body packed with 1 to 6 fill bits and read without them comes back exactly when all codes are zero |
| Gsm7Text.BuildRuneToCode | internal/at/pdu.go:51-58 | the map filled by running over the charset is the last-match lookup |
| Gsm7Text.EncodeGsm7Text | internal/at/pdu.go:149-165 | the appending loop encodes rune by rune |
| Gsm7Text.DecodeGsm7Text | internal/at/pdu.go:125-146 | the loop with its double advance computes the left-to-right reading of escapes |
| Gsm7Text.ExtensionInjective | internal/at/pdu.go:35-46 | the extension table is injective, so the random order of its search does not matter |
| Gsm7Text.CharsetInjective | internal/at/pdu.go:23-32 | no rune stands twice in the basic table |
| Gsm7Text.TablesDisjoint | internal/at/pdu.go:23-46 | no rune is in both tables |
| Gsm7Text.EncodeDecode | internal/at/pdu.go:125-165 | without U+001B, decoding the encoding gives the text with exactly the unrepresentable runes dropped |
| Gsm7Text.TextRoundTrip | internal/at/pdu.go:61-78 | decode(encode(s)) = s exactly when IsGSM7 accepts s and s has no U+001B |
| Gsm7Text.EscapePassesIsGsm7 | internal/at/pdu.go:61-78 | the counterexample: U+001B is accepted and lost |
| Gsm7Text.CodesRoundTrip | internal/at/pdu.go:125-165 | encode(decode(c)) = c exactly when every ESC is followed by an extension code |
| Gsm7Text.DecodeConcat | internal/at/pdu.go:125-146 | decoding distributes over concatenation where no ESC is pending |
| Gsm7Text.DecodePendingCut | internal/at/pdu.go:129-140 | what a cut behind a pending ESC changes |
| Gsm7Text.DecodedRunes | internal/at/pdu.go:125-146 | the decoder writes only representable runes and never U+001B |
| Gsm7Text.TableIsStandard | internal/at/pdu.go:23-32 | the basic table is that of section 6.2.1 of 3GPP TS 23.038, given as eight rows of text |
| Gsm7Text.ExtensionIsStandard | internal/at/pdu.go:35-46 | behind ESC the ten codes of section 6.2.1.1 mean what it says, and every other code a space |
| Ucs2.Utf16RoundTrip | internal/at/pdu.go:168-187 | surrogate pairs come back for every text |
| Ucs2.Utf16Canonical | internal/at/pdu.go:168-187 | exactly the unit strings without lone surrogates survive decode and encode |
| Ucs2.EncodeUcs2 | internal/at/pdu.go:180-187 | the loop writes the units big-endian |
| Ucs2.DecodeUcs2 | internal/at/pdu.go:168-177 | the loop reads them, ignoring an odd last octet |
| Ucs2.Ucs2RoundTrip | internal/at/pdu.go:168-187 | every text of Unicode scalar values survives, also with a trailing odd octet |
| Ucs2.TrailingOctets | internal/at/pdu.go:454-458 | octets behind an encoded text leave it alone exactly when they are fewer than two |
| Ucs2.UnitCount | internal/at/pdu.go:181 | a text has one unit per rune and one more per astral rune |
| Ucs2.GrinningFace | internal/at/pdu.go:180-187 | U+1F600 goes out as D8 3D DE 00 |
| Address.EncodeBcdAddress | internal/at/pdu.go:229-253 | the loop computes digit count, type of address and semi-octets, with wrap-around on other characters |
| Address.DecodeBcdAddress | internal/at/pdu.go:197-225 | the loop reads digits up to the filler, the count or the end, or unpacks an alphanumeric address |
| Address.AddressRoundTrip | internal/at/pdu.go:197-253 | a number survives exactly when all its digits are among '0' to '>' |
| Address.NumberAgreement | internal/at/pdu.go:204-225 | a number is read as sections 9.1.2.3 and 9.1.2.5 of 3GPP TS 23.040 have it exactly when no semi-octet before the filler is 1010 to 1110 and, if international, its plan is the telephone plan |
| Address.ServiceCodeMisread | internal/at/pdu.go:206-224 | the counterexample: *100# is read as ":100;" |
| Address.StandardReadsBack | internal/at/pdu.go:229-253 | what encodeBCDAddress lays out is read back by the standard exactly when every character is a decimal digit, or a star in the second half of an octet or at the end |
| Address.StarSpoilsNext | internal/at/pdu.go:241-250 | the counterexample: in "*1" the star's high bits turn the second digit into the filler |
| Address.ColonIsStar | internal/at/pdu.go:241-250 | the counterexample: ":1" is laid out as "*1" |
| Address.TypeFields | internal/at/pdu.go:229-236 | the type octets say, by section 9.1.2.5, a telephone number, international exactly with a plus sign |
| Address.AlphanumericSender | internal/at/pdu.go:198-202 | an alphanumeric sender, which the standard reads as laid out, survives exactly when its septet count is not 7 modulo 8; else an '@' is appended |
| Address.SevenLetters | internal/at/pdu.go:198-202 | the counterexample: "AAAAAAA" is read as "AAAAAAA@" |
| Hex.HexRoundTrip | internal/at/pdu.go:621 | decoding the hexadecimal form gives the octets back |
| Hex.NormalizedIsCanonical | internal/at/pdu.go:345-352 | the text that is hashed is the upper-case form of the octets read, so one PDU has one hash text and two PDUs never share it |
| Hex.NormalizeReads | internal/at/pdu.go:345-349 | text of any case with any white space around it is read as the octets it stands for |
| Hex.SpaceIsWhite | internal/at/pdu.go:345 | what is trimmed is the white space of Unicode |
| Submit.BuildGsm7Pdu | internal/at/pdu.go:559-626 | read by the standard, with its own table of digits, the PDU carries its head fields, destination, type, DCS, reference numbers, length and codes exactly when the destination is laid out well (StandardReadsBack) with fewer than 256 digits and the length fits an octet; Length is the octet count behind the SMSC octet |
| Submit.BuildUcs2Pdu | internal/at/pdu.go:654-691 | the same for UCS2 units, with the length in octets |
| Submit.ReadCodes | internal/at/pdu.go:593-619 | septets behind the six-octet header are read at bit 49 of the user data, behind one fill bit |
| Submit.NotAddressable | internal/at/pdu.go:579-582 | other destinations are never read back |
| Submit.HeadMeans | internal/at/pdu.go:565-590 | the head fields by their bits: SMS-SUBMIT, relative validity of four days, header bit, no report, no reply path |
| Segments.EncodeGsm7Pdus | internal/at/pdu.go:512-533 | one part exactly when the septets fit 140 octets without a header, else as few parts of 140 octets with a header as any cut allows; the pieces in order under octet-cut numbers, each carried by its PDU |
| Segments.EncodeUcs2Pdus | internal/at/pdu.go:535-555 | one part, or pieces of 67 runes, each carried exactly when it fits its length octet; for the Basic Multilingual Plane as few parts as possible |
| Segments.EncodePdu | internal/at/pdu.go:493-510 | encoding choice, and the error exactly for an unknown encoding |
| Segments.PiecesPartition | internal/at/pdu.go:523-531 | the pieces put together are the message, none is empty or too long |
| Segments.NumberingExact | internal/at/pdu.go:523-530 | parts are numbered 1 to n of n exactly when n < 256; at multiples of 256 they lose their headers |
| Segments.Gsm7PartFits | internal/at/pdu.go:482-488 | a 7-bit part has at most 140 octets and a length of at most 160 |
| Segments.Ucs2PartFits | internal/at/pdu.go:482-488 | a UCS2 part fits 140 octets, or its length octet, exactly up to a number of units |
| Segments.AstralPartOverflows | internal/at/pdu.go:535-555 | the counterexample: 71 emoji are not sent whole, the first part has 274 octets and a length octet of 18 |
| Segments.Ucs2MessageWhole | internal/at/pdu.go:535-555 | what goes out in UCS2 is carried whole, every part within 140 octets under its number and the parts decoding to the text, exactly when the destination is well laid out, there are fewer than 256 parts and each fits counted in units |
| Segments.BmpFits | internal/at/pdu.go:535-555 | text of the Basic Multilingual Plane always fits |
| Segments.CapPreventsWrap | internal/modem/worker.go:683-689 | under the 10000-octet cap there are at most 131 (7-bit) or 150 (UCS2) parts |
| Segments.Utf8LenExact | internal/modem/worker.go:683-689 | the length that is capped counts for each rune the fewest octets that carry it in UTF-8 |
| Segments.E164Form | internal/modem/worker.go:679-681 | a destination is a plus sign, a digit from 1 to 9 and six to fourteen digits |
| Segments.PrepareSend | internal/modem/worker.go:671-698 | which sends are refused and why; a 7-bit send carries all septets in one part or n < 256 numbered parts within the size limits, and gives the body back exactly when IsGSM7 accepts it and it has no U+001B; a UCS2 send is whole exactly when its parts fit |
| Segments.SentText | internal/at/pdu.go:149-165 | the text read from the PDUs of a 7-bit send is the body exactly under that condition; without U+001B it is the body with what the alphabet lacks left out |
| Segments.CyrillicVanishes | internal/at/pdu.go:149-165 | the counterexample: the body U+0416 goes out as one part without a septet |
| Segments.PartwiseDecoding | internal/at/pdu.go:512-533 | decoding part by part gives the whole text exactly when the message is one part or no cut separates ESC from its code |
| Segments.EuroAtTheCut | internal/at/pdu.go:523-531 | the counterexample: 152 letters, a euro sign and seven septets or more |
| Segments.Ucs2Partwise | internal/at/pdu.go:545-553 | UCS2 parts always decode part by part to the text |
| Deliver.DecodeSmsc | internal/at/pdu.go:257-271 | address and claimed length, also when the claim exceeds the data |
| Deliver.DecodeUserData | internal/at/pdu.go:414-464 | the rewriting of user data and length agrees with the field-by-field form |
| Deliver.DecodePdu | internal/at/pdu.go:344-473 | the cursor is in bounds on every input and agrees with the field-by-field form, errors included |
| Deliver.DecodeTpdu | internal/at/pdu.go:365-386 | the cursor behind the service centre: message type and originator agree with the field-by-field form, in bounds on every input, errors included |
| Deliver.AcceptsExactly | internal/at/pdu.go:356-447 | the octet strings accepted, by the offsets of their fields |
| Deliver.RefusesExactly | internal/at/pdu.go:356-447 | and why any other is refused, by the offset at which it ends or fails |
| Deliver.FrameDecodes | internal/at/pdu.go:356-412 | on any frame laid out by the standard, with any service centre and originator, every field is read at its place and the user data is passed on whole |
| Deliver.SinglePartByStandard | internal/at/pdu.go:344-473 | a single-part 7-bit frame between numbers decodes to what the standard puts into it exactly when both numbers are plain (NumberAgreement) and the text survives (TextRoundTrip) |
| Deliver.SinglePartGsm7 | internal/at/pdu.go:344-473 | a single-part 7-bit frame gives its service centre, sender and text back, the text exactly under the condition of TextRoundTrip |
| Deliver.Gsm7BehindHeader | internal/at/pdu.go:423-452 | behind a header the septets come back exactly when the header is a multiple of seven octets or all septets are zero |
| Deliver.HeaderFrame | internal/at/pdu.go:344-473 | the decoder's result on a whole 7-bit frame with a header, and the same condition for its septets |
| Deliver.OwnPartsMisread | internal/at/pdu.go:431-439 | the gateway's own six-octet header is such a failing case |
| Deliver.Ucs2UserData | internal/at/pdu.go:440-458 | UCS2 text comes back exactly when it is empty or at most one octet follows it |
| Deliver.Ucs2Frame | internal/at/pdu.go:344-473 | the same of the decoder's result on a whole frame, with or without a header |
| Deliver.Ucs2Overread | internal/at/pdu.go:453-458 | the counterexample: one letter and two octets behind it are read as two letters |
| Deliver.EightBitUserData | internal/at/pdu.go:459-463 | 8-bit data comes back whatever follows it |
| Deliver.EightBitFrame | internal/at/pdu.go:344-473 | the same of the decoder's result on a whole frame |
| Deliver.ShortUserData | internal/at/pdu.go:440-464 | user data that end early are decoded as far as they go |
| Deliver.HeaderOnly | internal/at/pdu.go:423-447 | a header that takes up the whole length leaves an empty body |
| Deliver.AlphabetAgreement | internal/at/pdu.go:300-329 | of all 256 data coding schemes, exactly those on which dcsEncoding agrees with section 4 of 3GPP TS 23.038 |
| Deliver.AlphabetOf | internal/at/pdu.go:300-329 | the alphabet of each of the 256 codings |
| Deliver.FlashUcs2Misread | internal/at/pdu.go:300-329 | the counterexample 0x18 |
| Deliver.HexFrame | internal/at/pdu.go:345-349 | a frame in hexadecimal of any case, with white space around it, decodes like its octets |
| Buffer.PendingEventsExact | internal/buffer/buffer.go:146-168 | the flush payload is exactly the pending rows, each once, in ascending order of id |
| Buffer.SmsBuffer.Insert | internal/buffer/buffer.go:101-125 | a fresh pending row, a duplicate or a failure, and when each |
| Buffer.SmsBuffer.MarkDelivered | internal/buffer/buffer.go:128-135 | the row becomes delivered; an unknown id changes nothing |
| Buffer.SmsBuffer.PendingRows | internal/buffer/buffer.go:146-168 | the scan returns the payload specified by PendingEventsExact |
| Buffer.SmsBuffer.Purge | internal/buffer/buffer.go:171-188 | only delivered rows before the cutoff go, and their number is returned |
| DeliverySafety.StepKeepsInv | internal/tunnel/manager.go:161-187 | every step of every component keeps the invariant: ids name one message for ever, delivered rows were received, removed messages are safe, slots hold what is being received, channels are apart and have one closer, the flush is on course |
| DeliverySafety.NoMessageLost | internal/modem/worker.go:546-613 | after every run, each message the receive path removed from a SIM is a pending row or has reached the cloud |
| DeliverySafety.OnSimUntilSafe | internal/modem/worker.go:546-613 | the same without any record of removals: a message in a slot stays there until it is a pending row or received, unless the slot was cleared past the receive path |
| DeliverySafety.ReachesTheCloud | internal/modem/worker.go:546-613 | from every state with a session a new message can be read, stored, cleared, pushed, written and received |
| DeliverySafety.AckMarksItsOwnMessage | internal/tunnel/manager.go:173-187 | an acknowledgement, however late or repeated, only marks a row whose own message was received |
| DeliverySafety.PendingUntilAcked | internal/buffer/buffer.go:128-135 | in one step a pending row stays pending, through purges, drains and crashes, unless its own acknowledgement is marked |
| DeliverySafety.StaysPendingOrReceived | internal/buffer/buffer.go:128-188 | over every run a pending row stays pending with its message, or that very message has been received |
| DeliverySafety.OfferedAgain | internal/tunnel/manager.go:487-552 | a row pending at any moment of a run is written by every later flush that ends by itself, unless its message was received before |
| DeliverySafety.AckedStaysDone | internal/buffer/buffer.go:128-135 | once its acknowledgement is marked, a row is offered by no flush of any later run |
| DeliverySafety.ReusedIdLoses | internal/buffer/buffer.go:28-29 | why AUTOINCREMENT is needed: with reused ids a repeated acknowledgement loses the next message, from every such state |
| DeliverySafety.ChannelsClosedOnce | internal/tunnel/manager.go:335-341 | in every interleaving no ACK channel is closed twice, none in the map is closed, and the map has at most 1000 entries |
| DeliverySafety.OnlyTheRemoverCloses | internal/tunnel/manager.go:173-182 | a channel is closed only by the drain that removes it or by the reader that took it out |
| DeliverySafety.NoStaleEntries | internal/tunnel/manager.go:528-550 | until a flush is cut off while it waits, the ACK map has at most the entry that flush waits for |
| DeliverySafety.RegistersUnlessFull | internal/tunnel/manager.go:528-537 | a written row gets its channel unless 1000 entries wait |
| DeliverySafety.FlushIsComplete | internal/tunnel/manager.go:487-552 | a flush that ends by itself has written exactly the rows pending at its start, each once, ascending, whatever was interleaved, also with a full map |
| DeliverySafety.WakeUpMeans | internal/tunnel/manager.go:538-541 | in every run, when a flush can be woken, its channel was closed by exactly one of a session's end and AckDelivered; if by AckDelivered, it was made for the row being flushed and the cloud has received that row |
| DeliverySafety.WokenIsAcked | internal/tunnel/manager.go:528-541 | if no session ends between registering and waking, the row has been received |
| DeliverySafety.WokenWithoutAck | internal/tunnel/manager.go:335-341 | from every waiting flush a session end wakes it with nothing acknowledged |
| DeliverySafety.WokenByTheEnd | internal/tunnel/manager.go:335-341 | the counterexample, as a run from the start: the row is passed as delivered, is pending, and the cloud has nothing |
| DeliverySafety.OutboxInOrder | internal/tunnel/manager.go:161-167 | between crashes the writer takes exactly what was pushed while fewer than 256 events waited, in the order of the pushes, and puts it on the wire |
| DeliverySafety.OutboxBounded | internal/tunnel/manager.go:152 | at most 256 events wait |
| Tunnel.Manager.Push | internal/tunnel/manager.go:161-167 | appends, or drops when 256 events wait |
| Tunnel.Manager.AckDelivered | internal/tunnel/manager.go:173-187 | entry taken out, channel closed once, row marked with or without an entry |
| Tunnel.Manager.DrainPending | internal/tunnel/manager.go:335-341 | every entry closed and removed, in any order, no channel twice |
| Tunnel.Manager.AwaitAck | internal/tunnel/manager.go:528-550 | the new ACK state for each way the wait can end |
| Tunnel.Manager.FlushBuffer | internal/tunnel/manager.go:487-552 | what is written is a prefix of the pending rows, all of them when the loop ends by itself |
| Tunnel.Receiver.ReceiveSms | internal/modem/worker.go:546-613 | the whole effect for every outcome of read, decode, insert and delete: no slot is cleared before its row is stored |
| SimRateLimit.Window.Allow | internal/modem/ratelimit.go:31-50 | compaction in place over the log's own storage equals the stable filter, then appends within the storage |
| SimRateLimit.Window.WouldAllow | internal/modem/ratelimit.go:90-101 | the counting loop decides as Allow would |
| SimRateLimit.SimRateLimiter.TryAll | internal/modem/ratelimit.go:78-88 | three checks, then three appends that all succeed; a refused call changes no log |
| SimRateLimit.RunIsFullHistory | internal/modem/ratelimit.go:69-101 | every run decides like a limiter that forgets nothing |
| SimRateLimit.LimitsHold | internal/modem/ratelimit.go:67-88 | in every run and for every x, sends in the minute, hour and day ending at x are within the limits |
| SimRateLimit.AllowedExactly | internal/modem/ratelimit.go:67-101 | after every run a call is allowed exactly when the sends of the last minute, hour and day are below their limits, counted over all sends |
| SimRateLimit.SecondCallerLeavesTrace | internal/modem/ratelimit.go:78-88 | for any two readings of the clock, exactly when a second caller between checks and appends is refused and still leaves an event |
| SimRateLimit.TraceLeft | internal/modem/ratelimit.go:78-88 | the counterexample: one send, and a minute log with two events |
| TokenBucket.Bucket.Allow | internal/ratelimit/limiter.go:49-74 | refill, cap, take or the wait, over exact reals |
| TokenBucket.TokensInRange | internal/ratelimit/limiter.go:57-64 | in every run tokens stay between zero and the maximum |
| TokenBucket.IntervalBound | internal/ratelimit/limiter.go:36-74 | of the calls in any interval [s, t] at most perMin + perMin (t - s) / 60 s are admitted, after any earlier calls |
| TokenBucket.FirstCallsAdmitted | internal/ratelimit/limiter.go:36-45 | a new bucket admits its first perMin calls, whenever they come |
| TokenBucket.DeniedExactly | internal/ratelimit/limiter.go:49-74 | after any calls, a call is denied exactly when one more admission would exceed a full bucket and the inflow of some interval that ends with it |
| TokenBucket.NextAdmission | internal/ratelimit/limiter.go:67-73 | below one token the next call is admitted exactly when the missing part has come in |
| TokenBucket.WaitSuffices | internal/ratelimit/limiter.go:67-73 | of all waits of a second or more, exactly those suffice that are as long as the one returned |
| TokenBucket.HeaderSuffices | internal/ratelimit/limiter.go:132-139 | the Retry-After header suffices exactly for whole seconds and waits up to one second |
| TokenBucket.HeaderTooEarly | internal/ratelimit/limiter.go:132-139 | the counterexample, from a new bucket: 59.4 seconds become 59 and the client is denied again |
| Serializer.IsUrcLine | internal/at/serializer.go:61-68 | the loop finds exactly the lines with one of the seven prefixes |
| Serializer.ReferenceRead | internal/at/serializer.go:320-323 | the reference of a +CMGS line is the signed decimal number behind its white space, none without a digit or beyond 64 bits |
| Serializer.Parts | internal/at/serializer.go:320-323 | every +CMGS line has that form |
| Serializer.PrintedReference | internal/at/serializer.go:320-323 | a number printed in decimal is read back, whatever follows |
| Serializer.LineKeepsModeOk | internal/at/serializer.go:206-245 | one received line takes Execute and ExecuteSend to a mode that says what the lines so far were |
| Serializer.StepKeepsInv | internal/at/serializer.go:121-168 | every step of reader, worker and caller keeps queues, routing, numbering and the code channel in order |
| Serializer.OfferedIsTheInput | internal/at/serializer.go:119-168 | in every run the reader has for a command exactly the input lines that are no unsolicited codes, from the first it looks at after the command became pending to the last before it ceases to be |
| Serializer.ResponseIsExact | internal/at/serializer.go:172-245 | while fewer than 64 lines wait each time, what the caller takes is a prefix of that input, so a response is the input up to its first final result, which is "OK" |
| Serializer.CommandsSeeTheirOwn | internal/at/serializer.go:252-340 | also with drops a caller sees only lines of its own command, and every result says what these lines were: the first final one, the reference of a sent message, or that none of them ended the command |
| Serializer.ResultsByKind | internal/at/serializer.go:172-340 | a call returns a result of its own kind that says what its lines were; an Execute that gave up has taken no final line |
| Serializer.NoLineTwice | internal/at/serializer.go:152-164 | no line reaches two commands or one command twice |
| Serializer.DropsExactlyWhenFull | internal/at/serializer.go:157-163 | over every run a command loses exactly as many lines as the reader had for it while 64 were waiting |
| Serializer.NewestUrcNeverLost | internal/at/serializer.go:135-150 | the last default is unreachable: every unsolicited code was sent in order and only the oldest are dropped |
| Serializer.CodesReachTheWorker | internal/at/serializer.go:135-150 | the worker gets every code in order while fewer than 64 wait at each read, and each code read while 64 wait costs at most one |
| Serializer.AnswerReturned | internal/at/serializer.go:172-245 | from every idle state a call can begin, and the lines a modem answers in front of "OK" are returned |
| Serializer.ReferenceReturned | internal/at/serializer.go:252-340 | likewise the reference of a send |
| Tasks.StepKeepsInv | internal/modem/registry.go:61-74 | every step keeps the account of tasks, also around registration, cancellation and failure |
| Tasks.AtMostOneAck | internal/tunnel/manager.go:436-447 | no task is acknowledged twice, and every TASK_ACK carries its task's message id |
| Tasks.EveryTaskAccountedFor | internal/tunnel/manager.go:436-447 | after every run each task is under dispatch, acknowledged once or waiting with its one worker; a refused task has its one acknowledgement |
| Tasks.RegistryIsLastWord | internal/modem/registry.go:28-40 | after every run the registry holds for each ICCID the last registration, or nothing once any worker with that ICCID has left |
| Tasks.TaskGoesToItsSim | internal/modem/registry.go:61-74 | over every run a task is accepted by nobody but the worker that was registered under the ICCID it named when it came in; one that names no registered ICCID is refused and acknowledged |
| Tasks.RefusedExactlyWhenFull | internal/modem/registry.go:68-73 | a task for a registered SIM is refused exactly when its worker has a full queue at the send |
| Tasks.OldWorkerHidesNew | internal/modem/registry.go:35-40 | a replaced worker that leaves takes the new one's entry with it |
| Tasks.WorkerServes | internal/modem/worker.go:354-356 | a live worker can work off its queue, acknowledging in the order of waiting |
| Tasks.Conservation | internal/modem/worker.go:617-669 | accepted tasks are those acknowledged, the one in hand and the queue, in this order; exactly the first are acknowledged |
| Tasks.LeftoversAreUnacked | internal/modem/worker.go:374-379 | for a worker that left, all accepted tasks are acknowledged exactly when its queue is empty |
| Tasks.DrainLosesNothing | internal/modem/worker.go:340-348 | a drain that ends with no dispatch under way leaves each accepted task with exactly one acknowledgement, ever after |
| Dedup.Ring.IsDuplicate | internal/dedup/dedup.go:70-91 | scan, eviction and record |
| Dedup.RingIsLast | internal/dedup/dedup.go:84-89 | the ring holds the last maxSize recorded messages |
| Dedup.AcceptedTwiceIsSpaced | internal/dedup/dedup.go:70-91 | a message accepted twice within the window had at least maxSize others recorded in between |
| Dedup.AgreesWithHistory | internal/dedup/dedup.go:7-11 | exactly when the ring answers like the whole history would |
| Dedup.DuplicateExactly | internal/dedup/dedup.go:70-91 | by the answers alone: a call is a duplicate exactly when an earlier call with its key was new, is younger than the window, and fewer than maxSize calls were new in between |

## Left out

- PackGsm7: codes of 128 and above are not modelled, here and in RepackWithFill; encodeGSM7Text never makes them.
- NumberAgreement: alphanumeric addresses are in AlphanumericSender, for the numbering plan 0 that the decoder knows; with another plan it reads their septets as digits.
- SecondCallerLeavesTrace: the caller that is first in the minute window is first in the other two; appends that overtake each other between windows are not modelled.
- Timestamps: decodeSCTS and every time carried in a message; the decoder only checks that the seven octets are there.
- DELETE_ALL_SMS, the capacity purge and deleting undecodable PDUs bypass the safe ordering: they are the step Bypass, whose deletions are not counted as removed by the receive path.
- Messages left on a SIM after a failed read or a lost notification: nothing rescans the slots, and the model claims nothing about them.
- Power loss: with synchronous = NORMAL the last rows may be gone after it.
- Real clocks, timers, float rounding and nanosecond truncation of durations.
- Limiter registries: replacing a SIM's limiter on re-registration forgets its history; the bounds run between registrations.
- Buckets for a rate that is not positive: FromEnv never makes one.
- Concurrent calls of Execute: the worker is the only caller, and the model has one.
- The writer's pings and heartbeats, and message contents other than the hash.
- The modem state machine, the watchdog and the recovery ladder; only the exits of the worker's loop are modelled.
- WebSocket, TLS, HTTP, JSON, configuration, metrics, logging, breaker, backoff, dlq, diskqueue, modemspool and csq: plumbing or easy members.
