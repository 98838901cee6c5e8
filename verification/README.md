# A verified model of the uds-rs diagnostic client

uds-rs is a client for Unified Diagnostic Services (ISO 14229-1:2013). Every call composes a request,
runs a request/response exchange over a CAN socket, and parses the response. The client retries when the
server is busy (0x21) and waits once when the server says that the response is pending (0x78). This project
models that whole path and proves what holds for every request and for everything a link may do.

The link is an oracle: a sequence of arrivals (a frame, a fault of the lower layer, or a silence longer than
the wait after a 0x78) and the outcome of every coming send. Once the arrivals have run out, the link is
silent for ever. A run is the outcome of a call together with the wire it leaves, and the wire's log records
every send and receive. An outcome is a value, an error, a call that never completes (`Blocked`, the `await`
that is never woken), or a panic.

| file | contents |
|---|---|
| `Bytes.dfy`, `UdsDefinitions.dfy`, `UdsTypes.dfy` | integers, big-endian numbers, service and response codes, errors, responses |
| `Exchange.dfy`, `UdsSocket.dfy` | the link, the exchange as a function of it, and the socket object |
| `ExchangeLaws.dfy`, `ExchangeTheorems.dfy`, `TraceLaws.dfy` | one round and the rest of a run; outcome, retries and the whole run in closed form; accounting, provenance and conservation over the log |
| `Verdicts.dfy` | for each outcome of the exchange, on exactly which links it comes about, and what an exchange leaves on the link |
| `ReadDataByIdentifier.dfy`, `ReadDataLaws.dfy` | service 0x22 |
| `ReadMemoryByAddress.dfy` | service 0x23 |
| `ReadDtcInformation.dfy`, `ReadDtcLaws.dfy` | service 0x19 |
| `OtherServices.dfy` | services 0x10, 0x11, 0x14 and 0x2E |
| `Client.dfy` | the client object: the exchange as a loop around socket effects, and the calls |
| `Services.dfy` | the laws of any request, exchange and parser that checks the service first |
| `Calls.dfy`, `CallLaws.dfy` | every call of the client as such a service, and the end-to-end theorems |
| `RequestFormats.dfy`, `ResponseFormats.dfy` | the frame that each call sends, what each call makes of every frame, and how it fails on it: in literal bytes, beside the functions that compose and parse |
| `DtcCallLaws.dfy` | which report type the trouble code calls return |
| `Conversations.dfy` | calls one after another on one socket, over any services and on any link: what each leaves for the next |
| `Hearing.dfy`, `Replies.dfy`, `LateResponses.dfy`, `StaleReads.dfy` | calls to one service: each send hears one event of what arrives; whose reply ends a call; memory reads that return the data of another read |

## Results that differ from what one would expect of the code

- The retry counter starts at 0 and is decremented before it is compared with 0 (`src/uds.rs:139`,
  `src/uds.rs:159-160`). The client therefore gives up at the 2^32nd 0x21 and never before:
  `GivesUpExactly`, `CounterReachesZero`.
- The frame that arrives after a 0x78 is not classified (`src/uds.rs:185`). A second 0x78 or any other frame that
  starts with 0x7F surfaces there as a mismatch of services with received identifier 0x7F, and it does so on
  exactly those links: `DelayedNegativeIsMismatch`. `NegativeBehindPendingIsLost` is such a link for every call and
  every code.
- `parse_response` of ReadMemoryByAddress indexes the first byte of the frame unchecked
  (`src/uds/read_memory_by_address.rs:153`). A memory read that is sent panics if and only if the link brings an
  empty frame in time behind a matching 0x78, which itself comes behind fewer than 2^32 matching 0x21 replies and
  without a failed send: `PanicsExactly`, and `EmptyDelayedFramePanics` for links on which it does.
- A response that comes after the wait for it was given up stays on the link and answers the next call
  (`src/uds.rs:172-184`): `TimedOutCallLeavesItsResponse`. If the next call is to another service, it fails with a
  mismatch of services: `ForeignFrameExactly`, `LateForeignResponse`. If it is to the same service and nothing in the
  response tells the requests apart, it returns the data of the earlier one: `StaleMemoryIsReturned`.
- Being late is not the only way to get out of step. Each send hears exactly one event of what arrives
  (`EventEndsCall`), but a reply may bring more than one: a response brings one event if and only if at most one
  0x78 comes before it and it follows that in time (`OneEventExactly`). So a server that merely repeats its 0x78 makes the first
  read fail and the second one return the data of the first (`RepeatedPendingIsOutOfStep`).
- When a server replies to every send in turn, a call ends with a reply to one of its own sends if and only if the
  events that came in excess until then are no more than the 0x21 that the call has heard: `OwnReplyExactly`. The
  excess never shrinks unless a reply is lost (`BacklogGrows`), and if none is lost and none is a 0x21, a call gets its
  own reply if and only if every reply before it brought one event (`InStepExactly`). A call can get its own
  reply again when the server refuses it often enough (`RefusalCatchesUp`) or loses a reply (`LostReplyCatchesUp`).
- A 0x7F frame with an unknown code ends the exchange with that code whatever service it rejects
  (`src/uds.rs:206-211`), a known code only for the service asked for: `UnknownCodeExactly`, with
  `UnknownCodeOfAnyService` for frames that reject another one; `NegativeResponseExactly`, `MismatchExactly`.
- A memory address or size of zero without a requested width gets a field of no bytes at all:
  `FieldIsMissingExactly`.
- A trouble code call sends a report type, but takes any of the nine list types, or any of the four count types,
  for a response. The type returned is the second byte of the frame that the link determines, and so the one asked
  for if and only if that byte is: `DtcCallLaws.ReportTypeExactly`. `WrongListIsReturned`, `WrongRecentIsReturned`
  and `WrongCountIsReturned` are links on which it is not.
- The two warnings about a width that is too long speak of 0xf (`src/uds/read_memory_by_address.rs:94-96`,
  `src/uds/read_memory_by_address.rs:110-112`); the code uses 8, and so does the model.

## Model

| member | source | states |
|---|---|---|
| Client.UdsClient.SendAndReceive | src/uds.rs:138-196 | the loop around socket effects leaves the outcome, link and log of the exchange function, for every link; it stops because the counter comes closer to zero modulo 2^32 |
| Exchange.ParseForError | src/uds.rs:199-216 | the cursor over the frame computes the classification |
| Exchange.ClassifyExactly | src/uds.rs:199-216 | which frames are accepted, empty, a known or an unknown negative response: four equivalences over all frames and codes |
| UdsDefinitions.NrcFromByteExactly | src/uds/uds_definitions.rs:53-97 | a byte decodes to a response code exactly when it is that code's number |
| UdsDefinitions.KnownNumbersExactly | src/uds/uds_definitions.rs:53-97 | the numbers that have a code, as ranges of literal bytes |
| UdsDefinitions.GeneralNumbers | src/uds/uds_definitions.rs:56-71 | the literal number of each code about the message and the service |
| UdsDefinitions.TransferNumbers | src/uds/uds_definitions.rs:72-78 | the literal number of each code about transfers, waiting and sessions |
| UdsDefinitions.EngineNumbers | src/uds/uds_definitions.rs:79-87 | the literal number of each code about engine, temperature and speed |
| UdsDefinitions.DriveNumbers | src/uds/uds_definitions.rs:88-96 | the literal number of each code about pedals, transmission, brake and voltage |
| ExchangeLaws.PastIsKept | src/uds.rs:138-196 | an exchange does not depend on what was done on the socket before, which stays on record |
| ExchangeLaws.EveryRunFollowsProtocol | src/uds.rs:143-185 | the log of every run is rounds of request and busy reply, ended by a failure, a verdict, or a 0x78 and at most one more receive |
| ExchangeTheorems.OutcomeExactly | src/uds.rs:138-216 | outcome and number of sends of every run in closed form: skip the leading matching 0x21 replies, then the verdict of what comes next, unless a send fails or the counter runs out first |
| ExchangeTheorems.GivesUpExactly | src/uds.rs:157-163 | the exchange fails with 0x21 if and only if that many sends are accepted and answered busy, and then after exactly that many sends |
| ExchangeTheorems.SendsAreBounded | src/uds.rs:139-166 | every run ends within `Remaining(start)` sends: N for a start value N above zero, 2^32 for the start value of the code |
| ExchangeTheorems.CounterReachesZero | src/uds.rs:139-160 | the wrapping 32-bit counter is zero after `Remaining(start)` decrements for the first time, and where it wraps |
| ExchangeTheorems.StartIsIrrelevant | src/uds.rs:157-166 | below the give-up bound the start value of the counter makes no difference |
| ExchangeTheorems.BusyRepliesAreInvisible | src/uds.rs:157-167 | putting k matching 0x21 replies, below the bound, in front of any link adds k sends and k receives and changes nothing else |
| ExchangeTheorems.RunExactly | src/uds.rs:138-196 | every run on every link is so many rounds of request and 0x21 reply and then one last round, with outcome, log, remaining arrivals and remaining send outcomes |
| Verdicts.SucceedsExactly | src/uds.rs:138-216 | a frame is returned if and only if it decides and is non-empty and not 0x7F, or comes in time behind a matching 0x78 |
| Verdicts.HandsOnUnclassifiedExactly | src/uds.rs:168-185 | an empty frame or one that starts with 0x7F is returned if and only if it comes in time behind a matching 0x78 |
| Verdicts.NegativeResponseExactly | src/uds.rs:148-195 | on exactly which links each known code is returned: only for the service asked for, 0x21 when the counter runs out, 0x78 when nothing follows in time, the others when they decide |
| Verdicts.MismatchExactly | src/uds.rs:149-155 | a mismatch of services is returned if and only if the deciding frame has a known code and rejects another service |
| Verdicts.UnknownCodeExactly | src/uds.rs:206-211 | an unknown code is returned if and only if the deciding frame has it, for whatever service that frame rejects |
| Verdicts.UnknownCodeOfAnyService | src/uds.rs:206-211 | links on which the exchange of any request ends with a code that rejects any other service |
| Verdicts.CodeIsReported | src/uds.rs:187-216 | links on which each known code but 0x21 and 0x78 is reported, by its number behind a literal 0x7F and the service |
| Verdicts.EmptyResponseExactly | src/uds.rs:199-208 | an empty response is reported if and only if the deciding frame is empty or a 0x7F frame of fewer than three bytes |
| Verdicts.CommunicationErrorExactly | src/uds.rs:143-180 | an error of the lower layer is that of the first send that fails, or of the receive in place of the deciding frame or of the one behind a 0x78 |
| Verdicts.BlocksExactly | src/uds.rs:143-167 | an exchange never completes if and only if nothing but silence and matching 0x21 replies below the bound arrives |
| Verdicts.LeavesExactly | src/uds.rs:138-196 | for every link, the arrivals and send outcomes that an exchange leaves for the next one |
| TraceLaws.EveryRunAccounts | src/uds.rs:143-185 | over every run: sends are one more than resends after 0x21, receives are the successful sends plus the waits after 0x78, at most one wait, only the request is sent, nothing is sent after a 0x78 |
| TraceLaws.EveryOutcomeIsJustified | src/uds.rs:146-195 | every value, negative response, mismatch, unknown code, empty response and communication error comes from the last frames received, with the bytes it reports; a returned frame is non-empty and not 0x7F, or follows a 0x78 |
| TraceLaws.EveryRunConserves | src/uds.rs:143-180 | a run takes a prefix of what arrives, in order, losing only silence, and leaves the rest |
| ReadData.ComposeReadDataByIdentifierRequest | src/uds/read_data_by_identifier.rs:70-79 | the loop builds the request of the identifier list |
| ReadData.RequestRoundTrip | src/uds/read_data_by_identifier.rs:70-79 | a request has 1 + 2n bytes and decodes to exactly its n identifiers |
| ReadData.RequestsAreAllPayloads | src/uds/read_data_by_identifier.rs:70-79 | every payload of even length, and no other, is that of a request, which is unique |
| ReadData.ParseReadDataByIdentifierResponse | src/uds/read_data_by_identifier.rs:81-93 | an empty frame, a foreign service, or everything behind the first byte |
| ReadData.ParseReadDataByIdentifierTupleResponse | src/uds/read_data_by_identifier.rs:97-163 | the nested loops over specs and bytes compute the recursive parser |
| ReadDataLaws.ParsesExactly | src/uds/read_data_by_identifier.rs:97-163 | success with given records if and only if no early wildcard, the records answer the specs, and the frame starts with their encoding (is their encoding, with a wildcard) |
| ReadDataLaws.EncodeParse | src/uds/read_data_by_identifier.rs:97-163 | encoding then parsing is the identity, also with trailing bytes when there is no wildcard |
| ReadDataLaws.FailsExactly | src/uds/read_data_by_identifier.rs:116-138 | success if and only if every spec passes at its offset; any error if and only if it is the one the first failing spec causes |
| ReadDataLaws.FixedOffset | src/uds/read_data_by_identifier.rs:116-138 | without wildcards the offset of spec k is one plus the sum of two plus the length of the earlier ones |
| ReadDataLaws.EarlyWildcardFails | src/uds/read_data_by_identifier.rs:132-147 | a wildcard before the last spec never parses, and once it is passed the error is an invalid length |
| ReadDataLaws.TruncationAndExtension | src/uds/read_data_by_identifier.rs:114-154 | cutting an accepted frame of fixed lengths gives an invalid length below the length of the records and the same records from there on; extending it changes nothing |
| ReadDataLaws.RawAgrees | src/uds/read_data_by_identifier.rs:81-163 | the records' encoding is a prefix of the raw payload, and all of it with a wildcard |
| ReadDataLaws.ResponseAnswersRequest | src/uds/read_data_by_identifier.rs:51-62 | the identifiers of the records are, in order, those decoded from the request |
| Bytes.MinWidthIsLeast | src/uds/read_memory_by_address.rs:81-90 | the shift loops count the least number of bytes that hold the value |
| ReadMemory.ConvertFromSimpleToNormal | src/uds/read_memory_by_address.rs:72-136 | shift loops, clamping, nibble packing in eight bits (which never overflow) and slicing of the eight big-endian bytes compute the conversion |
| ReadMemory.ConversionFailsExactly | src/uds/read_memory_by_address.rs:92-122 | failure if and only if a requested width, clamped to 8, cannot hold its value |
| ReadMemory.WidthsExactly | src/uds/read_memory_by_address.rs:92-122 | a requested width of eight or more gives a field of eight bytes and never fails; a smaller one gives a field of that many bytes, and fails if and only if they cannot hold the value |
| ReadMemory.ExtraWidthIsZeros | src/uds/read_memory_by_address.rs:104-130 | a wider field is the minimal one behind zero bytes |
| ReadMemory.FieldIsMissingExactly | src/uds/read_memory_by_address.rs:78-130 | a field is empty exactly for the value zero without a width of its own |
| ReadMemory.FormulateRequest | src/uds/read_memory_by_address.rs:138-151 | extending the header in place gives header, address and size in this order |
| ReadMemory.DecodeFormulated | src/uds/read_memory_by_address.rs:138-151 | a request whose format byte gives the lengths of its fields decodes to them |
| ReadMemory.MemoryRoundTrip | src/uds/read_memory_by_address.rs:72-150 | for all u64 values and widths, both fields are minimal or as wide as requested, and the frame read by its format byte gives back address and size and nothing is left |
| ReadMemory.FramesAreDistinct | src/uds/read_memory_by_address.rs:72-150 | equal frames come only from equal addresses and sizes |
| ReadMemory.EveryRequestIsProduced | src/uds/read_memory_by_address.rs:72-150 | every well-formed frame with fields up to eight bytes is the request of the range it decodes to |
| ReadDtc.ParseReportDtcs | src/uds/read_dtc_information.rs:386-462 | the four-byte stride loop and the dispatch behind it compute the recursive parser |
| ReadDtc.ParseReportNumberOfDtcByStatusMaskResponse | src/uds/read_dtc_information.rs:307-368 | the count parser, errors in the order of its cursor |
| ReadDtcLaws.ReportAcceptsExactly | src/uds/read_dtc_information.rs:386-462 | acceptance if and only if at least three bytes, 0x59, one of nine report types and a whole number of records, whose number is then known |
| ReadDtcLaws.ReportBijection | src/uds/read_dtc_information.rs:386-462 | parsing gives a report if and only if its codes have 24 bits and its encoding is the frame, byte for byte |
| ReadDtcLaws.ReportErrorPrecedence | src/uds/read_dtc_information.rs:396-457 | which of ragged tail, unknown and unlisted report type is reported, as three equivalences |
| ReadDtcLaws.ReportRejectedExactly | src/uds/read_dtc_information.rs:386-457 | which error the list parser reports, as one equivalence over all frames and errors |
| ReadDtcLaws.CountExactly | src/uds/read_dtc_information.rs:307-368 | the count parser accepts exactly the frames that start with the encoding of the count |
| ReadDtcLaws.CountRejectedExactly | src/uds/read_dtc_information.rs:307-365 | which error the count parser reports, as one equivalence over all frames and errors, in the order of its cursor |
| ReadDtcLaws.ListsAreNotCounts | src/uds/read_dtc_information.rs:317-457 | no frame is accepted by both parsers |
| ReadDtcLaws.FirstNumbers | src/uds/read_dtc_information.rs:53-61 | the literal numbers of the sub-functions 0x01 to 0x09 |
| ReadDtcLaws.MiddleNumbers | src/uds/read_dtc_information.rs:62-70 | the literal numbers of the sub-functions 0x0A to 0x12 |
| ReadDtcLaws.LastNumbers | src/uds/read_dtc_information.rs:71-79 | the literal numbers of the sub-functions from 0x13 on |
| ReadDtcLaws.RequestsDecode | src/uds/read_dtc_information.rs:291-536 | the three request layouts give back the sub-function, the status mask, the low 24 bits of the code and the record number |
| OtherServices.RequestsDecode | src/uds/clear_diagnostic_information.rs:21-28 | the four fixed-layout requests give back their arguments, the group of codes its low 24 bits |
| OtherServices.AcceptedExactly | src/uds/ecu_reset.rs:41-70 | the fixed-layout parsers return a given result for exactly the frames that start with its encoding |
| OtherServices.RejectedExactly | src/uds/ecu_reset.rs:41-63 | which error each of the four parsers reports for every frame: empty, foreign service, unknown reset type, missing bytes |
| OtherServices.InvalidLengthExactly | src/uds/diagnostic_session_control.rs:34-70 | an invalid length is reported for exactly the non-empty frames that are not accepted but the beginning of an accepted one |
| Client.UdsClient.ReadDataByIdentifier | src/uds/read_data_by_identifier.rs:38-47 | a single identifier is read as a wildcard tuple, any other number of them returns the raw payload |
| Client.UdsClient.ReadDataByIdentifierTuple | src/uds/read_data_by_identifier.rs:51-62 | composes from the identifiers of the specs, exchanges, and parses by the specs |
| Client.UdsClient.ReadSingleDataByIdentifier | src/uds/read_data_by_identifier.rs:64-67 | is the tuple read with the wildcard |
| Client.UdsClient.ReadMemoryByAddress | src/uds/read_memory_by_address.rs:32-45 | sends the given format and fields unchecked, and may panic on the response |
| Client.UdsClient.ReadMemoryByAddressSimplified | src/uds/read_memory_by_address.rs:49-69 | nothing is sent when the conversion fails, else the memory read of the converted fields |
| Client.UdsClient.ReportNumberOfDtcByStatusMask | src/uds/read_dtc_information.rs:95-105 | sends sub-function 0x01 with the mask and parses the response as a count, leaving outcome, link and log of that call |
| Client.UdsClient.ReportDtcByStatusMask | src/uds/read_dtc_information.rs:108-115 | sends sub-function 0x02 with the mask and parses the response as a list |
| Client.UdsClient.ReportMostRecentConfirmedDtc | src/uds/read_dtc_information.rs:205-209 | sends sub-function 0x0E and parses the response as a list |
| Client.UdsClient.ReportDtcSnapshotRecordByDtcNumber | src/uds/read_dtc_information.rs:127-139 | sends sub-function 0x04 with the low 24 bits of the code and the record number, and returns the payload |
| Client.UdsClient.ReportDtcExtDataRecordByDtcNumber | src/uds/read_dtc_information.rs:148-160 | sends sub-function 0x06 with the low 24 bits of the code and the record number, and returns the payload |
| Client.UdsClient.EcuReset | src/uds/ecu_reset.rs:30-34 | sends the reset type and parses the response, leaving outcome, link and log of that call |
| Client.UdsClient.DiagnosticSessionControl | src/uds/diagnostic_session_control.rs:23-27 | sends the session and parses the response |
| Client.UdsClient.ClearDiagnosticInformation | src/uds/clear_diagnostic_information.rs:14-18 | sends the group of codes and parses the response |
| Client.UdsClient.WriteDataByIdentifier | src/uds/write_data_by_identifier.rs:19-27 | sends identifier and data and parses the response |
| Services.OnlyPositiveResponses | src/uds.rs:146-195 | for any request, any parser that checks the service first, and any link: a response only if the last frame received starts with the request's service plus 0x40, and then it is what the parser makes of that frame |
| Services.DelayedIsParsed | src/uds.rs:168-185 | for any parser, the frame after a 0x78 goes to it, whatever it is |
| Services.ServeExactly | src/uds.rs:138-196 | for any parser and any link, the outcome is what the parser makes of the frame that the link determines, or the failure of the exchange |
| Services.DelayedNegative | src/uds.rs:168-185 | for any parser that checks the service first, a frame that starts with 0x7F becomes a mismatch with received identifier 0x7F if and only if the link brings it in time behind a matching 0x78 |
| Services.ServicePanicsExactly | src/uds.rs:146-195 | a call whose parser panics on the empty frame alone panics if and only if the link brings an empty frame in time behind a matching 0x78, and then its log ends with the two |
| Services.PendingThenParsed | src/uds.rs:157-185 | after any number of 0x21 below the bound and a 0x78, the outcome is what the parser makes of the next frame, and the rest stays on the link |
| CallLaws.CallPastIsKept | src/uds.rs:138-196 | a call does not depend on what was done on the socket before |
| CallLaws.ParsersCheckSid | src/uds/read_data_by_identifier.rs:106-112 | every parser of the client reports a mismatch for every frame of a foreign service, with both identifiers, and for no other frame |
| CallLaws.ParsersThatPanic | src/uds/read_memory_by_address.rs:152-160 | only the parser of the memory reads panics, and only on the empty frame |
| CallLaws.OnlyPositiveResponsesSucceed | src/uds.rs:146-195 | no call of the client, on any link, reports a negative or foreign response as success |
| CallLaws.OnlyTheRequestIsSent | src/uds.rs:143-165 | every frame sent by a call is its request |
| CallLaws.CallExactly | src/uds.rs:138-196 | for every call and every link, the outcome in terms of the link: the parsed frame of the closed form of the exchange, or its failure |
| CallLaws.SuccessfulFrame | src/uds.rs:138-196 | the frame a successful call parses is the one its log ends with and the one the link determines |
| CallLaws.DelayedNegativeIsMismatch | src/uds.rs:168-185 | for every call and every frame that starts with 0x7F, a mismatch with received identifier 0x7F and that frame if and only if the request is sent and the link brings the frame in time behind a matching 0x78 |
| CallLaws.NegativeBehindPendingIsLost | src/uds.rs:168-185 | links on which any code, a second 0x78 included, comes out of any call as that mismatch |
| CallLaws.PanicsExactly | src/uds/read_memory_by_address.rs:152-160 | a call panics if and only if it reads memory, its request is sent, and the link brings an empty frame in time behind a matching 0x78; and if and only if its log shows that |
| CallLaws.EmptyDelayedFramePanics | src/uds/read_memory_by_address.rs:152-153 | links on which every memory read panics |
| CallLaws.TupleReadIsTheFrame | src/uds/read_data_by_identifier.rs:51-62 | the records returned answer the specs and are carried by the last frame |
| CallLaws.TupleReadAnswersRequest | src/uds/read_data_by_identifier.rs:51-62 | every frame sent decodes to the identifiers of the records returned |
| CallLaws.SingleReadTakesAll | src/uds/read_data_by_identifier.rs:38-67 | a single read returns one record with all bytes of the last frame behind the identifier |
| CallLaws.MemoryReadAsksForRange | src/uds/read_memory_by_address.rs:49-69 | every frame a memory read sends decodes to the address and size it was called with |
| CallLaws.PayloadIsReturned | src/uds/read_memory_by_address.rs:161-165 | memory reads, raw reads of several identifiers, snapshot and extended data return the last frame without its first byte |
| RequestFormats.RequestExactly | src/uds/read_memory_by_address.rs:138-151 | for every call, its request is the frame whose literal bytes ask for what the call is about: service, sub-function, mask, 24-bit code, identifiers, reset type, session, data, memory format and fields |
| RequestFormats.NoRequestExactly | src/uds/read_memory_by_address.rs:92-122 | a call has no request if and only if it reads memory with a requested length below eight that cannot hold its value |
| RequestFormats.SentFramesAsk | src/uds.rs:143-165 | for every call, link and send, whatever the outcome: the frame sent asks for what the call is about |
| RequestFormats.SentDidsDecode | src/uds/read_data_by_identifier.rs:38-47 | every frame that a read of identifiers sends decodes to all of them, in order |
| ResponseFormats.ResponseExactly | src/uds/read_dtc_information.rs:307-462 | for every call and frame, the call returns a response if and only if the literal bytes of the frame mean that response |
| ResponseFormats.RejectionExactly | src/uds/read_data_by_identifier.rs:81-163 | for every call, frame and error, the call fails on the frame with the error if and only if the literal bytes call for it |
| ResponseFormats.CallReturnsExactly | src/uds.rs:138-196 | for every call, link and response: it is returned if and only if the call can be sent and the frame that the link determines means it |
| ResponseFormats.CallFailsExactly | src/uds.rs:138-196 | for every call, link and error: for want of a request, from the exchange, or from the frame that the link determines |
| ReadDtcLaws.CountAcceptsExactly | src/uds/read_dtc_information.rs:307-368 | the count parser accepts exactly the frames of six bytes or more with 0x59, one of four count types and a known format |
| DtcCallLaws.ReportTypeExactly | src/uds/read_dtc_information.rs:95-209 | a count or list of a given report type is returned if and only if the frame that the link determines is accepted and has that type; the type asked for is the second byte of the request |
| DtcCallLaws.AnyAcceptedTypeIsReturned | src/uds/read_dtc_information.rs:386-462 | every frame with any accepted type is returned as a frame of that type, whichever type was asked for |
| DtcCallLaws.WrongListIsReturned | src/uds/read_dtc_information.rs:108-115 | a list asked for by status mask comes back as the most recent confirmed code |
| DtcCallLaws.WrongRecentIsReturned | src/uds/read_dtc_information.rs:205-209 | the most recent confirmed code comes back as a list by status mask |
| DtcCallLaws.WrongCountIsReturned | src/uds/read_dtc_information.rs:95-105 | a count by status mask comes back as a count by severity |
| DtcCallLaws.DtcCountIsTheFrame | src/uds/read_dtc_information.rs:95-105 | the frame that the link determines starts with the encoding of the count returned, whose type is one of four and the 0x01 asked for if and only if the second byte is 0x01 |
| DtcCallLaws.DtcListIsTheFrame | src/uds/read_dtc_information.rs:108-209 | the list returned encodes to the frame that the link determines; its type is one of nine and the one asked for (0x02 or 0x0E) if and only if the second byte is that |
| Conversations.ConversationExactly | src/uds.rs:138-196 | in any sequence of calls on one socket, each comes to what the link decides as the calls before it have left it, which is known in closed form |
| Conversations.ConversationConserves | src/uds.rs:138-196 | over any sequence of calls, what arrives is handed out once, in order, and only silence is lost |
| Conversations.TimedOutCallLeavesItsResponse | src/uds.rs:172-184 | a call that times out behind a 0x78 leaves everything behind the gap to the next call, of whatever service |
| Conversations.ForeignFrameExactly | src/uds.rs:138-196 | in any sequence of calls over any services, a frame that is no negative response ends a call as a mismatch of services if and only if it is of another service and decides the call or follows a 0x78 in time |
| Conversations.LateForeignResponse | src/uds.rs:172-184 | a late response to a call of one service ends the next call, of another service, as a mismatch with both identifiers |
| Hearing.ExchangeHearsEvents | src/uds.rs:143-195 | whatever arrives, each send of an exchange hears the next event (a 0x21, a gap, a frame looked at, a frame behind a 0x78); the last one decides the outcome, and the events behind it are left |
| LateResponses.ConversationHears | src/uds.rs:138-196 | whatever arrives, the sends of any number of calls to one service hear one event each, in order, and each call ends with the event of its last send, or waits for ever |
| LateResponses.EventEndsCall | src/uds.rs:138-196 | event u is what send u hears; which call it ends, with which outcome, and that this call made exactly that send and one for each 0x21 it heard before |
| LateResponses.NoEventNoOutcome | src/uds.rs:143-180 | the calls behind the last event never complete |
| Replies.EventsOfStream | src/uds.rs:143-185 | replies that come one after another bring their own events one after another |
| Replies.OneEventExactly | src/uds.rs:168-185 | how many events a response behind any number of 0x78 brings, late or not; it is one if and only if there is no 0x78, or one with the response in time |
| LateResponses.OwnReplyExactly | src/uds.rs:138-196 | with a server that replies to every send in turn, in any way, a call ends with a reply to one of its own sends if and only if the events in excess of one for each send are no more than the 0x21 that it has heard, and not negative (a reply is not heard before its send) |
| LateResponses.BacklogGrows | src/uds.rs:168-185 | while no reply is lost, the excess never becomes less, and stays the same if and only if every reply brings one event |
| LateResponses.InStepExactly | src/uds.rs:168-185 | if no reply is lost and none is a 0x21, a call makes one send, and ends with the reply to it if and only if every reply before brought one event |
| StaleReads.OwnMemoryExactly | src/uds/read_memory_by_address.rs:32-45 | a memory read returns data that no reply to an earlier call carries if and only if the event that ends it carries them and the excess is no more than the 0x21 it has heard |
| StaleReads.StaleMemoryIsReturned | src/uds/read_memory_by_address.rs:152-165 | a link on which a memory read of any range returns the data of the one before it |
| StaleReads.RepeatedPendingIsOutOfStep | src/uds.rs:168-185 | a link on which nothing is late but a 0x78 is repeated: the first read fails with a mismatch and the second returns the data of the first |
| StaleReads.RefusalCatchesUp | src/uds.rs:157-167 | a link on which, after a late response, the third read hears a 0x21, repeats its request and gets its own data |
| StaleReads.LostReplyCatchesUp | src/uds.rs:172-184 | a link on which, after a late response and a lost reply, the third read gets its own data |

## Left out

- Socket creation, ISO-TP options and the CAN library (`src/uds/communication.rs`): replaced by the oracle link.
- Asynchronous scheduling and the clock: a timeout is an arrival of silence, and a receive without a timeout sits through it.
- Builds with overflow checks: the model wraps the retry counter, as release builds do; a checked build would
  abort at the 0x21 after the 2^31st. `CounterReachesZero` says where the wrap is.
- Snapshot and extended-data records: the source hands their bytes on unparsed, and so does the model.
- Sub-functions that are commented out in the source, and the response and error variants that nothing constructs.
- Logging, the texts of errors and warnings, and conversions between error types of the lower layer.
- Calls at the same time on one socket, and a call cancelled in the middle: a conversation makes one call after another.
- Bounds on memory: frames and lists may be of any length.
- LateResponses.OwnReplyExactly: speaks of calls to one service and of a server that accepts every send and replies to
  the sends one after another, without leaving off at a 0x78 (silence behind it is part of the reply).
  `LateResponses.EventEndsCall` gives the sends of a call for arrivals in any order, and
  `Conversations.ConversationExactly` the calls to several services on any link.
- ReadMemory.MemoryRoundTrip: speaks of the simplified call; the call with explicit fields sends whatever format byte and fields it is given.
