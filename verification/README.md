# A verified model of fixure

fixure is a test harness for the FIX tag=value protocol: it writes and parses
messages, frames them out of byte streams, keeps session sequence numbers, runs
scripted scenarios against a peer, and measures latencies in a proxy. This
project models those parts in Dafny and proves, for all inputs and all runs,
what they are for:

* parsing accepts exactly a grammar; writing and parsing back is a round trip
  exactly on the messages that can be written; a changed byte before the
  CheckSum field is always noticed;
* the in-place writer (length slot, overlapping shift, patch, checksum) refines
  plain concatenation, succeeds exactly when the final text fits, and touches
  nothing behind it;
* framing depends on how a stream was cut in one way only, which is stated
  exactly; streams of written messages survive every other cut;
* a session delivers a prefix of what its peer sent, in order and at most once,
  over a network that loses, repeats and reorders; gaps heal by replay; two
  sessions over the in-memory link never lose count;
* a scenario run hands out consecutive numbers, every executed step did exactly
  what it prescribes, and a failing run names its cause;
* the proxy's latency registry agrees with the message history; the scenario
  language has a round trip.

`dafny verify dfyconfig.toml` checks everything.

## How it is organised

| module | what it holds |
|---|---|
| Bytes, Decimal | byte strings, searches, byte sums; decimal text as the C++ library's `to_chars` and `from_chars` write and read it |
| Codec | fields, the scan of raw bytes with its checks, the text of a message |
| CodecLaws, ErrorDetection | grammar, round trip, fixpoint, injectivity; single-byte errors |
| Verdicts | for every text, the fields or the error the parser gives it, from the text alone |
| Parser, Serializer, Groups | the imperative algorithms, proved against Codec and against the group specification |
| Framing, Framability, Stream | the receive buffer and independence of chunking; which messages are framed whole; the round trip of whole streams |
| Session, SessionLaws, Delivery | the session object and its rules; what it is and answers in any run; in-order delivery and gap recovery |
| Outgoing, ReadBack, Link | outgoing messages; what their receiver reads, field by field; the in-memory connection and two sessions over it |
| Scenario, History, Runner, RunLaws, RunMeaning | scenario steps, what it means for a step to be done or to fail, the runner, the laws of its histories, and what a run means to those outside |
| Proxy | the two-separator drain loop and the latency registry |
| Dsl, DslLaws | the scenario language: parser, rendering, round trip; what any text means, and which error it gets |
| EndToEnd | from a peer's session over a chunked stream into the receiving session |

Every imperative operation (parser loop, in-place writer, group scan, receive
buffer, session, connection, runner, proxy monitor, scenario parser) is a method
or a class whose contract equates its result or its new state with a
specification function. The laws about those functions are stated without them:
in terms of texts, fields, tags, numbers and events, with the source's own
constants written out.

A byte is a character below 256, a message a sequence of bytes. Tags are 32-bit
numbers; the length the parser computes is cut to 32 bits as the cast in the
source does, and the checksum is summed in a 32-bit counter. A separator is any
byte other than a digit, `-` and `=`.

Facts of the code that the contracts keep: only the tag text must be a number
from end to end, while BodyLength, CheckSum, `get_int` and the tags of the
scenario language are satisfied with a decimal prefix; 256 fields followed by
anything at all are too many; a buffer without `8=` is cleared, even when it
ends in `8`; framing stops at the first `10=` wherever it stands; "sequence
number too low" asks for a disconnect but leaves the session logged on; a
SequenceReset is taken at its word; a mock reply counts even when the
connection refuses it.

Where a property fails, the exact condition is proved instead, with an input
that shows the failure:

* chunk independence holds if and only if no cut severs a message start that
  nothing precedes (`Framing.ChunkIndependence`, `Framing.RunIndependence`,
  `Stream.StreamRoundTrip`; `Framing.LoneEightIsLost`);
* a written message is framed whole if and only if no value written holds `10=`
  and no tag written ends in 10 (`Framability.WireIsFramable`;
  `Framability.TagOneTenIsCutShort`);
* the numbers a peer receives have no hole if and only if no refused attempt
  precedes an accepted one (`RunLaws.WireIsGapFree`;
  `RunLaws.RefusedReplyLeavesHole`);
* the proxy frames a stream as SOH alone would if and only if no partial message
  has a bar after its first `10=` (`Proxy.BarsInterfereInRuns`;
  `Proxy.BarCutsEarly`);
* a rendered script is read back if and only if its values are trimmed and free
  of bars and newlines, and the last value of each step is free of SOH
  (`Dsl.ScriptRoundTrip`; `Dsl.SohAtEndIsLost`).

## Model

| member | source | states |
|---|---|---|
| Bytes.ByteSum | src/parser.cpp:132-137 | the wrapping 32-bit counter still yields the true byte sum modulo 256 |
| Bytes.SumMeans | src/parser.cpp:132-137 | the byte sum is the one additive function that gives each byte its unsigned code |
| Decimal.FromToChars | src/parser.cpp:70-74 | every 32-bit number printed and read back is itself, to the last digit, whatever non-digit follows |
| Decimal.ReadingMeans | src/parser.cpp:163-172 | reading yields n exactly from the texts that begin, after an optional minus, with a longest run of digits that denotes n in 32 bits |
| Decimal.WholeReadingMeans | src/parser.cpp:70-74 | a tag text is accepted exactly when all of it is such a number |
| Decimal.WrapMeans | src/parser.cpp:122 | the length is cut to 32 bits: kept when it fits, else changed by a multiple of 2^32 |
| Decimal.ThreeDigitsDenote | src/parser.cpp:376-380 | the three checksum digits read back as the checksum |
| Decimal.DigitsLength | src/parser.cpp:329-338 | the printed length is minimal: at most k digits exactly when the number is below 10^k |
| Codec.FieldOf | src/parser.cpp:154-161 | finds a value exactly when the tag occurs, and then that of its first occurrence |
| Codec.ScanIsSound | src/parser.cpp:41-98 | what the scan reads renders back to the text, and meets the conditions on tags, positions and field count |
| Codec.ScanIsComplete | src/parser.cpp:41-98 | every text of that form is scanned back token by token |
| CodecLaws.ParsingAcceptsGrammar | src/parser.cpp:34-151 | parsing yields given fields if and only if the bytes are a well-formed message of those fields: tag text, `=`, separator-free value, separator for each; blank tail; 3 to 256 fields, fewer with a tail; 8, 9 first and 10 last; true length and checksum |
| CodecLaws.WellFormedIsUnique | src/parser.cpp:41-97 | a message can be cut into fields and tail in one way only |
| Verdicts.ParsingSucceeds | src/parser.cpp:26-151 | parsing yields given fields if and only if the text is 3 to 256 such fields, 8 and 9 first and 10 last, then white space (with fewer than 256 fields), the second value begins with the body length and the last with the byte sum modulo 256 |
| Verdicts.ParsingFails | src/parser.cpp:26-149 | parsing yields a given error if and only if the text earns it: for each of the ten errors, which fields the text begins with, what stops the reading behind them, or which check they fail |
| Verdicts.IntMeans | src/parser.cpp:163-172 | a number is looked up exactly where the first value with the tag begins with it |
| CodecLaws.SegmentationIsUnique | src/parser.cpp:41-97 | so can any sequence of fields and tail, of any number and length |
| CodecLaws.WireRenders | src/parser.cpp:300-386 | the wire text is the rendering of the fields it is read back as, with exact body and summed part |
| CodecLaws.RoundTrip | src/parser.cpp:26-152 | parsing the written text gives tag 8, the generated 9, the kept fields in order and the generated 10, if and only if values are separator-free, fields fit the table and the length fits 32 bits |
| CodecLaws.RewritingIsIdentity | src/parser.cpp:314-323 | writing the fields that were read back reproduces the message byte for byte |
| CodecLaws.WritingIsInjective | src/parser.cpp:257-387 | equal texts of separator-free values come from equal first values and equal kept fields, however many and however long |
| ErrorDetection.SingleByteErrorIsDetected | src/parser.cpp:41-149 | an accepted message with any one byte before its last field changed is rejected |
| Parser.OnlyBlanks | src/parser.cpp:48-55 | decides whether only separators, CR, LF and spaces are left |
| Parser.ReadField | src/parser.cpp:46-74 | finds the next field by absolute positions, or says that only a tail is left, or that the text is malformed |
| Parser.ReadFields | src/parser.cpp:34-98 | the loop with its positions fills the slots as the scan prescribes, with the same error in the same order |
| Parser.FixMessage.Check | src/parser.cpp:100-151 | the checks on recorded positions give the verdict prescribed for the fields |
| Parser.FixMessage.Parse | src/parser.cpp:26-152 | same success, same fields, same error as the specification, on every input |
| Parser.FixMessage.GetField | src/parser.cpp:154-161 | the loop returns the value of the first field with the tag |
| Parser.FixMessage.GetInt | src/parser.cpp:163-172 | that value as a number, a decimal prefix being enough |
| Serializer.MoveForward | src/parser.cpp:353-357 | an overlapping copy towards the front leaves the old bytes at the new place and the rest alone |
| Serializer.MoveBackward | src/parser.cpp:347-351 | the same for an overlapping copy towards the back |
| Serializer.WriteText | src/parser.cpp:278-283 | writes at the offset exactly when it fits, else changes nothing |
| Serializer.WriteTagValue | src/parser.cpp:285-298 | succeeds exactly when the whole field fits, and has then written exactly that field |
| Serializer.FitLength | src/parser.cpp:334-367 | the five slot bytes are replaced by digits of any number, with everything behind them kept in order; fails exactly when there is no room |
| Serializer.DraftAndWire | src/parser.cpp:337-385 | the draft and the final text differ by the digits and the 7-byte trailer, so that no temporary slot makes a message that fits fail |
| Serializer.Finish | src/parser.cpp:325-386 | shifting, patching, summing and appending give the specified text |
| Serializer.SerializeMessage | src/parser.cpp:257-387 | succeeds if and only if tag 8 is first and the final text fits; the bytes are the specified text; nothing behind it is changed |
| Groups.GetGroup | src/parser.cpp:201-255 | the scan with its open instance returns the specified slices |
| Groups.GroupShape | src/parser.cpp:224-252 | at most 64 slices and no more than declared, contiguous and disjoint, each beginning with the delimiter and holding no other and no 8, 9 or 10 |
| Groups.GroupMeans | src/parser.cpp:217-252 | when the counter begins with n, the view has as many instances as the least of n, 64 and the delimiters before the next 8, 9 or 10, and its j-th slice is exactly the j-th instance |
| Groups.GroupIsComplete | src/parser.cpp:228-252 | an instance is left out only when the view has n of them or 64 |
| Groups.GroupIsEmpty | src/parser.cpp:213-221 | without a counter that begins with a number the view is empty |
| Groups.GroupRoundTrip | src/parser.cpp:201-255 | a group of at most 64 instances ending a body is written, parsed and sliced back into those instances |
| Framing.ReceiveBuffer.Append | src/runner.cpp:290-292 | new bytes go behind what the buffer holds |
| Framing.ReceiveBuffer.ExtractNextMessage | src/runner.cpp:185-209 | takes the text from the first `8=` to the separator after the first `10=`, if there is one, and leaves the rest; else only drops what precedes the first `8=` |
| Framing.ReceiveBuffer.DrainAll | src/runner.cpp:279-294 | repeated extraction gives the specified messages and residue |
| Framing.DrainKeepsHeads | src/runner.cpp:185-209 | draining loses no message start: each `8=` is in one message or in the residue |
| Framing.ChunkIndependence | src/runner.cpp:185-209 | draining before and after a cut equals draining once, except exactly when what the first drain leaves has no `8=` and ends in `8` while `=` follows the cut |
| Framing.RunIndependence | src/runner.cpp:285-294 | the same for any list of chunks |
| Framing.LoneEightIsLost | src/runner.cpp:186-189 | an `8` alone in the buffer is gone when its `=` arrives in the next chunk |
| Framability.WireIsFramable | src/runner.cpp:195-206 | a written message is cut out whole if and only if neither the first value nor a kept value holds `10=`, and no kept tag ends in 10 |
| Framability.TagOneTenIsCutShort | src/runner.cpp:195-206 | the message 8=F, 110=5 is cut short |
| Stream.StreamRoundTrip | src/runner.cpp:185-209 | written messages, concatenated and cut into chunks, come out in order with nothing left, if and only if no chunk ends right after a message's first byte; each parses to its fields |
| Session.FixSession.constructor | src/session.cpp:30-31 | a new session is logged off and starts at number 1 in both directions |
| Session.FixSession.PrepareHeader | src/session.cpp:33-69 | writes the six header fields with the next number, or nothing when the buffer is too small |
| Session.FixSession.ReceiveMessage | src/session.cpp:71-137 | new state and action are those of the session rules |
| Session.FixSession.OnMessageSent | src/session.cpp:139-141 | only the outgoing number moves, by one |
| SessionLaws.LoggedOnMeans | src/session.cpp:85-119 | after any messages a session is logged on if and only if it was, or accepted some Logon, and no Logout with the expected number came since |
| SessionLaws.NextNumberMeans | src/session.cpp:91-113 | the expected number is what the last counted message makes it: one more than its own, or the tag 36 of a SequenceReset; nothing else moves it |
| SessionLaws.AnswersAreRight | src/session.cpp:75-136 | every message of a run gets the action and detail that its type, its number, its tags 36 and 43 and the session before it call for |
| SessionLaws.NothingBeforeLogon | src/session.cpp:85-88 | what a fresh session hears before the first Logon changes nothing |
| Delivery.SafeDelivery | src/session.cpp:85-136 | over any loss, repetition and reordering, what is consumed after the Logon is a prefix of the peer's stream, what is delivered a prefix of its application messages, and the expected number is one past the last consumed |
| Delivery.NoiseStutters | src/session.cpp:75-136 | exactly the too-high, the marked too-low and the incomplete messages leave the session as it was without delivering or disconnecting, apart from a reset to its own number |
| Delivery.NoiseIsHarmless | src/session.cpp:75-136 | such messages inserted anywhere change neither final state nor deliveries |
| Delivery.GapRecovery | src/session.cpp:96-127 | a run with a gap, early messages and a replay ends like the lossless run |
| Delivery.GapIsReported | src/session.cpp:123-127 | every early message is answered by a request for the first missing number |
| Outgoing.OutgoingReadsBack | src/runner.cpp:234-257 | an outgoing message reads back with the session's type and number, whatever 8, 9, 10 or header fields were supplied |
| ReadBack.WrittenReadsAs | src/parser.cpp:300-386 | a written message reads as the first value under tag 8, the body length, every other field but those with tags 8, 9 and 10 in order, and the three-digit checksum |
| ReadBack.OutgoingReadsAs | src/runner.cpp:234-257 | an outgoing message reads as begin string, length, type, sender, target, number, time, every supplied field but those with tags 8, 9, 10, 34, 35, 49, 52 and 56 in order, and the checksum |
| ReadBack.ReadTagByTag | src/runner.cpp:251-257 | for any other tag the receiver reads exactly the supplied fields with it, in order; the provided tags arrive once each with the session's values |
| Outgoing.SendableIsWritable | src/runner.cpp:248-260 | separator-free values and room for the fields suffice for the round trip |
| Outgoing.SizeIgnoresTime | src/session.cpp:22-27 | the 21-byte time stamp never decides whether a message fits: its length is the same at any time |
| Outgoing.ShortIsShort | src/runner.cpp:259-264 | a message of short header values alone is far below 4096 bytes |
| Link.InMemoryConnection.Connect | src/runner.cpp:24-28 | connects and keeps both queues |
| Link.InMemoryConnection.Disconnect | src/runner.cpp:30-35 | disconnects and keeps both queues |
| Link.InMemoryConnection.Send | src/runner.cpp:37-43 | answers true exactly when connected, and then, and only then, queues at the back |
| Link.InMemoryConnection.Receive | src/runner.cpp:45-60 | yields exactly when connected and something waits for the client, and then takes the oldest |
| Link.InMemoryConnection.ServerSend | src/runner.cpp:62-68 | answers true exactly when connected, and then, and only then, queues for the client |
| Link.InMemoryConnection.ServerReceive | src/runner.cpp:70-85 | yields exactly when connected and something waits for the server, and then takes the oldest |
| Link.StepConserves | src/runner.cpp:24-85 | each event keeps: receiver's next number plus queue length is sender's next number, and the queue holds exactly those numbers |
| Link.LinkConserves | src/runner.cpp:24-85 | so does every interleaving of sends, receives, disconnects and reconnects, and nothing received is a gap, too low, rejected or unparsable |
| Link.FreshLink | src/session.cpp:71-141 | two fresh sessions on a new connection start that way |
| Link.LinkMeans | src/runner.cpp:24-85 | after any events from any state, the sender has counted exactly the messages transmitted while connected, the receiver has heard the first of them in order, one at each delivery while connected that found one, and the others are queued |
| Link.StillWhileDisconnected | src/runner.cpp:30-85 | between a disconnect and the next connect neither session nor queue moves |
| History.FirstAnswerIs | src/runner.cpp:358-394 | the replying rule is the least triggered one whose reply, with the number due, fits 4096 bytes; there is none exactly when no rule is triggered with a fitting reply |
| Runner.ScenarioRunner.Compose | src/runner.cpp:235-260 | header, then the step's fields without header tags, written exactly when they fit 4096 bytes |
| Runner.ScenarioRunner.SendStep | src/runner.cpp:234-273 | serialization fails if and only if the text exceeds 4096 bytes; otherwise exactly one numbered message goes to the connection, and the number moves exactly when it was taken |
| Runner.ScenarioRunner.MatchFields | src/runner.cpp:347-355 | decides whether every expected field is found with its value |
| Runner.ScenarioRunner.ProcessMocks | src/runner.cpp:357-432 | the first triggered rule whose reply fits answers with the next number, and none answers only when there is none; the reply counts whether or not it was taken |
| Runner.ScenarioRunner.InspectMessage | src/runner.cpp:296-331 | session first, then match, then mock rules, then heartbeats; each error says why |
| Runner.ScenarioRunner.ExpectStep | src/runner.cpp:274-334 | success gives the step the first matching message, after messages passed over with one reply for each that a rule answers; failure is a timeout or names the message at fault, after the same |
| Runner.ScenarioRunner.TakeStep | src/runner.cpp:219-341 | what each kind of step sends, looks at and asks of the connection, and why it fails |
| Runner.ScenarioRunner.Run | src/runner.cpp:212-345 | the deeds are all that was sent and asked of the connection; every step before the last executed one did what it prescribes with the number due, and so did that one, or it failed for the reason given after what it prescribes up to there; the messages looked at are those framed from what arrived, in wire order, each parsed and given to the session once; the outgoing number counts every attempt but a refused SEND |
| RunLaws.RunHandsOut | src/runner.cpp:234-272 | whatever the outcome, all attempts come from SEND steps and mock rules and are numbered consecutively |
| RunLaws.OutgoingNumbering | src/runner.cpp:234-272 | the k-th attempt parses, and its tag 34 is the first number plus k |
| RunLaws.SentCount | src/runner.cpp:219-272 | as many attempts as SEND steps and mock replies together |
| RunLaws.SendStepNumber | src/runner.cpp:219-272 | a SEND step's message carries the first number plus the earlier SEND steps plus the earlier mock replies |
| RunLaws.EveryAttemptIsAccountedFor | src/runner.cpp:265-271 | whatever was sent is the message of one SEND step or the reply to one message looked at |
| RunLaws.WireIsGapFree | src/runner.cpp:422-428 | the peer sees no hole in the numbers if and only if no refused attempt precedes an accepted one |
| RunLaws.RefusedReplyLeavesHole | src/runner.cpp:424-428 | a refused reply followed by an accepted one starts the peer at number 2 |
| RunLaws.ExpectationIsFirstMatch | src/runner.cpp:274-334 | an EXPECT step is given the first message that matches it, from where it begins to look |
| RunLaws.ExpectationsAreOrdered | src/runner.cpp:274-334 | earlier EXPECT steps are given strictly earlier messages |
| RunLaws.EveryMessageIsAccountedFor | src/runner.cpp:312-331 | every message looked at is one step's match, or did not match and, with the number due at that moment, was answered by the first rule able to, or is a heartbeat or test request that no rule could answer |
| RunMeaning.MessagesAreExplained | src/runner.cpp:312-331 | every message of a run holds all fields of one EXPECT step, or lacks one and either is answered by the first rule whose first field it holds and whose reply takes at most 4096 bytes, or is of type 0 or 1 and no rule can answer it |
| RunMeaning.FirstAnswerMeans | src/runner.cpp:390-424 | which rule answers, said of fields and bytes alone |
| RunMeaning.TooLongMeans | src/runner.cpp:259-264 | a message is too long exactly when it exceeds 4096 bytes, at one time as at any |
| RunMeaning.AttemptsSayTheirSource | src/runner.cpp:241-257 | every attempt reads as the message with the number due made of its SEND step's fields (type 0 unless tag 35 comes first), or of what follows the trigger of its rule (type 8 unless tag 35 comes first) |
| RunMeaning.RulesInForce | src/runner.cpp:335-338 | the rules in force are the earlier ones, then those of the MOCK steps taken, in order |
| RunMeaning.ConnectionIsAsked | src/runner.cpp:223-233 | the connection is opened at each CONNECT step and closed at each DISCONNECT step, in order, and at no other |
| RunMeaning.FailureMeans | src/runner.cpp:224-332 | the reported reason is the one that the step's kind, the length of its message, or the message at fault calls for |
| RunMeaning.SessionHearsAll | src/runner.cpp:305-310 | after a run the session stands where the messages looked at bring it, each heard once and in order |
| Proxy.DrainTraffic | src/proxy.cpp:216-230 | the loop that tries SOH and then the pipe gives the specified messages and residue |
| Proxy.SohTraffic | src/proxy.cpp:22-47 | without a pipe in the stream it drains as with SOH alone, and every message is parsed with SOH |
| Proxy.PipeTraffic | src/proxy.cpp:22-47 | without SOH in the stream it drains as with the pipe alone, and every message is parsed with the pipe |
| Proxy.SingleSeparatorTraffic | src/proxy.cpp:207-230 | so it does chunk after chunk |
| Proxy.BarsInterfere | src/proxy.cpp:217-222 | on any stream the loop drains as with SOH alone if and only if no pipe follows the first `10=` of what SOH leaves |
| Proxy.BarsInterfereInRuns | src/proxy.cpp:207-230 | over any chunks, if and only if no chunk leaves such a partial message |
| Proxy.BarCutsEarly | src/proxy.cpp:217-222 | the partial message `8=F10=0` followed by a pipe is cut off although SOH alone would wait |
| Proxy.ProxyMonitor.AnalyzeMessage | src/proxy.cpp:254-325 | registry, latest client message and reported timing follow the specified step |
| Proxy.RegistryAgreesWithHistory | src/proxy.cpp:254-311 | an id is registered if and only if its latest client order has no later report, with that order's time |
| Proxy.ReportMeasuresLatestOrder | src/proxy.cpp:291-304 | an order latency is reported exactly for a report on a pending order, and measures from its latest order |
| Proxy.OrdersAreConserved | src/proxy.cpp:262-303 | per id, orders equal reports plus live registrations plus overwritten repetitions |
| Proxy.WaitingAgreesWithHistory | src/proxy.cpp:272-273 | a client message waits for its round trip if and only if it is the latest one and every typed server message since answered an order; type and time are its own |
| Proxy.RoundTripMeasuresLatestClient | src/proxy.cpp:306-311 | a round trip is reported exactly for a typed server message that answers no order while a client message waits, and measures that one |
| Dsl.ParseFields | src/scenario.cpp:122-158 | the loop over separators reads the specified fields or the first error |
| Dsl.ParseDsl | src/scenario.cpp:84-166 | the loop over lines reads the specified steps or the first error with its line number |
| Dsl.TrimPadded | src/scenario.cpp:21-26 | trimming removes exactly the white space around a text |
| DslLaws.TrimIs | src/scenario.cpp:21-26 | trimming yields t exactly from t with blanks, tabs, CR and LF around it |
| DslLaws.PieceMeans | src/scenario.cpp:138-156 | a piece is the field whose tag its text before the first `=` begins with and whose value is the trimmed rest; it fails for want of `=` or of a number |
| DslLaws.FieldsMean | src/scenario.cpp:122-158 | arguments cut at every bar, and behind the last bar at every SOH, read as the fields of their solid pieces in order, or as the failure of the first that is none |
| DslLaws.LineMeans | src/scenario.cpp:98-162 | a line is a remark, a step of one of the five commands, or an unknown command with its first word |
| DslLaws.ScriptMeans | src/scenario.cpp:89-117 | a script reads as the steps of its lines in order, or as the failure of the first failing line under that line's number |
| Dsl.FieldsRoundTrip | src/scenario.cpp:122-158 | fields of trimmed values free of bars and newlines, rendered with bars between them, are read back if and only if the last value is free of SOH |
| Dsl.LineRoundTrip | src/scenario.cpp:98-162 | so is a rendered step from its line |
| Dsl.ScriptReadIs | src/scenario.cpp:89-158 | every value read from any script is trimmed and free of bars and newlines |
| Dsl.ClosingIsHarmless | src/scenario.cpp:89-95 | a newline after the last line changes nothing |
| Dsl.ScriptRoundTrip | src/scenario.cpp:84-166 | rendered steps, with blank and `#` lines anywhere, are read back if and only if all values are trimmed and free of bars and newlines and the last value of each step is free of SOH |
| Dsl.OpenScriptRoundTrip | src/scenario.cpp:84-166 | the same when the last line is not closed |
| Dsl.SohAtEndIsLost | src/scenario.cpp:126-130 | a SOH in the only value of a step is not read back |
| EndToEnd.SuppliedIsTransmissible | src/runner.cpp:248-260 | what a peer may supply for the stream round trip: values free of the separator and of `10=`, no tag ending in 10, and room for the fields |
| EndToEnd.EndToEnd | src/runner.cpp:279-305 | a peer's numbered messages, written and cut anywhere but after a first byte, are framed, parsed and consumed in order by the session, which ends expecting the peer's next number with every application message delivered |

## Left out

- Session.FixSession.ReceiveMessage: sequence numbers are unbounded here; stepping past the largest 32-bit number is undefined in the source.
- Session.FixSession.OnMessageSent: the same for the outgoing number.
- Session.FixSession.PrepareHeader: the sending time is a parameter, since reading the clock is library time; the string a field view points into is part of the field.
- Serializer.SerializeMessage: buffers of 2^31 bytes and more, where the casts to `int` in the source change meaning; and what a failed call leaves in the buffer.
- ErrorDetection.SingleByteErrorIsDetected: texts of 2^31 bytes and more, where the 32-bit length no longer fixes the body.
- Parser.FixMessage.Parse: the parsed message is a value filled from an array of 256 slots; that its views share the caller's bytes is not modelled.
- Groups.GetGroup: instances are ranges of the field table in a sequence, not spans in an array of 64.
- Link.InMemoryConnection.Receive: each call is one atomic step; waiting, wake-ups and the mutex are not modelled, so a wait that ends with a message is a later call.
- Runner.ScenarioRunner.Run: a SEND step needs at least one field, since the source reads its first one without looking; the connection's answers and the sending time are up to the environment; the clock of an EXPECT step is a finite number of readings, so a timeout has no further cause.
- Runner.SendingTime: any text of the shape the source prints, with a year of four digits.
- Runner.ScenarioRunner.InspectMessage: error and info texts.
- Dsl.ScriptRoundTrip: one rendering per step, a blank after the command and bars with a blank on each side.
- Sockets and everything around them: `TcpConnection`, the proxy's accept loop, forwarding threads and byte forwarding.
- The proxy's glue that parses each drained message and hands it to the registry, and its dictionary checks and console lines.
- `src/dictionary.cpp` (substring scanning of XML, map look-ups) and `src/replay.cpp` (files and calendar calls): they would only add easy members.
- `get_double` (`strtod`), the plain setters of the session, the scenario's name, its file loading and its fluent builder.
