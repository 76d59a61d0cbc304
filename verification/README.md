# Verified model of the rocom firmware's protocol and data code

The firmware bridges a serial port to TCP (RFC 2217), updates itself over TFTP and manages Wi-Fi networks.
This project models the five parts of it that carry logic of their own, in Dafny, and proves what they are
there for. Code that changes fields or buffers step by step is a class or a method with loops over arrays and
fields, proved against functions on values; the properties are lemmas about those functions, over every input
and every run.

- **Serial port over Telnet** (`TelnetCodec`, `TelnetCuts`, `TelnetInterleaving`, `TelnetNegotiation`, `TelnetRuns`,
  `TelnetTranscript`, `TelnetStaleBytes`, `TelnetSend`, `TelnetServer`). The server object with its parser mode, 16-byte suboption buffer, bounded data
  buffer and option table. Received bytes, events and sent bytes are logs. For streams whose suboptions fit, the
  parser agrees with a one-pass decoder of the whole stream exactly under the splits into reads that divert none
  of them; the decoder inverts the command grammar of RFC 854 and RFC 855; escaped data arrives unchanged; frames
  arrive exactly when they fit and their command is not 255; every option entry is an independent automaton with
  alternating replies; and all the server says and calls on a connection is told by a transcript that knows only
  what the client asked before.
- **TFTP** (`TftpReceiver`, `TftpDiscipline`, `TftpRules`, `TftpProgress`, `TftpProtocol`, `TftpRequest`). The receive loop, fed with
  the results of its receive calls and proved equal to a step function. First against any peer: the answer to every
  input, flash contents, acknowledgements, retransmissions, callback. Then against a lock-step sender (RFC 1350, sections 2 and 6)
  and a network that loses, duplicates, delays and reorders both packets and acknowledgements: what is in flash
  is always right, and as long as the loop has not returned the transfer can still be completed.
- **MurmurHash3** (`Words`, `Folding`, `Murmur3`, `Murmur3x86x32`, `Murmur3x86x128`, `Murmur3x64x128`). Machine words are
  natural numbers below a power of two, with wrap-around and bitwise operations written out. All mixing steps
  have inverses, given with their constants, so the hashes are bijections of their state and never collide on a
  change of one block or of the tail.
- **Wi-Fi lists** (`CStrings`, `ApList`, `StationStore`, `StationHistory`, `Candidates`). Deduplication, compaction and sorting of a scan in
  place, the stored array of stations as a map, and the choice of networks to try.
- **JSON strings** (`JsonString`). The measuring pass, the writing pass and the shortcut, read back with the string
  grammar of RFC 8259, section 7.

`dafny verify dfyconfig.toml` checks everything.

## What the code does that its surroundings do not suggest

Each of these is kept in the model. Where one limits a property, the lemma named with it says exactly how far.

- The shortcut for reads without the byte 255 (`main/rfc2217_server.c:389`) ignores `collecting_suboption`. A read is
  then taken out of a suboption in progress. `TelnetCodec.ReadAgreesUnlessDiverted` says exactly when for one read,
  `TelnetCuts.ChunkInvarianceIff` for a whole split, and `TelnetCuts.FrameHeadIsDiverted` is such a split.
- `rfc2217_send_subnegotiation` escapes the payload but not the command byte: `TelnetCodec.FrameArrivesIff`.
- A suboption is processed at fixed positions whatever its size, so a short one is completed by bytes of an
  earlier one: `TelnetStaleBytes.StaleBytesMatterIff` says exactly which.
- PURGE-DATA is answered twice, every other command once: `TelnetRuns.ReplyAnswersRequest`.
- `block` is an `int` compared with a 16-bit number, so a transfer of 65535 * 512 bytes or more can never end with
  `ERR_OK`: `TftpProtocol.DeliverableIff`. At block 65536 nothing is accepted: `TftpDiscipline.NothingAcceptedAtTheEnd`.
- The very first station added keeps only 32 bytes of its password (`components/wilma/wilma.c:341`), all others 64:
  `StationStore.PasswordKept`.
- `wilma_json_print_string` refuses a null input, although its comment calls that case the empty string: the
  pointer it tests is always null there.
- A scan that finds nothing leaves the connection list as it was.

## Model

| member | source | states |
|---|---|---|
| `TelnetCodec.DecodeConcat` | main/rfc2217_server.c:396-472 | decoding a stream is decoding its parts one after the other, with nothing carried between them but the parser fields |
| `TelnetCodec.DecodePlain` | main/rfc2217_server.c:388-394 | outside a command and a suboption, bytes without 255 come out of the byte loop as they are |
| `TelnetCodec.DecodeCollectingKeepsOne` | main/rfc2217_server.c:402-412 | inside a suboption the byte loop always keeps at least the first byte of such a read back from the data |
| `TelnetCodec.ReadAgreesUnlessDiverted` | main/rfc2217_server.c:386-481 | one read means the same by shortcut and by byte loop if and only if it is not a non-empty read without 255 that starts in T_NORMAL while collecting |
| `TelnetCodec.ChunkInvariance` | main/rfc2217_server.c:386-481 | every split of a stream none of whose reads is diverted gives the parser state, data and actions of the one-pass decoder, hence all such splits agree |
| `TelnetCodec.QuietStreamsAreFaithful` | main/rfc2217_server.c:386-481 | a stream that never leaves the parser collecting can be cut anywhere |
| `TelnetCodec.DecodeBody` | main/rfc2217_server.c:405-412 | an escaped suboption body lands at the start of the buffer over the stale bytes; the 17th byte ends the collection and the rest is data |
| `TelnetCodec.DecodeSuboption` | main/rfc2217_server.c:448-456 | IAC SB, any escaped body, IAC SE, from any parser in T_NORMAL: one subnegotiation with exactly that body if it fits, size 0 if it does not |
| `TelnetCodec.DecodeToken` | main/rfc2217_server.c:399-472 | every token of the RFC 854 and RFC 855 grammar is decoded as what it means and leaves the parser idle |
| `TelnetCodec.DecodeInvertsWire` | main/rfc2217_server.c:386-481 | the decoder inverts the stream grammar for every sequence of well-formed tokens |
| `TelnetCodec.EscapedDataDecodes` | main/rfc2217_server.c:504-514 | what the data writer escapes decodes to the same bytes, without an action and with the parser unchanged |
| `TelnetCodec.EscapedDataIsQuiet` | main/rfc2217_server.c:504-514 | no prefix of escaped data leaves the parser collecting |
| `TelnetCodec.DataRoundTrip` | main/rfc2217_server.c:386-514 | however escaped data is cut into reads, shortcut and byte loop mixed, exactly the data comes out, nothing is triggered and the parser is idle again |
| `TelnetCodec.SuboptionsCostTheirEscapedForm` | main/rfc2217_server.c:399-472 | no stream can report a suboption whose escaped form and terminator are longer than the stream |
| `TelnetCodec.UnescapedIacNeverArrives` | main/rfc2217_server.c:629-651 | a frame written with command byte 255 never arrives as written, from any parser in T_NORMAL |
| `TelnetCodec.FrameArrivesIff` | main/rfc2217_server.c:629-651 | a written frame arrives as one subnegotiation with exactly option, command and payload if and only if the command is not 255 and the three fit 16 bytes, whatever the parser held |
| `TelnetCuts.FaithfulIffClean` | main/rfc2217_server.c:386-394 | whether a split diverts a read depends on the stream and the places of the cuts alone |
| `TelnetCuts.DecodeLags` | main/rfc2217_server.c:399-472 | a parser that missed suboption bytes reads everything else as the decoder does, as long as no suboption overflows |
| `TelnetCuts.ReadLags` | main/rfc2217_server.c:386-481 | one read adds to the data exactly the bytes it diverts |
| `TelnetCuts.CutsLag` | main/rfc2217_server.c:386-481 | over any split of such a stream the parser stays in step, with at least one byte of data too many if a read was diverted |
| `TelnetCuts.ChunkInvarianceIff` | main/rfc2217_server.c:386-481 | for every stream whose suboptions fit the buffer, a split gives the state, data and actions of the one-pass decoder if and only if it diverts no read |
| `TelnetCuts.OverflowCanHideADiversion` | main/rfc2217_server.c:402-412 | with a full buffer it can do so although a read is diverted: a concrete split |
| `TelnetCuts.DiversionShows` | main/rfc2217_server.c:389-394 | a split that diverts a read hands data over, whatever the stream |
| `TelnetCuts.CutFrameArrivesIff` | main/rfc2217_server.c:386-481 | a frame that fits, cut in any way, arrives whole if and only if no read is diverted |
| `TelnetCuts.FrameHeadIsDiverted` | main/rfc2217_server.c:389-394 | the command byte of a frame in a read of its own goes to the data callback, from any parser in T_NORMAL |
| `TelnetInterleaving.TokenInside` | main/rfc2217_server.c:402-471 | a payload byte or a command inside a suboption: the byte is collected, the command carried out, the collection goes on |
| `TelnetInterleaving.CommandsInside` | main/rfc2217_server.c:399-472 | any mixture of payload and commands inside a suboption that fits collects exactly the payload and carries out exactly the commands |
| `TelnetInterleaving.SuboptionWithCommands` | main/rfc2217_server.c:399-472 | a whole suboption with commands in it, from any parser in T_NORMAL: the commands in order and then the subnegotiation with exactly the payload, and no data |
| `TelnetNegotiation.EntryInvariant` | main/rfc2217_server.c:133-177 | over every run of one entry: `active` mirrors T_ACTIVE, T_REALLY_INACTIVE is never entered, replies alternate, the last tells the state, and there is one for every change of state but the answer to the entry's own request |
| `TelnetNegotiation.ReactKeepsAlternation` | main/rfc2217_server.c:133-177 | one command keeps consistency and alternation |
| `TelnetNegotiation.ReactAnswersChanges` | main/rfc2217_server.c:133-177 | a reply is sent exactly when an entry with a send callback changes state from other than T_REQUESTED; T_REQUESTED is never re-entered |
| `TelnetNegotiation.LastCommandDecides` | main/rfc2217_server.c:133-177 | an entry is active if and only if the last command addressed to it agreed |
| `TelnetNegotiation.NegotiateFirstEntry` | main/rfc2217_server.c:528-535 | the loop changes exactly the entries with the requested option, each by its own reaction |
| `TelnetNegotiation.NegotiateFirstUnknown` | main/rfc2217_server.c:528-544 | turns of entries for other options change nothing |
| `TelnetNegotiation.RespondConcat` | main/rfc2217_server.c:448-470 | the responses to a list of actions are those to its parts, in order |
| `TelnetRuns.RespondEntry` | main/rfc2217_server.c:524-545 | one action moves an entry exactly by the command it addresses to that entry, if any |
| `TelnetRuns.EntriesAreIndependent` | main/rfc2217_server.c:524-545 | over every run an entry's state depends only on the commands addressed to it |
| `TelnetRuns.InitialTable` | main/rfc2217_server.c:181-204 | no two entries of the table share an option and a verb, and all start consistent |
| `TelnetRuns.RespondVerbs` | main/rfc2217_server.c:524-551 | the verbs an observer of the wire attributes to an entry are exactly that entry's replies, refusals of unknown options and subnegotiations included |
| `TelnetRuns.RepliesAreIndependent` | main/rfc2217_server.c:524-551 | the same over every run |
| `TelnetRuns.NegotiationRuns` | main/rfc2217_server.c:179-208 | every entry after every run from telnet_options_init: consistency, active exactly if last agreed to, alternating verbs on the wire, one for each change of state but the answer to its own request |
| `TelnetRuns.SidesAreSeparate` | main/rfc2217_server.c:181-189 | DO and DONT change only entries that offer with WILL, WILL and WONT only those that ask with DO, and only of that option |
| `TelnetRuns.NegotiateFirstNoticed` | main/rfc2217_server.c:528-562 | one negotiation sets client_is_rfc2217 and gives notice exactly if an entry with the callback becomes active and the client was not known yet |
| `TelnetRuns.RespondNoticed` | main/rfc2217_server.c:553-562 | one action gives notice exactly at the first activation of a Com Port entry |
| `TelnetRuns.ConnectedExactlyOnce` | main/rfc2217_server.c:553-562 | over every run on_client_connected is called once if a Com Port entry was ever active, and otherwise never |
| `TelnetRuns.ReplyAnswersRequest` | main/rfc2217_server.c:565-627 | every supported command is answered by a frame with its code plus 100 and the accepted value, which is the last event and arrives whole at any peer in T_NORMAL; PURGE-DATA is answered exactly twice, all others exactly once; nothing else is answered |
| `TelnetRuns.BaudrateFrame` | main/rfc2217_server.c:574-582 | a frame with a 32-bit rate is parsed as one subnegotiation of six bytes carrying that rate, whatever the buffer held |
| `TelnetRuns.BaudrateRoundTrip` | main/rfc2217_server.c:565-582 | SET-BAUDRATE with any rate calls the callback with that rate, and the reply, parsed again, carries exactly the rate it returned |
| `TelnetTranscript.ActionAnswered` | main/rfc2217_server.c:133-177 | each request gets what the history of the client's earlier requests and the bytes of the RFCs say, and the option table remembers just enough of it |
| `TelnetTranscript.CommandsAnswered` | main/rfc2217_server.c:565-627 | callbacks and answers of every Com Port command, byte by byte: the value that SET-CONTROL's callback returned, the echoed value of all others, the rate most significant byte first |
| `TelnetTranscript.OfferTurn` | main/rfc2217_server.c:136-175 | WILL or WONT answers a DO or DONT that differs from the last one, except the first, which answers the server's offer |
| `TelnetTranscript.RequestTurn` | main/rfc2217_server.c:136-175 | DO or DONT answers a WILL or WONT that differs from the last one |
| `TelnetTranscript.OtherOption` | main/rfc2217_server.c:524-545 | ECHO, SGA and BINARY are negotiated without a word, any unknown option is refused |
| `TelnetTranscript.TranscriptHolds` | main/rfc2217_server.c:524-627 | over every connection the server says and calls exactly what the transcript says, in that order |
| `TelnetTranscript.UnknownOptionsAreRefused` | main/rfc2217_server.c:536-544 | over every connection the messages that name an option the table does not have are exactly 255 254 o for each WILL o and 255 252 o for each DO o, in order |
| `TelnetTranscript.RefusalsNeverAgree` | main/rfc2217_server.c:536-544 | so no such option is ever agreed to or asked for |
| `TelnetStaleBytes.EnoughDecides` | main/rfc2217_server.c:565-627 | a body with its option, command and value decides the reaction whatever the buffer held |
| `TelnetStaleBytes.TooFewDecidesNothing` | main/rfc2217_server.c:565-627 | for every shorter body there are two earlier buffers with different reactions |
| `TelnetStaleBytes.StaleBytesMatterIff` | main/rfc2217_server.c:565-627 | for every configuration and body, stale bytes are harmless if and only if the body has its needed length: 1 for another option, 2 for an unsupported command, 6 for SET-BAUDRATE, otherwise 3 |
| `TelnetSend.TcpSend` | main/rfc2217_server.c:368-384 | whatever pieces send() takes, the wire gets the message from its start, as far as there is room before the first error, and all of it exactly if that room suffices; the loop gives up only at an error |
| `TelnetServer.Server.constructor` | main/rfc2217_server.c:215-227 | a new server has zeroed parser fields, no client and empty logs |
| `TelnetServer.Server.AcceptClient` | main/rfc2217_server.c:323-333 | a new connection resets the parser, keeps the stale suboption bytes and starts from the initial option table |
| `TelnetServer.Server.SendData` | main/rfc2217_server.c:484-516 | without a client -1 and nothing sent; otherwise the escaped data in one send, within the 2048-byte buffer |
| `TelnetServer.Server.SendSubnegotiation` | main/rfc2217_server.c:629-651 | the frame is written into the 256-byte buffer and sent |
| `TelnetServer.Server.EscapeInto` | main/rfc2217_server.c:639-645 | the escaping loop writes the escaped payload behind the head of the frame |
| `TelnetServer.EscapeAtMostDoubles` | main/rfc2217_server.c:496-502 | escaping at most doubles the data, so half the buffer's size always fits |
| `TelnetServer.Server.OnClientOk` | main/rfc2217_server.c:553-562 | sets the flag and gives notice once |
| `TelnetServer.Server.SendOption` | main/rfc2217_server.c:547-551 | sends IAC, verb and option |
| `TelnetServer.Server.ProcessIncoming` | main/rfc2217_server.c:133-177 | entry, flag and events change as the entry's automaton says; all other entries stay |
| `TelnetServer.Server.ProcessYes` | main/rfc2217_server.c:136-159 | the branch for an agreement, with its reply and notice in order |
| `TelnetServer.Server.ProcessNo` | main/rfc2217_server.c:160-175 | the branch for a refusal |
| `TelnetServer.Server.TryEntry` | main/rfc2217_server.c:529-535 | one turn of the loop over the table |
| `TelnetServer.Server.NegotiateOption` | main/rfc2217_server.c:524-545 | all entries with the option react in turn; an unknown option is refused with DONT or WONT |
| `TelnetServer.Server.ProcessSubnegotiation` | main/rfc2217_server.c:565-627 | callbacks and replies of every Com Port command, in order |
| `TelnetServer.Server.OnDataReceived` | main/rfc2217_server.c:474-480 | the data is handed over in one piece exactly if there is a callback |
| `TelnetServer.Server.TakePayload` | main/rfc2217_server.c:405-446 | a payload byte goes to the suboption or the data buffer; what was flushed and what is still held is exactly the decoded data |
| `TelnetServer.Server.EndSuboption` | main/rfc2217_server.c:452-456 | IAC SE processes the buffer and then ends the collection |
| `TelnetServer.Server.TakeCommand` | main/rfc2217_server.c:448-463 | the byte after IAC changes parser and table as the decoder and its responses say |
| `TelnetServer.Server.TakeByte` | main/rfc2217_server.c:399-472 | one turn of the loop refines one step of the decoder, with no data lost or repeated in the buffer |
| `TelnetServer.Server.NextByte` | main/rfc2217_server.c:399-472 | that turn on top of all turns before it, with data, state and events accumulated |
| `TelnetServer.Server.ByteLoop` | main/rfc2217_server.c:396-472 | after the loop all decoded data is handed over but what the buffer holds |
| `TelnetServer.Server.ProcessBytes` | main/rfc2217_server.c:396-480 | the byte loop and the final flush deliver the decoder's data, in whole buffers and then the rest, and perform the responses to its actions |
| `TelnetServer.Server.FlushRest` | main/rfc2217_server.c:474-480 | what the buffer still holds is handed over, and no empty piece ever |
| `TelnetServer.Server.ProcessReceived` | main/rfc2217_server.c:386-481 | one read with the shortcut, against the value of one read |
| `TelnetServer.Server.ReceiveAll` | main/rfc2217_server.c:344-359 | a whole connection: data, parser state, option table and events are those of the list of reads, for any data buffer size |
| `TelnetServer.Server.Serve` | main/rfc2217_server.c:323-366 | a connection from accept to close: table and parser start afresh except for stale suboption bytes, all data goes to the callback if there is one, the events are the transcript of all requests, and the disconnection notice comes last |
| `TftpReceiver.GatheredChunks` | main/ota-tftp.c:371-397 | for every segmentation the written chunks concatenate to the packet without its four header bytes |
| `TftpReceiver.ChunksBySegment` | main/ota-tftp.c:371-397 | only the first segment loses anything, and that is its first four bytes |
| `TftpReceiver.RunStaysFinished` | main/ota-tftp.c:309-424 | a run that returned is not changed by further inputs |
| `TftpReceiver.Receiver.WriteSegments` | main/ota-tftp.c:375-393 | all chunks are written in order, or those before the failing write |
| `TftpReceiver.Receiver.AcceptBlock` | main/ota-tftp.c:371-424 | write, count, acknowledge, report, and end after a short packet, as the step of the loop says |
| `TftpReceiver.Receiver.HandleError` | main/ota-tftp.c:333-346 | a timeout sends the last ACK again or ends the run, any other error ends it, as the step says |
| `TftpReceiver.Receiver.HandleOther` | main/ota-tftp.c:348-366 | a duplicate is acknowledged again, any other packet ends the run with an error |
| `TftpReceiver.Receiver.Turn` | main/ota-tftp.c:309-427 | one turn of the loop refines one step |
| `TftpReceiver.Receiver.ReceiveData` | main/ota-tftp.c:302-426 | the loop's log, result and *received_len are those of the run of steps over its inputs |
| `TftpDiscipline.StepKeeps` | main/ota-tftp.c:309-426 | one turn of the loop keeps the invariant of counters and log |
| `TftpDiscipline.RunsAreConsistent` | main/ota-tftp.c:302-426 | over every run, whoever sends: flash is exactly the accepted payloads unless a write failed, *received_len is their length, ERR_OK follows one short payload after full ones, block is at most 65536, every ACK n left with exactly blocks 1 to n in flash, ACK numbers never decrease |
| `TftpDiscipline.AcceptKeepsLog` | main/ota-tftp.c:376-421 | accepting a block writes it before acknowledging it |
| `TftpDiscipline.AcceptKeepsCount` | main/ota-tftp.c:368-427 | accepting a block counts it and its bytes; ERR_OK follows only a short one, and the loop goes on only after a full one |
| `TftpDiscipline.FailedWriteKeeps` | main/ota-tftp.c:387-391 | a failed write acknowledges nothing and ends the run |
| `TftpDiscipline.OtherKeeps` | main/ota-tftp.c:333-366 | timeouts, errors, duplicates and foreign packets keep the invariant |
| `TftpDiscipline.OtherWritesNothing` | main/ota-tftp.c:333-366 | only the expected block changes the flash |
| `TftpDiscipline.NothingAcceptedAtTheEnd` | main/ota-tftp.c:354-366 | at block 65536 no packet is accepted and ERR_OK is out of reach |
| `TftpDiscipline.AcksAccountedFor` | main/ota-tftp.c:333-421 | the ACKs of a run number its accepted blocks plus duplicates plus survived timeouts |
| `TftpDiscipline.RetriesCountTimeouts` | main/ota-tftp.c:333-369 | the retry counter is ten less the timeouts since the last accepted block, duplicates notwithstanding |
| `TftpDiscipline.TimeoutRule` | main/ota-tftp.c:333-343 | a timeout returns ERR_TIMEOUT if and only if no block was accepted or it is the eleventh since the last one; otherwise the last ACK is sent again |
| `TftpDiscipline.RunningRetransmissions` | main/ota-tftp.c:300-369 | while the loop runs: at most ten retransmissions for each earlier block and, since the last one, as many as there were timeouts |
| `TftpDiscipline.RetransmissionsAreBounded` | main/ota-tftp.c:300-369 | over every run, ended or not: at most ten retransmissions since the last accepted block, none before the first, at most ten for each block, and none after the last block of a successful transfer |
| `TftpDiscipline.RunningIsBounded` | main/ota-tftp.c:309-426 | a running loop has consumed one input for each block, retransmission and duplicate, so besides duplicates at most 11 * 65535 |
| `TftpRules.ForeignRule` | main/ota-tftp.c:348-366 | with n blocks accepted any packet but DATA n and DATA n + 1 is answered with error 4 and ends the loop with ERR_VAL, nothing accepted |
| `TftpRules.DuplicateRule` | main/ota-tftp.c:355-362 | DATA n is acknowledged again as n and otherwise ignored |
| `TftpRules.AcceptRule` | main/ota-tftp.c:368-427 | DATA n + 1 is written, acknowledged as n + 1 and reported with all bytes so far, in that order; the loop goes on exactly if the packet had at least 516 bytes and the ACK could be sent |
| `TftpRules.FailedWriteRule` | main/ota-tftp.c:387-391 | a failing write ends the loop with ERR_VAL after the chunks before it, nothing acknowledged or accepted |
| `TftpRules.ErrorRule` | main/ota-tftp.c:343-346 | an error other than a timeout is answered with error 4 and passed on |
| `TftpRules.ResultsByInput` | main/ota-tftp.c:333-427 | which input ends a running loop with which result, for each result in both directions |
| `TftpRules.RunningPackets` | main/ota-tftp.c:354-366 | a loop still running after a packet was given DATA n or n + 1, n being the blocks accepted before it |
| `TftpProgress.RunsAreReported` | main/ota-tftp.c:418-421 | directly after the ACK of each accepted block the callback is told how long the file is by then, and nothing else; no report is missing unless the run failed |
| `TftpProgress.AcceptReports` | main/ota-tftp.c:412-425 | accepting a block keeps the reports in step with it: the new length after its ACK, left out only if the ACK could not be sent |
| `TftpProtocol.FlattenedBlocks` | main/ota-tftp.c:307-308 | the first n blocks of a file are its first 512 n bytes, all blocks the file |
| `TftpProtocol.CarriedBlock` | main/ota-tftp.c:347-397 | a DATA packet cut into any segments is read back as its number modulo 65536 and its block |
| `TftpProtocol.ExpectedIsNext` | main/ota-tftp.c:354-366 | of all blocks that may be in flight, only the next one carries the expected number |
| `TftpProtocol.HeardIsOld` | main/ota-tftp.c:429-438 | every acknowledgement in flight is for a block already accepted |
| `TftpProtocol.HearKeeps` | main/ota-tftp.c:429-438 | an acknowledgement, however old or repeated, keeps the sender at most one block ahead |
| `TftpProtocol.DeliverKeeps` | main/ota-tftp.c:320-426 | any delivery, duplicate or timeout keeps the invariant |
| `TftpProtocol.InvariantHolds` | main/ota-tftp.c:302-426 | the window invariant holds in every behaviour |
| `TftpProtocol.Safety` | main/ota-tftp.c:302-426 | in every behaviour flash is a prefix of the file, at the loop head exactly its first block - 1 blocks with *received_len its length, and after ERR_OK the whole file, which is then shorter than 65535 * 512 bytes |
| `TftpProtocol.LosslessWorks` | main/ota-tftp.c:302-426 | from any behaviour in which the sender's last block has arrived and its ACK is on its way, the transfer goes on undisturbed up to any later block, and ends with ERR_OK at the last |
| `TftpProtocol.RunsAckTheLast` | main/ota-tftp.c:412-416 | over every run the last accepted block has been acknowledged |
| `TftpProtocol.RunningPosition` | main/ota-tftp.c:302-426 | while the loop runs the sender is at the last accepted block or one ahead, and that block's ACK is in transit |
| `TftpProtocol.RunningCanFinish` | main/ota-tftp.c:302-426 | every behaviour of a file shorter than 65535 * 512 bytes whose loop has not returned extends to one that ends with ERR_OK, whatever was lost, repeated or reordered before |
| `TftpProtocol.DeliverableIff` | main/ota-tftp.c:305-427 | a file can be received with ERR_OK if and only if it is shorter than 65535 * 512 bytes |
| `TftpRequest.FieldOfJoined` | main/ota-tftp.c:264-273 | field k is the k-th NUL-terminated string, and NULL exactly when there are fewer than k + 1 terminators |
| `TftpRequest.EveryStringIsJoined` | main/ota-tftp.c:274-298 | every packet body is such a list of strings and a NUL-free rest |
| `TftpRequest.ScanFindsField` | main/ota-tftp.c:280-290 | the scan from any point inside a string finds what the definition of the k-th string says |
| `TftpRequest.GetField` | main/ota-tftp.c:274-298 | the loop with its offset, counter and field bounds returns the k-th string after the opcode with its NUL, or NULL |
| `TftpRequest.Strcpy` | main/ota-tftp.c:460-462 | the string and its NUL at their place, every other byte kept |
| `TftpRequest.BuildReadRequest` | main/ota-tftp.c:455-467 | the two copies fill exactly the allocated bytes with a read request |
| `TftpRequest.RequestRoundTrip` | main/ota-tftp.c:274-467 | field 0 of a written request is the name, field 1 the mode, and there is no field 2 |
| `TftpRequest.RequestLayout` | main/ota-tftp.c:455-467 | the written request byte by byte: 0 1, the name, 0, "octet", 0 |
| `TftpRequest.WriteRequestIff` | main/ota-tftp.c:203-233 | a packet asks for the firmware if and only if it begins with 0 2, "rocom.bin", 0, "octet", 0 |
| `TftpRequest.RefusalRule` | main/ota-tftp.c:196-233 | what every other packet gets: nothing if it is short or has another opcode, error 1 for another file, error 4 for another mode |
| `TftpRequest.ServeRequest` | main/ota-tftp.c:188-262 | the boot partition is chosen if and only if the request is for the firmware in octet mode, was acknowledged, and the transfer returned ERR_OK; every other request gets its error or nothing |
| `TftpRequest.ReceiveFile` | main/ota-tftp.c:236-262 | block 0 is acknowledged before the transfer, whose result decides |
| `TftpRequest.BootsOnlyCompleteFiles` | main/ota-tftp.c:253-262 | whenever the transfer returned ERR_OK the flash holds the sender's whole file |
| `Words.RotlSwapsParts` | components/wilma/murmur3.c:23-31 | rotation exchanges the high and the low part of a word |
| `Words.RotlBack` | components/wilma/murmur3.c:23-31 | rotating by r and then by w - r gives the word back |
| `Words.XorBit` | components/wilma/murmur3.c:98 | bit k of an exclusive or is the sum of the two bits |
| `Words.XorShiftBack` | components/wilma/murmur3.c:47-69 | x ^ (x >> n) has an inverse on w-bit words whenever w is at most 3 n |
| `Words.MulBack` | components/wilma/murmur3.c:47-69 | multiplying by a constant with an inverse modulo 2^w is undone by that inverse |
| `Folding.UnfoldFold` | components/wilma/murmur3.c:90-101 | iterating an invertible step over any number of keys can be undone |
| `Folding.OneKeyDiffers` | components/wilma/murmur3.c:90-101 | two lists of keys that differ in one place lead to different states |
| `Folding.FoldCons` | components/wilma/murmur3.c:90-101 | the first key is the first that is mixed in |
| `Murmur3.Fmix32Bijective` | components/wilma/murmur3.c:47-56 | fmix32 and its inverse are bijections of the 32-bit words, inverse to each other both ways |
| `Murmur3.Fmix64Bijective` | components/wilma/murmur3.c:60-69 | the same for fmix64 and 64-bit words |
| `Murmur3.Fmix32Undone` | components/wilma/murmur3.c:47-56 | the five statements of fmix32 taken back one by one, with shifts and inverse multipliers written out |
| `Murmur3.Fmix64Undone` | components/wilma/murmur3.c:60-69 | the same for fmix64 |
| `Murmur3.FourBytes` | components/wilma/murmur3.c:42 | what each byte of a 32-bit word counts |
| `Murmur3.EightBytes` | components/wilma/murmur3.c:42 | a 64-bit word has its low half first |
| `Murmur3.FinalMix32` | components/wilma/murmur3.c:47-56 | the statements of fmix32 compute the function proved bijective |
| `Murmur3.FinalMix64` | components/wilma/murmur3.c:60-69 | the statements of fmix64 compute the function proved bijective |
| `Murmur3.MixInjective` | components/wilma/murmur3.c:94-96 | mixing a key word loses nothing |
| `Murmur3.LaneBack` | components/wilma/murmur3.c:159-161 | a lane update is undone exactly, for every mixed key and added lane |
| `Murmur3.LaneForth` | components/wilma/murmur3.c:159-161 | and every word is the result of one |
| `Murmur3.LaneInjectiveInKey` | components/wilma/murmur3.c:159-161 | different mixed keys move a lane to different places |
| `Murmur3.SwitchCase` | components/wilma/murmur3.c:276-296 | one case of the fall-through switch puts one byte at its place of the word |
| `Murmur3.TailByte` | components/wilma/murmur3.c:276-296 | that case, taken exactly if the tail reaches the byte |
| `Murmur3.TailWord` | components/wilma/murmur3.c:276-296 | the cases of one word together read it from the tail, missing bytes zero |
| `Murmur3.LoadPadded` | components/wilma/murmur3.c:276-296 | so the tail is read as if the key went on with zeros |
| `Murmur3x86x32.StepInvertible` | components/wilma/murmur3.c:90-101 | the block step is a bijection of the 32-bit state for every key word |
| `Murmur3x86x32.StepTellsKeysApart` | components/wilma/murmur3.c:90-101 | different key words lead one state to different states |
| `Murmur3x86x32.FinishBijective` | components/wilma/murmur3.c:103-125 | tail and finalization are a bijection of the state |
| `Murmur3x86x32.SeedBijective` | components/wilma/murmur3.c:73-126 | for every key the hash is a bijection of the 32-bit seed |
| `Murmur3x86x32.MixUndone` | components/wilma/murmur3.c:94-96 | the two multiplications and the rotation of a key word taken back with their constants |
| `Murmur3x86x32.StepUndone` | components/wilma/murmur3.c:98-100 | the rest of the block step taken back, with its constants, to the exclusive or of state and mixed key |
| `Murmur3x86x32.FinishUndone` | components/wilma/murmur3.c:103-125 | the finalization taken back, with its constants, to the body, the mixed tail bytes and the length |
| `Murmur3x86x32.FirstBlockFirst` | components/wilma/murmur3.c:88-92 | the first four bytes of the key, least significant first, are the first block mixed in |
| `Murmur3x86x32.OneBlockNeverCollides` | components/wilma/murmur3.c:73-126 | two keys of one length that differ in one 4-byte block alone never share a hash |
| `Murmur3x86x32.TailNeverCollides` | components/wilma/murmur3.c:73-126 | two keys of one length that differ only after the last block never share a hash |
| `Murmur3x86x32.Body` | components/wilma/murmur3.c:85-101 | the loop from -nblocks to zero folds the step over all blocks in order |
| `Murmur3x86x32.MurmurHash3` | components/wilma/murmur3.c:73-126 | the function computes body and finish, the ones taken back above, from the seed |
| `Murmur3x86x128.StepInvertible` | components/wilma/murmur3.c:152-174 | the block step is a bijection of the four lanes for every block |
| `Murmur3x86x128.StepTellsKeysApart` | components/wilma/murmur3.c:152-174 | different blocks lead the lanes to different states |
| `Murmur3x86x128.FinalizeBijective` | components/wilma/murmur3.c:215-226 | finalization is a bijection of the four lanes |
| `Murmur3x86x128.DigestBijective` | components/wilma/murmur3.c:130-232 | for every key the whole computation is a bijection of the four lanes |
| `Murmur3x86x128.MixesUndone` | components/wilma/murmur3.c:159-171 | multipliers and rotation of every key word taken back with their constants |
| `Murmur3x86x128.StepUndone` | components/wilma/murmur3.c:161-173 | every lane update taken back, with rotation, added lane and addend, to the exclusive or of lane and mixed key |
| `Murmur3x86x128.SpreadSums` | components/wilma/murmur3.c:217-218 | the sums of the finalization |
| `Murmur3x86x128.DigestUndone` | components/wilma/murmur3.c:176-226 | the whole computation taken back, with its constants, to the body, the mixed words of the tail, each in its lane, and the length |
| `Murmur3x86x128.ReadBytes` | components/wilma/murmur3.c:150-157 | which bytes of a block make which word |
| `Murmur3x86x128.FirstBlockFirst` | components/wilma/murmur3.c:150-157 | the first sixteen bytes of the key are the first block mixed in |
| `Murmur3x86x128.OneBlockNeverCollides` | components/wilma/murmur3.c:130-232 | two keys of one length that differ in one 16-byte block alone never share a digest |
| `Murmur3x86x128.TailNeverCollides` | components/wilma/murmur3.c:130-232 | two keys of one length that differ only in the tail never share a digest |
| `Murmur3x86x128.Round` | components/wilma/murmur3.c:159-173 | one turn of the block loop is the step |
| `Murmur3x86x128.Body` | components/wilma/murmur3.c:152-174 | the loop folds the step over all blocks in order |
| `Murmur3x86x128.AbsorbWord` | components/wilma/murmur3.c:186-210 | one word of the tail, mixed and xor-ed in exactly if the tail reaches it |
| `Murmur3x86x128.MurmurHash3` | components/wilma/murmur3.c:130-232 | the function computes the digest those results are about, all lanes starting from the seed |
| `Murmur3x64x128.StepInvertible` | components/wilma/murmur3.c:254-266 | the block step is a bijection of the two lanes for every block |
| `Murmur3x64x128.StepTellsKeysApart` | components/wilma/murmur3.c:254-266 | different blocks lead the lanes to different states |
| `Murmur3x64x128.FinalizeBijective` | components/wilma/murmur3.c:301-310 | finalization is a bijection of the two lanes |
| `Murmur3x64x128.DigestBijective` | components/wilma/murmur3.c:236-314 | for every key the whole computation is a bijection of the two lanes |
| `Murmur3x64x128.MixesUndone` | components/wilma/murmur3.c:259-263 | multipliers and rotation of every key word taken back with their constants |
| `Murmur3x64x128.StepUndone` | components/wilma/murmur3.c:261-265 | every lane update taken back, with rotation, added lane and addend, to the exclusive or of lane and mixed key |
| `Murmur3x64x128.SpreadSums` | components/wilma/murmur3.c:303-304 | the sums of the finalization |
| `Murmur3x64x128.DigestUndone` | components/wilma/murmur3.c:268-310 | the whole computation taken back, with its constants, to the body, the mixed words of the tail, each in its lane, and the length |
| `Murmur3x64x128.ReadBytes` | components/wilma/murmur3.c:252-257 | which bytes of a block make which word |
| `Murmur3x64x128.FirstBlockFirst` | components/wilma/murmur3.c:252-257 | the first sixteen bytes of the key are the first block mixed in |
| `Murmur3x64x128.OneBlockNeverCollides` | components/wilma/murmur3.c:236-314 | two keys of one length that differ in one 16-byte block alone never share a digest |
| `Murmur3x64x128.TailNeverCollides` | components/wilma/murmur3.c:236-314 | two keys of one length that differ only in the tail never share a digest |
| `Murmur3x64x128.Round` | components/wilma/murmur3.c:259-265 | one turn of the block loop is the step |
| `Murmur3x64x128.Body` | components/wilma/murmur3.c:254-266 | the loop folds the step over all blocks in order |
| `Murmur3x64x128.AbsorbTail` | components/wilma/murmur3.c:276-296 | the switch over the tail mixes both words in as a block with missing bytes zero |
| `Murmur3x64x128.MurmurHash3` | components/wilma/murmur3.c:236-314 | the function computes the digest those results are about, both lanes starting from the seed |
| `CStrings.StrcmpZero` | components/wilma/wilma.c:483 | strcmp is zero exactly for equal strings |
| `CStrings.StrcmpTransitive` | components/wilma/wilma.c:483 | strcmp orders transitively |
| `CStrings.StrcmpOrders` | components/wilma/wilma.c:483 | strcmp is not positive exactly if the first string is a beginning of the second or smaller at their first difference |
| `ApList.CompareTransitive` | components/wilma/wilma.c:474-485 | the comparison is transitive |
| `ApList.CompareTotal` | components/wilma/wilma.c:474-485 | the comparison is total, as sorting needs it to be |
| `ApList.SortedMeans` | components/wilma/wilma.c:474-485 | sorted by the comparison means: stronger signals first, and among equal ones the SSIDs in the order of strings |
| `ApList.SameIsEquality` | components/wilma/wilma.c:505-506 | the test for duplicates is equality of SSID string and authmode |
| `ApList.RemoveDuplicates` | components/wilma/wilma.c:495-514 | the nested loops leave every first record of a network with the strongest signal, and clear the others |
| `ApList.MergeInto` | components/wilma/wilma.c:503-513 | the inner loop does so for one record |
| `ApList.MergeOne` | components/wilma/wilma.c:504-512 | one comparison clears a record of the same network and keeps the stronger signal |
| `ApList.Compact` | components/wilma/wilma.c:516-539 | moving records to the first free slot is a stable filter in place, and total_unique counts its result |
| `ApList.NamedOnlyConcat` | components/wilma/wilma.c:515-537 | the filter keeps or drops each record by itself and keeps the order |
| `ApList.Keep` | components/wilma/wilma.c:526-536 | a named record stays or moves up behind those kept before it |
| `ApList.MoveUp` | components/wilma/wilma.c:526-536 | one move keeps the named records together and in order |
| `ApList.NextFree` | components/wilma/wilma.c:530-535 | the search finds the slot behind the named records |
| `ApList.Sort` | components/wilma/wilma.c:542 | a sorted permutation of the records |
| `ApList.StrongestIsMaximum` | components/wilma/wilma.c:507-509 | the kept signal is the maximum of its network |
| `ApList.FirstRepresents` | components/wilma/wilma.c:502-513 | the first record of a network keeps its other fields and gets that maximum |
| `ApList.FirstsAreDistinct` | components/wilma/wilma.c:502-513 | slots of different first records hold different networks |
| `ApList.OccursOnce` | components/wilma/wilma.c:502-539 | no record is left twice |
| `ApList.DeduplicationWorks` | components/wilma/wilma.c:495-539 | exactly one record is left for each distinct network with a name, and nothing else |
| `ApList.PermutationKeepsNetworks` | components/wilma/wilma.c:542 | sorting keeps that |
| `ApList.FilterSortUnique` | components/wilma/wilma.c:487-543 | the first *ap_count slots hold exactly one record for each distinct pair of non-empty SSID and authmode, with the strongest signal and the first occurrence's other fields, stronger signals first and equal ones in ascending order of SSID strings |
| `StationStore.StrncmpFindsKey` | components/wilma/wilma.c:355 | on stored fields strncmp over 32 bytes finds exactly the truncated and zero-padded SSID |
| `StationStore.PasswordKept` | components/wilma/wilma.c:340-384 | after an add the store holds exactly the given password if and only if it has at most 64 bytes, or at most 32 if the store was empty |
| `StationStore.ViewUpdate` | components/wilma/wilma.c:354-361 | replacing an entry in place is map update |
| `StationStore.ViewRemove` | components/wilma/wilma.c:446-450 | swap-with-last removal is map deletion and keeps keys unique |
| `StationStore.SameEntriesSameView` | components/wilma/wilma.c:446-450 | the map does not depend on the order of the entries |
| `StationStore.ViewDropLast` | components/wilma/wilma.c:450 | dropping the last entry is map deletion |
| `StationStore.Store.Find` | components/wilma/wilma.c:354-355 | the loop finds the entry of the key, and none exactly if the map has none |
| `StationStore.Store.AddSsid` | components/wilma/wilma.c:325-397 | add is map update with a fresh state on all three paths, all other keys kept, keys unique and padding zero; entries keep their places and versions, a new one has version 1 in a new store and 0 otherwise |
| `StationStore.Store.RemoveSsid` | components/wilma/wilma.c:422-470 | remove is map deletion, all other keys kept; the last entry takes the place of the removed one |
| `StationStore.Store.SetSsidState` | components/wilma/wilma.c:296-323 | the state of a known key changes and nothing else; it fails exactly on an empty store |
| `StationStore.Store.Perform` | components/wilma/wilma.c:286-470 | over every sequence of adds, removes and state changes the array refines the map |
| `StationHistory.HistoryDecides` | components/wilma/wilma.c:286-470 | after every sequence of operations on a new store, for every station: stored exactly if the last add or remove of it was an add, with that add's password byte by byte (cut at 32 if nothing was stored then, at 64 otherwise) and with the last state set since, or 0 |
| `StationHistory.OthersAreKept` | components/wilma/wilma.c:286-470 | an operation on another station changes nothing |
| `Candidates.EveryMatchIsListed` | components/wilma/wilma.c:652-677 | no visible record with a saved SSID is overlooked |
| `Candidates.SelectionNext` | components/wilma/wilma.c:652-677 | considering the next record keeps the list the choice from all records so far |
| `Candidates.SelectionIsStrongest` | components/wilma/wilma.c:645-677 | a saved visible record is left out only if the list is full, and then no listed one is weaker |
| `Candidates.RecognitionIsKeyEquality` | components/wilma/wilma.c:660 | a stored entry matches a visible record exactly if it has that record's key |
| `Candidates.Scan.FindSaved` | components/wilma/wilma.c:659-676 | the first saved entry of a network, none exactly if there is none |
| `Candidates.Scan.Consider` | components/wilma/wilma.c:658-677 | a saved network is appended with the first matching entry's password while there is room; otherwise nothing changes |
| `Candidates.Scan.SelectNext` | components/wilma/wilma.c:652-677 | one turn of the loop makes a record visible and extends the choice to it |
| `Candidates.Scan.Select` | components/wilma/wilma.c:650-677 | the connection list is exactly the first min(4, matches) saved records in sorted order, and every record becomes visible |
| `Candidates.Scan.Update` | components/wilma/wilma.c:626-677 | the whole update: one record for each network, sorted, the connection list chosen from them; an empty scan leaves the list |
| `JsonString.CharacterOfEscaped` | components/wilma/utils.c:262-300 | every escaped byte reads back, by RFC 8259, as that byte and nothing else |
| `JsonString.UnescapeEscape` | components/wilma/utils.c:258-301 | reading back an escaped text gives the text |
| `JsonString.ParsePrinted` | components/wilma/utils.c:199-306 | a printed text is a JSON string that reads back as the text, of at most 6 n + 2 bytes |
| `JsonString.PrintingIsInjective` | components/wilma/utils.c:199-306 | different texts print differently |
| `JsonString.PrintingIsShortest` | components/wilma/utils.c:199-306 | among all JSON strings that mean a text the printed one is the shortest, so nothing is escaped, or escaped longer, without need |
| `JsonString.ControlsInHex` | components/wilma/utils.c:294-297 | control characters without a letter are written with four lower-case hexadecimal digits |
| `JsonString.Measure` | components/wilma/utils.c:227-240 | the measured length is exactly that of the escaped text; zero extra characters mean there is nothing to escape |
| `JsonString.WriteUnicode` | components/wilma/utils.c:296-297 | the five characters of a code point escape |
| `JsonString.WriteCharacter` | components/wilma/utils.c:262-300 | one turn of the writing loop writes the byte or its escape and nothing before it |
| `JsonString.WriteEscaped` | components/wilma/utils.c:257-301 | the writing pass writes exactly the escaped text, within the measured length |
| `JsonString.CopyPlain` | components/wilma/utils.c:249-250 | the shortcut copies the text behind the quote |
| `JsonString.Close` | components/wilma/utils.c:302-303 | the closing quote and the NUL land where the measuring pass says |
| `JsonString.PrintString` | components/wilma/utils.c:199-306 | shortcut and general path both leave the printed text and a NUL; null pointers are refused and nothing is written |

## Left out

- TelnetSend.TcpSend: the mutex around the loop. The server's log records what is given to this loop, not what a failing socket lets through.
- TelnetServer.Server.AcceptClient: threads, sockets and a failing allocation of the option table.
- TelnetServer.Server.ProcessBytes: the order between data handed over at a flush and control events within one read; both are logged in their own order.
- TelnetServer.Server.ProcessReceived: the same order, for the same reason.
- TelnetServer.Server.ReceiveAll: the same order, for the same reason.
- TelnetServer.Server.Serve: the same order; freeing the option table at the end.
- TelnetServer.Server.ProcessSubnegotiation: the baud rate and control callbacks are functions of their argument; a callback that changes the server is not modelled.
- TftpReceiver.Receiver.ReceiveData: the client's reconnecting to the server's port, and packets whose first segment is shorter than four bytes, which the source assumes away; which write and which ACK fails is an input.
- TftpProtocol.Safety: the sender uses full 512-byte blocks and one block in flight, as RFC 1350 has it; options of later standards are not part of this model.
- TftpRequest.ServeRequest: connecting back to the sender, OTA initialisation, and a failing esp_ota_set_boot_partition.
- ApList.Sort: qsort is replaced by a proved sort; the results use only that it is a sorted permutation.
- ApList.FilterSortUnique: SSID fields are taken to be terminated within their 33 bytes, as the driver delivers them; of the driver's record only the fields this code uses.
- StationStore.Store.AddSsid: storage errors, failing allocations and the connect message sent afterwards.
- StationStore.Store.RemoveSsid: forgetting the network in use also clears the connection list and the driver's configuration.
- Candidates.Scan.Update: the exits for driver errors, a failing allocation and a busy buffer lock.
- Murmur3x86x32.MurmurHash3: words are read least significant byte first, as the target does; alignment is not modelled, nor are lengths outside a 32-bit int. The same goes for the two 128-bit functions.
- JsonString.ParsePrinted: the reader takes bytes above 127 as they are, without checking UTF-8, and does not combine surrogate pairs, which the printer never writes.
- ota_tftp_download, the TFTP error texts, and the flash and OTA internals behind the write calls.
- The Wi-Fi event handler with its reconnect timers: driver calls and event groups.
- main/class_driver.c, main/ota-http.c, main/http.c, main/hashmap.cpp, main/kacha.c, main/mdns.c, main/rocom.c, main/serial_port_relay.c and main/wilma_cgi.c: hardware set-up, route tables and counters, which would add only easy members.
- The word list and the Wi-Fi reason strings: constant tables.
