# Verified model of the qconn, DSMSG and RSP protocol stacks

qnx8-qconn-mcp talks to a QNX target over three octet-level protocols, and for each of them the repository
holds a client and a mock server. This project models both ends of each protocol in Dafny and proves what
whole runs of the two together do.

- **qconn** (`Telnet`, `QconnText`, `QconnFraming`, `QconnBuffering`, `QconnHex`, `DecimalText`, `QconnLines`,
  `QconnDaemon`, `QconnReplies`, `QconnEcho`, `QconnFields`, `QconnCommands`, `QconnStore`, `QconnExchanges`,
  `QconnOpening`, `QconnClient`, `QconnMock`, `ShortIo`). One stream carries telnet commands, text that ends in a
  prompt, status lines and raw file data. The main theorem is `QconnClient.Client.Run`: over every sequence of calls
  the client's `current` service is the daemon's, nothing is left unread between calls (but for the last greeting
  line before the first exchange), and files and results are those of `QconnStore`, a plain file store without
  services, prompts, descriptors or chunks.
- **DSMSG** (`DsmsgFraming`, `DsmsgScanner`, `DsmsgDemux`, `DsmsgAgent`, `DsmsgCommands`, `DsmsgMaps`,
  `DsmsgClient`): 0x7e framing, an incremental scanner, demultiplexing of text and replies, wrapping message ids.
  The main theorem is `DsmsgClient.Client.Run`: over every sequence of commands the results are those of the
  abstract target in `DsmsgCommands`, every reply carries the id of its request, and no frame is pending between
  commands; and all that also when the agent sends program output and control frames between its replies, in which
  case the output collected is exactly the text sent.
- **RSP** (`RspCodec`, `RspStub`, `RspClient`): escaping, run-length decoding, acknowledgements and
  retransmission. The main theorem is `RspClient.Client.Run`: every command returns exactly the stub's answer,
  also over a link that refuses the packet of any call up to four times, with the switch to no-ack mode anywhere;
  a call that is refused more often fails, and the calls after it are not affected; and once the stub has closed the
  connection every command fails.
- **pidin** (`PidinText`, `Pidin`): the map-of-pointers loop that groups the rows of a listing into processes is a
  stable group-by.

`Sequences`, `Bytes` and `HexText` hold searches, octet arithmetic and numerals shared by the protocols.

## How to read it

Code that changes state is a class or a method with loops, proved equal to a function on values; what the
repository promises is then proved about those functions. In DSMSG and RSP an octet is a number below 256; in
qconn it is a Dafny `char`. A client's writes are handed to its peer before the client's next read, and the
peer's output is appended to the client's unread input; since both ends are deterministic readers of one stream
each, no other order of delivery can be observed, except through how much is buffered at a prompt, which
`FrameConn.Drain` leaves open and `QconnBuffering` deals with.

Large functions (`React` of the daemon and of the agent, the frames an agent sends by its script, the RSP stub's
handler, the open-reply parser) reach the proofs about loops as function values, so that those proofs do not depend
on what the functions compute. What the
broker reports is a parameter of the daemon (`Host`): the results hold for any table of versions and attributes
whose fields can be told apart, of which the mock's is one (`QconnMock`).

A path that the daemon echoes goes through the client's telnet filter like everything else it reads. A path without
the octet 255 comes back as it is (`PlainPathIsHeard`). Any other may come back changed, in which case the client
still uses the right descriptor, or so changed that the client makes out no handle and the call fails although the
daemon has opened the file (`IsOpening`); `QconnStore.Reaches` is the condition for the former.

Where code and comments disagree the model follows the code:

- `Feed` strips checksums without checking them although its comment calls the payloads verified
  (`internal/qnxdbg/decode.go:120-151`); only `readFrame` checks. `ReaderAgreesWithScanner` says exactly how the
  two differ.
- The `telnet` field is said to be set during the handshake only (`internal/qconn/framing.go:44-47`); the
  handshake leaves it set (`internal/qconn/client.go:119-123`). The model filters telnet commands in text always
  and in raw data never.
- `WriteFile` asks for truncation, which the mock ignores. `WriteThenRead` gives the content that is read back
  and shows that it is exactly the data if and only if the file was not longer before.

Six properties hold only under a condition, and the condition is proved to be exact:

- `writeAt` keeps the two ends in step if and only if the offset is not negative (`Client.WriteAt`): a refusal is
  returned without reading on to the prompt. `WriteFileAt`, which closes the file afterwards, does not make up for
  it (`Client.WriteFileAt`).
- `openFile` keeps the two ends in step if and only if the path has no newline and, where the daemon accepts and
  echoes it, the client hears no prompt in the echo and has no telnet command in it to answer (`Client.OpenFile`).
  Paths whose first line is an open of its own that leaves a subnegotiation unfinished are set apart: behind such a
  line a newline can go unnoticed (`HiddenNewlineKeepsStep`).
- `Delete`, whose path is not echoed, keeps them in step if and only if the path has no newline (`Client.Delete`).
- `stripIAC` returns what `readByte` delivers on a stream if and only if no octet other than IAC stands where the
  former is back at data and the latter still in a subnegotiation (`FiltersAgreeExactly`). They agree on all ways to
  cut and continue a stream if and only if no doubled IAC inside a subnegotiation is directly followed by SE
  (`AgreementIsExact`, with the input of `FiltersCanDisagree` as an instance of the failure).
- The responses of a conversation are independent of what was buffered at each prompt if and only if no tab stands
  between a prompt and a complete response, and no blank at all between a prompt and text that ends with the input
  instead of a prompt (`BufferingIsInvisible`, with the inputs of `CutOffTextShowsBuffering` as instances of the
  failure): such text is returned as a response, and not trimmed.
- Written data is read back exactly if and only if the file was not longer before and the client makes out the echo
  of its path (`WriteThenRead`).

## Model

| member | source | states |
|---|---|---|
| `Telnet.ReadAllIsDelivered` | internal/qconn/framing.go:86-153 | reading octet by octet to the end of input delivers, and answers, what one pass of the mode machine does, for every stream |
| `Telnet.TokensAreParsed` | internal/qconn/framing.go:86-153 | any list of octets, negotiations, subnegotiations and other commands, written out and parsed, delivers exactly its plain octets and provokes exactly its refusals |
| `Telnet.EveryStreamIsTokens` | internal/qconn/framing.go:86-153 | every stream is such a list and an unfinished rest that delivers and provokes nothing |
| `Telnet.RefusalIsExact` | internal/qconn/framing.go:103-153 | for every stream, truncated ones included: one WONT per DO and one DONT per WILL with the same option, in order, nothing for DONT, WONT or subnegotiations, and the data are the plain octets |
| `Telnet.RefusalsAreSilent` | internal/qconn/framing.go:103-153 | the refusals, fed to the same parser, yield no data and no further refusals, so two such parsers cannot loop |
| `Telnet.StripIAC` | internal/qconn/framing.go:253-277 | the index loop returns what the batch mode machine delivers |
| `Telnet.SkipCommand` | internal/qconn/framing.go:263-274 | the switch after an IAC leaves the index on the last octet of the command |
| `Telnet.SkipSubnegotiation` | internal/qconn/framing.go:266-271 | the inner loop ends where the subnegotiation does, or past the end |
| `Telnet.FiltersAgree` | internal/qconn/framing.go:86-153 | without a doubled IAC before SE in a subnegotiation the batch filter returns what repeated `readByte` delivers, truncated streams included |
| `Telnet.NoDoubledIsClean` | internal/qconn/framing.go:253-277 | in particular when no IAC is doubled inside a subnegotiation at all |
| `Telnet.AgreementIsExact` | internal/qconn/framing.go:253-277 | the filters agree after every prefix and one more octet if and only if the stream meets that condition |
| `Telnet.FiltersAgreeExactly` | internal/qconn/framing.go:253-277 | on one stream, truncated or not, the filters agree if and only if nothing leaks: no octet other than IAC stands where only the batch filter is back at data |
| `Telnet.FiltersCanDisagree` | internal/qconn/framing.go:253-277 | a concrete stream on which the batch filter returns an octet that `readByte` never delivers |
| `QconnFraming.UntilPromptIsFirst` | internal/qconn/framing.go:155-193 | the octet-by-octet search stops at the first complete prompt of the stream without its telnet commands, returns the text before it and leaves the stream after it |
| `QconnFraming.WindowHidesNothing` | internal/qconn/framing.go:160-191 | testing the prompt expression from `scan` on, white space behind the prompt included, finds a prompt exactly when one has just been completed, and finds the same start; a scan index 64 octets back hides nothing |
| `QconnFraming.FrameConn.HandleIAC` | internal/qconn/framing.go:105-153 | consumes the command after an IAC and writes the refusal the mode machine gives for it |
| `QconnFraming.FrameConn.SkipSubnegotiation` | internal/qconn/framing.go:133-149 | consumes a subnegotiation through IAC SE, or reports the end of input |
| `QconnFraming.FrameConn.ReadByte` | internal/qconn/framing.go:86-101 | the next octet of the filtered stream, with all refusals on the way written |
| `QconnFraming.FrameConn.TestPrompt` | internal/qconn/framing.go:170-191 | the test after an octet that may end a prompt finds exactly a prompt that ends there, and keeps the window wide enough |
| `QconnFraming.FrameConn.ReadUntilPrompt` | internal/qconn/framing.go:158-193 | the windowed loop returns what the octet-by-octet search returns, trimmed of leading spaces, leaves the stream after the prompt less some of the blanks that follow, and at end of input returns what was read |
| `QconnFraming.FrameConn.Drain` | internal/qconn/framing.go:178-185 | drops some number of the blanks and tabs at the front, depending on how much is buffered, and nothing else |
| `QconnFraming.FrameConn.ReadResponseLine` | internal/qconn/framing.go:208-221 | the text up to the first newline of the filtered stream, trimmed, leaving the rest |
| `QconnFraming.FrameConn.ReadN` | internal/qconn/framing.go:196-204 | exactly `n` raw octets, telnet commands included, or failure if fewer are left |
| `QconnBuffering.ReadIsResponse` | internal/qconn/framing.go:158-193 | the reading these lemmas are about is what the loop of `readUntilPrompt` may return and leave, text that ends with the input included |
| `QconnBuffering.DrainsSomeBlanks` | internal/qconn/framing.go:174-186 | the loop behind a prompt drops as many of the blanks as are buffered, which may be any number of them |
| `QconnBuffering.SpacesAreTrimmed` | internal/qconn/framing.go:174-221 | spaces in front of a complete response change neither it nor what follows it, and blanks in front of a line or payload that is cut off change nothing |
| `QconnBuffering.OtherBlanksShow` | internal/qconn/framing.go:163-221 | a tab in front of a complete response, or any blank in front of text that ends with the input, changes the response |
| `QconnBuffering.BlanksShowExactly` | internal/qconn/framing.go:158-221 | for every stream after a prompt, complete or cut off, the next response is independent of buffering if and only if the blanks before it are harmless |
| `QconnBuffering.BufferingIsInvisible` | internal/qconn/framing.go:158-221 | all responses of a conversation, cut off or not, are the same however much was buffered at each prompt, if and only if the blanks behind its prompts are harmless |
| `QconnBuffering.CutOffTextShowsBuffering` | internal/qconn/framing.go:163-186 | a prompt, a space, a text such as `x` and the end of input: the response is with or without the space, depending on what was buffered |
| `QconnHex.ParseHexOfHex` | internal/qconn/file.go:57-69 | a number written with `%x` and parsed as a signed 64-bit hexadecimal is that number |
| `QconnReplies.ComputeFirstLine` | internal/qconn/framing.go:288-297 | the loop returns the first line that is neither blank nor the greeting's noise |
| `QconnReplies.FirstLineOf` | internal/qconn/framing.go:279-297 | with or without the greeting's noise line in front, the first line of a response is its own line: the noise is never taken for a status |
| `QconnFields.AttributesIgnoreNoise` | internal/qconn/client.go:177-187 | the attributes read from a response do not depend on whether the noise line is in front |
| `QconnFields.CollectAttributes` | internal/qconn/client.go:181-186 | the loop over the words collects the KEY=VALUE ones |
| `QconnFields.CollectVersions` | internal/qconn/client.go:146-163 | the loop over the words collects names and numbers with any of the three separators |
| `QconnFields.AttributesAreRead` | internal/qconn/client.go:181-186 | any list of KEY=VALUE fields is read back as the map of the list, values with an equals sign included |
| `QconnFields.VersionsAreRead` | internal/qconn/client.go:146-163 | any list of names and numbers, each written with one of the three separators, is read back as the map of the list |
| `QconnFields.TableHolds` | internal/qconn/client.go:149-186 | the map of a list has exactly its keys, each with the value of its last pair |
| `QconnReplies.ReadQuiet` | internal/qconn/framing.go:158-193 | a text without telnet commands and prompts, followed by a prompt, is read back as it is, whatever follows |
| `QconnReplies.ReadLine` | internal/qconn/framing.go:208-221 | a line without telnet commands is read back up to its newline, whatever octets follow |
| `QconnEcho.ReadOver` | internal/qconn/framing.go:86-193 | octets, telnet commands and unfinished ones included, whose data complete no prompt are read over: the search goes on behind them with their data and refusals |
| `QconnEcho.FoundWhateverFollows` | internal/qconn/framing.go:158-193 | a prompt that is found in a stream is found in every continuation of it |
| `QconnEcho.EchoIsRead` | internal/mockqnx/server.go:192 | an answer that echoes a path is read up to its prompt, or swallowed by a subnegotiation in the path, with exactly the refusals of the path and the quote after it |
| `QconnEcho.EchoIsCut` | internal/mockqnx/server.go:192 | a prompt that is heard in an echoed path ends the reading inside the echo, with something left unread |
| `QconnEcho.PlainPathIsHeard` | internal/mockqnx/server.go:192 | a path without the octet 255 is heard as it is |
| `QconnDaemon.Session.constructor` | internal/mockqnx/server.go:58-67 | a session starts in the broker with no files and no descriptors |
| `QconnDaemon.Session.Open` | internal/mockqnx/server.go:169-192 | refuses what the expression does not match, and otherwise gives out the next descriptor, fills in process nodes and answers with the size; flags are ignored |
| `QconnDaemon.Session.Fetch` | internal/mockqnx/server.go:227-248 | the fill loop for process memory, a slice cut at the end for a file, nothing for an unknown descriptor |
| `QconnDaemon.Session.Store` | internal/mockqnx/server.go:250-264 | the buffer grows zero-filled if need be and holds the data at the offset; process memory and unknown descriptors are left alone |
| `QconnDaemon.Session.Receive` | internal/mockqnx/server.go:69-95 | the command loop reacts to each line, with the raw payload it announces, in order, stops at the first incomplete one, and reads no more once closed |
| `QconnDaemon.ServeOne` | internal/mockqnx/server.go:69-95 | a command and its payload sent to an idle daemon are consumed whole, the payload whatever its octets, and answered by text and one prompt |
| `QconnDaemon.ServeLeavesTrace` | internal/mockqnx/server.go:69-95 | input is never swallowed: a daemon that stays connected has kept all of it or has written something that ends in a prompt |
| `QconnCommands.ServiceAnswers` | internal/mockqnx/server.go:107-120 | the service commands as the client writes them switch the service and are answered OK with the new prompt; the one for sinfo is refused |
| `QconnCommands.LeaveAnswers` | internal/mockqnx/server.go:127-168 | what the client sends to leave launcher, file or cntl leads back to the broker, with nothing but its prompt |
| `QconnCommands.BrokerAnswers` | internal/mockqnx/server.go:97-121 | the broker reports its versions and attributes, in text that is read back as it is |
| `QconnCommands.KillAnswers` | internal/mockqnx/server.go:147-158 | a kill command for any pid and signal is answered ok |
| `QconnCommands.AckAnswers` | internal/mockqnx/server.go:193-194 | close, delete and chmod commands are acknowledged and change nothing |
| `QconnCommands.OpenIsParsed` | internal/mockqnx/server.go:160-175 | an open command as the client writes it is accepted exactly if the path is not empty and has no quote and the mode is not negative, and yields the path |
| `QconnCommands.OpenReplyIsParsed` | internal/qconn/file.go:42-70 | the reply to an open is read back as descriptor, mode, size and path, quotes in the path included, and as nothing if the path is empty |
| `QconnCommands.OneQuoteIsNoReply` | internal/qconn/file.go:42-65 | a line without a closing quote gives no handle |
| `QconnCommands.TransferCommandIsParsed` | internal/mockqnx/server.go:161-215 | a read or write command as the client writes it is parsed to its descriptor, offset and count, and refused exactly if the offset is negative |
| `QconnCommands.StatusLine` | internal/qconn/file.go:92-110 | a status line is read back with its count |
| `QconnCommands.NegativeWriteAnswers` | internal/mockqnx/server.go:207-212 | a write at a negative offset is refused and its payload stays in the stream |
| `QconnStore.WriteThenRead` | internal/qconn/file.go:168-260 | written data of any octets is read back octet for octet followed by what the file held beyond it, unless the echo of the path is not made out; exactly the data if and only if the file was not longer before and it is made out |
| `QconnStore.PlainPathsAreReached` | internal/mockqnx/server.go:192 | without the octet 255, exactly the empty path and paths with a prompt in them are not made out |
| `QconnStore.RunReadsBackWhatItWrote` | internal/qconn/file.go:168-260 | the same with any calls before and any calls between that do not write this file |
| `QconnStore.UnwrittenIsKept` | internal/mockqnx/server.go:163-264 | a file that no call writes keeps its content through every run |
| `QconnStore.WriteAtIsLocal` | internal/qconn/file.go:264-291 | a write at an offset changes exactly its range, fills a gap with zeros and leaves other files alone; it changes nothing if the echo of the path is not made out |
| `QconnStore.RangeRound` | internal/qconn/file.go:212-225 | one round of a chunked read: an empty chunk means that all there is was read, and any other continues the range |
| `QconnStore.WholeRound` | internal/qconn/file.go:181-194 | one round of reading a whole file by chunks up to the announced size |
| `QconnStore.StoreRound` | internal/qconn/file.go:245-258 | one round of a chunked write: storing chunk after chunk is storing the whole |
| `QconnClient.Client.constructor` | internal/qconn/client.go:65-94 | connecting to a fresh daemon leaves exactly the greeting's noise line unread |
| `QconnClient.Client.Handshake` | internal/qconn/client.go:106-124 | reads any greeting up to its first prompt |
| `QconnClient.Client.Raw` | internal/qconn/client.go:128-133 | in whatever state the two ends are: the daemon serves what was written, and the client returns the text up to the first prompt of what is unread |
| `QconnClient.Client.Ask` | internal/qconn/client.go:128-133 | between ends in step: the daemon makes one reaction, the client returns its text, and nothing is left unread |
| `QconnClient.Client.Ensure` | internal/qconn/client.go:194-216 | from any service to any other: afterwards `current` is the service asked for and the daemon's; it fails exactly for sinfo, with both ends in the broker |
| `QconnClient.Client.LeaveService` | internal/qconn/client.go:221-237 | back to the broker, on both ends |
| `QconnClient.Client.Attempt` | internal/qconn/client.go:128-133 | whatever the daemon answers: the first line of what is read up to the first prompt; the two ends are in step afterwards if and only if all was served, all is read and there is no telnet command to answer |
| `QconnClient.Client.OpenFile` | internal/qconn/file.go:56-70 | the two ends are in step afterwards if and only if the path has no newline and, if echoed, nothing the client answers and no prompt is heard in it; then it returns the descriptor the daemon opened, with mode, size and the path as heard, and fails exactly if the daemon refused or nothing of the path or its closing quote is heard |
| `QconnOpening.OpenIsServed` | internal/qconn/file.go:56-70 | the same for the daemon's answer as such |
| `QconnOpening.NewlineLosesStep` | internal/qconn/file.go:56-62 | a path with a newline is taken for two commands and answered twice, so that something is left unread, unless its first line is an open that hides the prompt after it |
| `QconnOpening.EchoIsDecoded` | internal/qconn/file.go:62-69 | what is left unread, what is refused and which handle is made out of the answer to an accepted open, for every path |
| `QconnOpening.HiddenNewlineKeepsStep` | internal/qconn/file.go:56-62 | two opens in one path, the second of which ends the subnegotiation that the first begins, leave the two ends in step |
| `QconnOpening.SomeNewlineIsHidden` | internal/qconn/file.go:56-62 | such a path |
| `QconnOpening.DeleteIsServed` | internal/qconn/file.go:300-306 | a delete is acknowledged, and leaves nothing unread if and only if its path has no newline |
| `QconnClient.Client.CloseFile` | internal/qconn/file.go:72-81 | is acknowledged and changes nothing |
| `QconnClient.Client.ReadAt` | internal/qconn/file.go:85-123 | returns the octets at the offset, at most a chunk and whatever they are, and stays in step also when the offset is refused |
| `QconnClient.Client.WriteAt` | internal/qconn/file.go:127-150 | the two ends are in step afterwards if and only if the offset is not negative, and then all data is stored at the offset |
| `QconnExchanges.WriteIsServed` | internal/qconn/file.go:127-140 | what the daemon writes for a write and its payload; after a refusal at least a prompt is left behind the status line |
| `QconnClient.Client.ReadWhole` | internal/qconn/file.go:179-195 | the chunk loop returns the whole content, and for process memory its announced size rounded up to chunks |
| `QconnClient.Client.ReadRange` | internal/qconn/file.go:211-226 | the chunk loop returns the range, cut at the end of the file, and fails exactly on a negative offset with something to read |
| `QconnClient.Client.WriteAll` | internal/qconn/file.go:244-259 | the chunk loop stores all data from the offset on, and fails exactly if there is something to write at a negative one |
| `QconnClient.Client.Stat` | internal/qconn/file.go:153-165 | mode and size as in the store, and both ends in step unless a prompt is heard in the echo of the path |
| `QconnClient.Client.ReadFile` | internal/qconn/file.go:168-196 | the whole content as in the store, and both ends in step unless a prompt is heard in the echo of the path |
| `QconnClient.Client.ReadFileRange` | internal/qconn/file.go:200-227 | the range as in the store, the error for a negative offset, and both ends in step unless a prompt is heard in the echo of the path |
| `QconnClient.Client.WriteFile` | internal/qconn/file.go:230-260 | effect and result as in the store, and both ends in step unless a prompt is heard in the echo of the path |
| `QconnClient.Client.WriteFileAt` | internal/qconn/file.go:264-291 | effect and result as in the store, and both ends in step if and only if no prompt is heard in the echo of the path and nothing was written at a negative offset |
| `QconnClient.Client.Delete` | internal/qconn/file.go:294-308 | is acknowledged, without effect on the mock, and both ends in step if and only if the path has no newline |
| `QconnClient.Client.Mkdir` | internal/qconn/file.go:311-325 | opens with the directory mode and closes; fails exactly if the open does |
| `QconnClient.Client.Chmod` | internal/qconn/file.go:328-347 | opens, is acknowledged and closes; fails exactly if the open does |
| `QconnClient.Client.Versions` | internal/qconn/client.go:136-164 | the version numbers of the broker's line, also when the noise line is in front of it |
| `QconnClient.Client.Info` | internal/qconn/client.go:168-189 | the broker's attributes, read once and kept, also when the noise line is in front of them |
| `QconnClient.Client.Signal` | internal/qconn/cntl.go:22-37 | succeeds for every pid and signal, and both ends in step |
| `QconnClient.Client.Run` | internal/qconn/file.go:56-347 | over every sequence of calls up to one that loses step: results and files are those of the plain store; services agree and nothing is unread at the end if and only if no call has lost step |
| `QconnClient.MockSession` | internal/qconn/client.go:65-94 | the same from a fresh connection, with the client as it is at the end |
| `QconnClient.RoundTrip` | internal/qconn/file.go:168-260 | over the wire, a file read returns the data last written to it, whatever its octets, followed by what the file held beyond it, whatever calls come before and between |
| `QconnMock.MockVersionLine` | internal/mockqnx/server.go:102 | the model's version line for the mock's table is the line the mock writes |
| `QconnMock.MockInfoLine` | internal/mockqnx/shell.go:11-13 | so is its line of attributes |
| `QconnMock.MockIsReportable` | internal/mockqnx/shell.go:11-13 | the fields of both can be told apart |
| `QconnMock.MockVersions` | internal/qconn/client.go:136-164 | the version map that the client returns against the mock |
| `QconnMock.Session` | internal/mockqnx/server.go:97-121 | a session with the mock's own tables, with results, files and the client at the end as for any other host |
| `ShortIo.Server.Write` | internal/qconn/file.go:127-150 | an arbitrary server: stores any front part of the data, on an error perhaps some of it, at a negative offset nothing |
| `ShortIo.Server.Read` | internal/qconn/file.go:85-123 | an arbitrary server: returns any front part of what is there |
| `ShortIo.WriteAll` | internal/qconn/file.go:244-291 | against any such server and at any offset the file holds a front part of the data, all of it reported unless there was an error, and the total falls short only after a zero or error answer |
| `ShortIo.WrittenLands` | internal/qconn/file.go:244-291 | hence the target range holds `data[..total]` and nothing outside the range of the data has changed |
| `ShortIo.ReadRange` | internal/qconn/file.go:200-227 | against any such server and at any offset the result is a prefix of the requested range, shorter than asked for only after a zero or error answer |
| `DsmsgFraming.EscapeHidesDelimiter` | internal/qnxdbg/protocol.go:79-89 | escaped text holds no delimiter |
| `DsmsgFraming.UnescapeEscape` | internal/qnxdbg/protocol.go:79-103 | unescaping undoes escaping, whatever follows |
| `DsmsgFraming.FrameContentRoundTrip` | internal/qnxdbg/protocol.go:105-116 | the content of a frame is unescaped to the payload and its checksum, and holds no delimiter |
| `DsmsgFraming.UnescapeUpdate` | internal/qnxdbg/protocol.go:92-103 | changing one content octet, with no escape involved, changes exactly one unescaped octet |
| `DsmsgFraming.ComputeChecksum` | internal/qnxdbg/protocol.go:70-76 | the wrapping loop computes the complement of the sum |
| `DsmsgFraming.ComputeEscape` | internal/qnxdbg/protocol.go:79-89 | the escape loop |
| `DsmsgFraming.ComputeUnescape` | internal/qnxdbg/protocol.go:92-103 | the unescape loop, a trailing escape included |
| `DsmsgFraming.ComputeFrame` | internal/qnxdbg/protocol.go:108-116 | the frame as sent |
| `DsmsgScanner.FrameScanner.Feed` | internal/qnxdbg/decode.go:122-155 | emits payloads and raw frames of exactly the runs that the retained octets and the new data complete, retains the rest, which never holds a delimiter, and terminates |
| `DsmsgScanner.FrameScanner.FeedAll` | internal/qnxdbg/decode.go:114-155 | over any cutting of a stream into calls the payloads and raw frames are those of the whole stream |
| `DsmsgScanner.ChunkIndependence` | internal/qnxdbg/decode.go:114-155 | the same on values: what successive calls emit is what one call on the joined data emits |
| `DsmsgScanner.ReadSegment` | internal/qnxdbg/client.go:89-114 | the two loops of `readFrame` find the first non-empty run and consume it with its closing delimiter |
| `DsmsgScanner.NextSegmentIsFirstContent` | internal/qnxdbg/client.go:89-114 | that run is the first one the scanner emits, and the scanner's others are those of the rest |
| `DsmsgScanner.ReaderAgreesWithScanner` | internal/qnxdbg/client.go:89-125 | repeated `readFrame` yields one result per frame of the scanner, in order: its payload, or a bad checksum exactly if the checksum is wrong |
| `DsmsgScanner.ScanFrames` | internal/qnxdbg/decode.go:122-155 | scanning concatenated frames yields the payloads, empty ones included, and retains nothing |
| `DsmsgScanner.Resynchronise` | internal/qnxdbg/decode.go:122-155 | after any garbage, the garbage's own segments and then exactly the payloads in order |
| `DsmsgScanner.CorruptionIsCaught` | internal/qnxdbg/client.go:115-122 | one changed content octet, neither old nor new a delimiter or escape, always gives a bad checksum, also after an escape and in the checksum itself |
| `DsmsgScanner.CorruptFrameIsRejected` | internal/qnxdbg/client.go:89-125 | the same for a frame on the wire, whatever follows it |
| `DsmsgDemux.ReadResponseKeepsText` | internal/qnxdbg/client.go:133-148 | one call neither loses, duplicates nor reorders program output |
| `DsmsgDemux.ReadResponseIsFirstEvent` | internal/qnxdbg/client.go:133-148 | one call returns the first frame that is neither control nor text, or an error frame before it |
| `DsmsgDemux.OutputIsConserved` | internal/qnxdbg/client.go:127-156 | over every interleaving of `readResponse` and `Output`: output taken, pending and unread make up the whole, in order |
| `DsmsgDemux.RepliesAreEvents` | internal/qnxdbg/client.go:127-156 | over every interleaving the replies are the stream's events in order |
| `DsmsgDemux.NoiseFramesAreInvisible` | internal/qnxdbg/client.go:127-156 | inserting a text or control frame between any two frames changes no reply of any interleaving |
| `DsmsgDemux.NoiseIsPassedOver` | internal/qnxdbg/client.go:127-148 | any text and control frames in front of a reply are passed over, and exactly their text is collected |
| `DsmsgAgent.EveryMessageIsAnswered` | internal/mockqnx/dsmsg.go:94-181 | every message of four octets or more is answered at once with its own id on the debug channel; a run is answered and then notified, anything else answered once |
| `DsmsgAgent.Agent.FillMemory` | internal/mockqnx/dsmsg.go:134-146 | the fill loop: octet i is the address plus i modulo 256 |
| `DsmsgAgent.Agent.Receive` | internal/mockqnx/dsmsg.go:93-181 | the serve loop handles the frames of the stream in order, skips short ones, and keeps exactly the octets of an unfinished frame |
| `DsmsgCommands.Le64RoundTrip` | internal/qnxdbg/client.go:226-229 | the 64-bit encoder, decoded, is the number modulo 2^64 |
| `DsmsgCommands.MemoryReadLayout` | internal/qnxdbg/commands.go:62-74 | the agent finds in the body of a read request the address and the size, which fits 16 bits |
| `DsmsgCommands.BreakLayout` | internal/qnxdbg/commands.go:162-176 | the agent finds in the body of a breakpoint request the address and the signed size |
| `DsmsgCommands.ChunkedReadIsFlat` | internal/qnxdbg/commands.go:63-98 | against any target that answers with prefixes of its memory or with errors, the result is memory from the address on, no longer than asked for, and all of it if no answer falls short |
| `DsmsgCommands.ReadChunks` | internal/qnxdbg/commands.go:63-98 | the loop, with its error and short-read branches, over any answers of a target, computes the chunked read |
| `DsmsgCommands.MockReadIsFlat` | internal/qnxdbg/commands.go:63-98 | against the mock: exactly n octets, octet i being (addr + i) mod 256, wrapping at the end of the address space |
| `DsmsgCommands.ChunkedWriteIsFlat` | internal/qnxdbg/commands.go:102-123 | a target that carries out the chunked writes in order has stored the data flat, wrapping at the end of the address space |
| `DsmsgCommands.RequestCount` | internal/qnxdbg/commands.go:63-123 | how many messages each command takes |
| `DsmsgCommands.SingleCommandIsPerformed` | internal/qnxdbg/commands.go:10-242 | through its message layout each one-message command has on the agent the effect, and for the caller the result, that the abstract target gives it |
| `DsmsgCommands.NotificationDecodes` | internal/qnxdbg/commands.go:253-265 | the stop read from a notification has the pid the agent encoded |
| `DsmsgCommands.StopsReportLatestPid` | internal/qnxdbg/commands.go:220-265 | in every history each continue and step ends on a 0x40 notification with the pid of the latest attach or load |
| `DsmsgMaps.ParseMapInfo` | internal/qnxdbg/commands.go:414-425 | the filter loop over records of 24 octets |
| `DsmsgMaps.PlausibleRecordsAreFound` | internal/qnxdbg/commands.go:410-425 | a reply of any records and less than one more is parsed to exactly the plausible ones, in order |
| `DsmsgMaps.MockMapIsParsed` | internal/mockqnx/dsmsg.go:107-111 | the mock's map is parsed to its one segment |
| `DsmsgClient.Client.ExchangeOne` | internal/qnxdbg/client.go:202-208 | a message to an idle agent is answered by frames of which the first reply is returned, the text in front of it is collected, and the others are left |
| `DsmsgClient.Client.constructor` | internal/qnxdbg/client.go:54-67 | connecting leaves both ends idle with id 1 |
| `DsmsgClient.Client.Handshake` | internal/qnxdbg/client.go:160-186 | echo, connect under id 0, version under id 1, nothing left over and the agent's state unchanged |
| `DsmsgClient.Client.ReadFrame` | internal/qnxdbg/client.go:89-125 | the payload of the next run if its checksum is right |
| `DsmsgClient.Client.ReadResponse` | internal/qnxdbg/client.go:133-148 | the loop returns what the demultiplexing function does and collects the same output |
| `DsmsgClient.Client.Output` | internal/qnxdbg/client.go:152-156 | fetches and clears the output |
| `DsmsgClient.Client.TransactSub` | internal/qnxdbg/client.go:188-208 | the next id, modulo 256 and on the debug channel, one message, and the reply with that id |
| `DsmsgClient.Client.Resume` | internal/qnxdbg/commands.go:211-265 | a run message and then the stop notification, nothing left over |
| `DsmsgClient.Client.ReadMemory` | internal/qnxdbg/commands.go:63-98 | the loop sends exactly the chunk requests and returns what the chunked read does |
| `DsmsgClient.Client.WriteMemory` | internal/qnxdbg/commands.go:102-123 | the loop sends exactly the chunk requests and reports all octets written |
| `DsmsgClient.Client.Launch` | internal/qnxdbg/commands.go:316-369 | stages environment and arguments and loads: exactly these messages in this order, and the loaded pid |
| `DsmsgClient.Client.Run` | internal/qnxdbg/client.go:160-208 | over every sequence of commands and with any text and control frames between replies: results and state are those of the abstract target, the id after k messages is (1 + k) mod 256, every reply carries its request's id, nothing is pending, and output fetched and pending is the text sent |
| `DsmsgClient.Session` | internal/qnxdbg/client.go:37-67 | the same from a fresh connection to an agent with any script: results, target and output, and at the end nothing pending and all ids in order |
| `RspCodec.DecodeInvertsEncode` | internal/debug/rsp.go:204-227 | decoding inverts every escaped run-length encoding, whatever was decoded before and whatever follows |
| `RspCodec.DecodeInvertsEscape` | internal/debug/rsp.go:67-78 | the special case without runs |
| `RspCodec.StubDecodeInvertsEscape` | internal/mockqnx/rsp.go:141-165 | the stub's decoder undoes the client's escaping |
| `RspCodec.EscapeHidesMarkers` | internal/debug/rsp.go:67-78 | escaped text holds neither dollar nor hash |
| `RspCodec.HexDecodeInvertsEncode` | internal/debug/rsp.go:229-265 | hexadecimal data is decoded to what was encoded |
| `Bytes.FlipBit5IsXor` | internal/debug/rsp.go:72 | the flip of bit five with which both protocols escape an octet is the exclusive-or with 0x20 |
| `RspCodec.ComputeEscape` | internal/debug/rsp.go:67-78 | the escape loop |
| `RspCodec.ComputeDecode` | internal/debug/rsp.go:204-227 | the decode loop, with trailing escapes, runs at the start and non-positive counts |
| `RspCodec.ComputeStubDecode` | internal/mockqnx/rsp.go:154-165 | the stub's decode loop |
| `RspStub.NextPacketOf` | internal/mockqnx/rsp.go:102-139 | after junk without a dollar, a packet is found whole with the right checksum |
| `RspStub.OnlyKillCloses` | internal/mockqnx/rsp.go:46-100 | the reply that closes the connection is given for the kill packet and for nothing else |
| `RspStub.Stub.Receive` | internal/mockqnx/rsp.go:30-44 | the loop acknowledges and answers the packets of the stream in order |
| `RspStub.ReadPacket` | internal/debug/rsp.go:128-164 | the reading loops of both ends find the first complete packet |
| `RspStub.WritePacket` | internal/debug/rsp.go:82-88 | the packet as sent |
| `RspClient.Client.ReadAck` | internal/debug/rsp.go:112-124 | the first plus or minus of the input |
| `RspClient.Client.SendPacket` | internal/debug/rsp.go:82-109 | over a link that refuses any number of packets: sends one copy more than were refused, at most five, and succeeds exactly if fewer than five were refused and the connection is open; in no-ack mode it sends one copy and always succeeds |
| `RspClient.Client.ReadPacket` | internal/debug/rsp.go:128-181 | the decoded payload of the next packet, or a checksum complaint exactly if it is wrong; a plus or a minus is written accordingly outside no-ack mode |
| `RspClient.Client.Command` | internal/debug/rsp.go:184-189 | returns exactly the stub's answer, gives up after five refusals, or finds the connection closed, before the command or by it; nothing is unread in any case, and the octets sent are the copies of the packet and the acknowledgement of a reply |
| `RspClient.Client.EnableNoAck` | internal/debug/rsp.go:192-201 | switches exactly if the stub agrees and its agreement arrives |
| `RspClient.Client.Run` | internal/debug/rsp.go:82-201 | over every sequence of commands, with the switch to no-ack mode and the end of the connection anywhere and any number of refusals in each call: the replies are those of the schedule and nothing is unread between commands |
| `RspClient.RepliesAreAnswers` | internal/debug/rsp.go:82-201 | each reply of a session is the stub's answer to its own command, or its packet was refused five times; after the switch it is always the answer, and after the end of the connection there is none |
| `RspClient.MockSession` | internal/mockqnx/rsp.go:30-100 | the same from a fresh connection to the mock, which exactly the kill packet ends, with the client as it is at the end |
| `RspClient.ReadMemory` | internal/debug/session.go:117-127 | a memory read through the stack returns exactly as many octets as asked for, octet i being (addr + i) mod 256, wrapping at the end of the address space |
| `PidinText.SplitLines` | internal/qconn/framing.go:300-309 | the loop keeps the lines that are neither blank nor the noise line |
| `PidinText.ListingIsRead` | internal/qconn/sysinfo.go:120-121 | rows of fields, printed with any blanks in front of each and either kind of line end, are read back as those rows |
| `Pidin.ListedIffPresent` | internal/qconn/sysinfo.go:117-154 | a process is listed exactly if it has a data row |
| `Pidin.Order` | internal/qconn/sysinfo.go:141-145 | the listed pids are distinct |
| `Pidin.OrderIsFirstAppearance` | internal/qconn/sysinfo.go:117-154 | processes are listed in the order of their first rows |
| `Pidin.ThreadsAreConserved` | internal/qconn/sysinfo.go:146-147 | the thread counts add up to the number of data rows |
| `Pidin.Table.Add` | internal/qconn/sysinfo.go:140-147 | one more row changes one cell, or adds one, and the cells stay the groups of the rows so far |
| `PidinText.ParseThreads` | internal/qconn/sysinfo.go:117-154 | the loop over the lines of an output with a map of pointers returns the stable group-by of its rows: per process its data rows in order, their number, and the name of its first row |

## Left out

- QconnClient.Client.Run: opens of paths with a newline, and of accepted paths with telnet commands that the client
  answers, are excluded; `Client.OpenFile` shows that both cost the two ends their step, which later steps of the same
  call may regain or not. Nothing is said of calls after one that has lost step. Offsets, sizes and descriptor numbers
  stay within 63 bits.
- QconnClient.Client.OpenFile: paths whose first line is an open that leaves a subnegotiation unfinished are excluded;
  `HiddenNewlineKeepsStep` gives a family of them that stays in step. A read that would wait for its deadline counts as
  one at the end of input: it fails to make out a handle either way.
- QconnClient.Client.Stat: paths as for `Run`.
- QconnClient.Client.ReadFile: paths as for `Run`.
- QconnClient.Client.ReadFileRange: paths as for `Run`.
- QconnClient.Client.WriteFile: paths as for `Run`.
- QconnClient.Client.WriteFileAt: paths as for `Run`.
- QconnClient.Client.Mkdir: paths as for `Run`.
- QconnClient.Client.Chmod: paths as for `Run`.
- QconnClient.RoundTrip: paths that the client makes out, and otherwise as for `Run`.
- QconnClient.Client.Delete: only that the exchange succeeds, since the mock acknowledges deletions without deleting.
- QconnClient.Client.Signal: only that the exchange succeeds; the mock has no processes.
- RspClient.Client.Run: a packet that is lost without a refusal ends in a deadline, which is not modelled.
- RspStub.Stub.Receive: the mock refuses no packet; refusals stand for packets damaged on the link.
- DsmsgAgent.Agent.Receive: a run of content is never empty, so the mock's exit on an empty frame does not arise.
  The mock sends no text; the script of text and control frames stands for what a real agent sends.
- Deadlines, dialling, logging, tracing, locks and closing of connections.
- Concurrent use of one client: the lock around each call makes calls sequential, as the model has them.
- `internal/qconn/launcher.go` and `readUntilIdle`, which depend on real-time idle timeouts.
- `Client.Raw` of qconn as a public call, which can switch services behind the client's back.
- Unicode white space in `TrimSpace` and `Fields`: the model knows the ASCII white space that responses hold.
- Memory exhaustion by a huge announced count.
- The texts of error messages; a call's error is `Failed`.
- `parseStop` and the other wrappers of `internal/debug/session.go` than the memory read.
- `Annotate`, `HexDump` and the decoding of process lists to names: formatting.
- `internal/mcpserver`, `internal/config`, `internal/proxy`, `internal/obs`, serial ports and the commands under
  `cmd/`: plumbing and foreign libraries.
- Real daemons and agents beyond what the mocks do.
