# Resumable transfers of the UniRTOS examples, modelled and proved in Dafny

The UniRTOS example applications are mostly thin calls into an SDK, but a few of them keep state across
callbacks, events or tasks, and are right only if a whole run of them is. This project models those and
proves what their runs deliver. `dafny verify dfyconfig.toml` checks everything.

| component | Dafny files | source |
|---|---|---|
| SMTP mail streamer | `Base64`, `MimeLines`, `SmtpSections`, `SmtpStages`, `SmtpRun`, `SmtpProgress`, `SmtpLines`, `SmtpSearch`, `SmtpFields`, `SmtpReceiver`, `SmtpTheorems`, `SmtpClient` | `smtp_no_tls_demo.c` |
| non-blocking TCP sender | `TcpStream`, `TcpFlow` (state machines), `TcpSession` (class) | `tcp_noblock_client.c` |
| WebSocket file sender | `WebSocketSender`, `WebSocketSession` (class) | `websocket_demo.c` |
| HTTP firmware download | `HttpFota` | `http_fota_demo.c` |
| SMS request queue and listings | `SmsOwnership` (state machine), `SmsDemo` (class) | `sms_demo.c` |
| CAN event mailbox | `CanMailbox` | `can_demo.c` |
| HTTP form reader, FTP upload and 257 parser | `FormReader`, `FtpPut` | `http_post_demo.c`, `ftp_put_demo.c` |
| shared | `Bytes`, `Vfs` (file reads that may be short or fail) | |

Each component has two layers. Functions give one step (a callback, a loop round, an event) as a value,
and lemmas prove what every sequence of steps keeps. Classes hold the fields the C code updates, their
methods work on them and on arrays in place, with loops where the source loops, and every method's
postcondition equates the new state with the step function of the old one.

The SDK is not part of the model. Its answers are parameters of every step: buffer sizes, what each read
returns (`Vfs.Granted` caps an answer by the request and the end of the file), whether an allocation,
open, encode or queue release works, what the socket takes, what a server sends. Theorems quantify over
all of them. The assumed contracts are:

- the Base64 encoder fails, or writes the encoding with a CRLF after every 76 characters; it succeeds only
  if that fits the space it was given, and for a non-ASCII subject only if the result fits the 128-byte
  buffer as a C string;
- `qosa_buffer_pullup` moves the first bytes of the held block and drops a block that is used up,
  `qosa_buffer_pushdown` puts bytes in front of it, and enqueueing appends; a socket takes no more than it
  was offered; the queue calls back when an enqueue takes it above its high limit and when a dequeue takes
  it to its low limit;
- a successful file open returns a positive descriptor; a closed one answers reads with errors;
- a body callback that returns 0 ends the HTTP transfer, and log arguments are evaluated (the resume
  counter is incremented inside one, at `http_fota_demo.c:448`);
- deleting a message queue drops the messages it still holds; every accepted asynchronous SMS read gets
  one response;
- a server answers as sections 14.2 and 15.3 of RFC 9110 have it: 206 carries the file from the requested
  position on, 200 the file from its beginning, other codes anything.

## Main results

- **Mail.** For every text, file, sequence of buffer sizes and pattern of short reads, the stream is at
  every moment a prefix of the one-shot message (line breaks inside the bodies aside) and equals it at the
  end. A MIME receiver who has nothing but the stream reads the boundary and the subject from the header
  and finds exactly the text and the file, with their types, the charset and the name. With buffers of at
  least 512 bytes an upload takes at most six callbacks plus one per 375 octets of each body; a callback
  returns 0 exactly in the listed states; failures only shorten or drop the attachment; no body line is
  longer than 152 characters.
- **TCP.** In every interleaving of producer, gather rounds and socket answers, wire + gathered + held +
  queued bytes are the bytes produced, in order, and the wire holds as many of them as the socket said it
  took.
- **WebSocket.** Over every sequence of calls, taken + pending bytes are the file as far as it was read,
  and a reported end means that the whole file was taken once. A call in which nothing fails is suspended
  exactly if a send finds the buffer full or the allocation fails, and after any number of suspended calls
  one that is not suspended completes the file.
- **Firmware.** With status codes that continue the image, the stored image is always a prefix of the
  remote file, and the whole of it when the loop finishes with a known length, within four attempts. Each
  attempt stores exactly the leading stored pieces, and the loop finishes with the whole file at the first
  attempt that brings what is missing.
- **SMS.** Every block ever allocated is in exactly one place: freed, in a queued message, held by a
  listing, or lost with the queue that the exit deletes. A list request asks for exactly the indices that
  the SIM returned, in order, one per response.
- **FTP.** The upload callbacks hand out the first `total_len` bytes of the file in order, and with working
  reads as many of them as were asked for.

Some properties one would expect do not hold without a condition. Each has a lemma that gives the exact one:

- a buffer so large that three times its free space wraps in 32 bits to less than 12 skips the rest of
  the text or of the file (`TextSkippedExactly`, `FileSkippedExactly`; the smallest such size is
  1,470,349,164); a callback keeps the mail's invariant if and only if it meets no such space
  (`CallbackKeepsExactly`);
- an ASCII subject and the file's base name are copied unescaped: each of the receiver's searches succeeds
  if and only if the value it passes does not hold what is searched for (`SubjectExactly`,
  `BoundaryExactly`, `SubjectArrives`, `NameExactly`, `BlankExactly`, `EncodingExactly`,
  `FileNameExactly`); a subject that is a closing delimiter hides the whole mail (`SubjectEndsMail`);
- the flag for a full send queue also stops the drain that would empty the queue: once it is set between
  two drains, nothing more is sent unless the receive queue's callback clears it (`StallsExactly`,
  `HighWaterStalls`; one block of more than 8192 bytes is enough, `BigBlockStalls`);
- calling the WebSocket write function again after a failure that left a chunk behind sends uninitialised
  memory, because the exit path frees the buffer but keeps `buf_len` (`RetrySafeExactly`; one refused send
  leads there, `RefusedSendLeavesChunk`);
- the firmware callback checks the HTTP status only once and never tells 200 from 206, so an error page
  that answers a resume request is appended to the image, and so is the whole file if the server ignores
  the range (`StatusSafeExactly`, `IgnoredRangeCorrupts`);
- the announced length is that of the response, so a download that starts with a stored part may stop
  early (`StoredStartExactly`);
- the exit of the SMS worker deletes the queue with what is in it: a run loses a block if and only if an
  exit message is taken while a message behind it carries one (`LeaksExactly`, `RunLeaksExactly`;
  `StopLosesRequest` is such a run);
- a CAN poll is exact unless the number of unhandled reports is greater than 1 and congruent to 0 or 1
  modulo 2^32 (`PollExactly`; `WrappedReportsMissed` gives the runs);
- the 257 parser does not undo the doubling of quotes that RFC 959 prescribes (`DoubledPathExactly`).

## Model

| member | source | states |
|---|---|---|
| Base64.EncodeConcat | network/network_protocol/smtp/no_tls/smtp_no_tls_demo.c:394-411 | encodings of pieces concatenate to the encoding of the whole if all but the last have a length that is a multiple of 3 |
| Base64.EncodeAlphabet | network/network_protocol/smtp/no_tls/smtp_no_tls_demo.c:201-204 | padding stands only in the last two places, everything else is in the alphabet |
| Base64.RoundTrip | network/network_protocol/smtp/no_tls/smtp_no_tls_demo.c:394-402 | decoding an encoding gives the data back, for all data |
| Base64.SymbolTable | network/network_protocol/smtp/no_tls/smtp_no_tls_demo.c:421-435 | the alphabet is that of RFC 4648 |
| MimeLines.UnwrapWrap | network/network_protocol/smtp/no_tls/smtp_no_tls_demo.c:423-424 | removing line breaks undoes the encoder's CRLF after every 76 characters |
| MimeLines.WrapAt | network/network_protocol/smtp/no_tls/smtp_no_tls_demo.c:394-402 | every character stands behind two break characters per 76 before it, and a break behind every 76th |
| MimeLines.WrapJunction | network/network_protocol/smtp/no_tls/smtp_no_tls_demo.c:394-402 | where two separately broken pieces meet, no line exceeds 2 * 76 characters, and a piece that fills a line leaves a short open one |
| Vfs.ReadFullyExact | network/network_protocol/smtp/no_tls/smtp_no_tls_demo.c:137-157 | however reads are split, the octets are the file's next ones; the loop succeeds if and only if all arrived |
| Vfs.ReadFullyOkExactly | network/network_protocol/smtp/no_tls/smtp_no_tls_demo.c:137-157 | the loop succeeds if and only if the request lies inside the file and the reads before the first empty one bring enough |
| Vfs.FileRead | network/network_protocol/smtp/no_tls/smtp_no_tls_demo.c:137-157 | the loop fills the buffer with exactly those octets or closes the file and returns -1 |
| SmtpSections.BaseName | network/network_protocol/smtp/no_tls/smtp_no_tls_demo.c:321-331 | the result is the suffix behind the last slash, or the whole path if there is none |
| SmtpSections.TextHeadFits | network/network_protocol/smtp/no_tls/smtp_no_tls_demo.c:467-495 | the text head is shorter than its 135-byte reservation for all four charsets |
| SmtpSections.AttaHeadFits | network/network_protocol/smtp/no_tls/smtp_no_tls_demo.c:293-337 | the attachment head fits its 512-byte reservation if and only if the base name has at most 166 bytes |
| SmtpSections.ClosingFits | network/network_protocol/smtp/no_tls/smtp_no_tls_demo.c:651-661 | the closing boundary is shorter than its 45-byte reservation |
| SmtpSections.HeaderPrinted | network/network_protocol/smtp/no_tls/smtp_no_tls_demo.c:512-579 | the seven formatted prints, one behind the other, make up the header |
| SmtpSections.HeaderFitsExactly | network/network_protocol/smtp/no_tls/smtp_no_tls_demo.c:512-579 | every print and its terminator stay inside the buffer, so that the unsigned space left never wraps, if and only if the buffer is larger than the header |
| SmtpStages.PieceFits | network/network_protocol/smtp/no_tls/smtp_no_tls_demo.c:388-421 | for every space, a piece of the chosen size fits once encoded and broken into lines |
| SmtpStages.PieceNonempty | network/network_protocol/smtp/no_tls/smtp_no_tls_demo.c:197-209 | the size is a multiple of 3, positive if and only if the 32-bit product leaves 12 or more, and at least 3 from 4 bytes of space up |
| SmtpStages.PieceLargest | network/network_protocol/smtp/no_tls/smtp_no_tls_demo.c:404-411 | the piece is the largest multiple of 3 that the product leaves room for; without wrap-around one more group would exceed the space |
| SmtpStages.RoomyUpTo | network/network_protocol/smtp/no_tls/smtp_no_tls_demo.c:404-411 | no space up to 1,470,349,163 wraps the product to less than 12, and the next one does |
| SmtpStages.TextBodyBound | network/network_protocol/smtp/no_tls/smtp_no_tls_demo.c:368-451 | the text body stage writes at most the space it is given and stays within the text, whatever the encoder answers |
| SmtpStages.AttaBodyBound | network/network_protocol/smtp/no_tls/smtp_no_tls_demo.c:175-271 | the same for the file body, whatever the file system answers |
| SmtpStages.Front | network/network_protocol/smtp/no_tls/smtp_no_tls_demo.c:616-635 | the stages up to the text body together stay within the buffer and write no attachment section |
| SmtpStages.Back | network/network_protocol/smtp/no_tls/smtp_no_tls_demo.c:637-661 | the stages from the attachment head on stay within the space left, so the unsigned difference never wraps |
| SmtpStages.Callback | network/network_protocol/smtp/no_tls/smtp_no_tls_demo.c:602-670 | all stages of one callback together write at most `size` bytes |
| SmtpRun.PieceExtends | network/network_protocol/smtp/no_tls/smtp_no_tls_demo.c:418-442 | appending the next broken piece to a body turns the encoding of a prefix into that of the longer prefix |
| SmtpRun.CallbackKeeps | network/network_protocol/smtp/no_tls/smtp_no_tls_demo.c:602-670 | every callback whose text stage meets no wrapped product keeps the invariant that ties the sections written to status, text_used and file_used, and only appends to the stream |
| SmtpRun.CallbackKeepsExactly | network/network_protocol/smtp/no_tls/smtp_no_tls_demo.c:602-670 | a callback of any size keeps that invariant if and only if neither body stage that it reaches with data left meets a wrapped product |
| SmtpRun.RunKeeps | network/network_protocol/smtp/no_tls/smtp_no_tls_demo.c:602-670 | the invariant holds after every run in which no body stage meets a wrapped product, with failures or without |
| SmtpRun.CappedRunIsRoomy | network/network_protocol/smtp/no_tls/smtp_no_tls_demo.c:404-411 | sizes up to 1,470,349,163 never meet one |
| SmtpProgress.EmptyReturnExactly | network/network_protocol/smtp/no_tls/smtp_no_tls_demo.c:602-670 | a callback of any size returns 0 if and only if a condition on state and arguments holds |
| SmtpProgress.NoPrematureEnd | network/network_protocol/smtp/no_tls/smtp_no_tls_demo.c:593-595 | with 512 bytes and a working encoder a callback returns 0 only after the closing boundary, even if the attachment fails |
| SmtpProgress.CallbackAdvances | network/network_protocol/smtp/no_tls/smtp_no_tls_demo.c:602-670 | the status never moves back and each such callback strictly lowers the bound on callbacks left |
| SmtpProgress.UploadEnds | network/network_protocol/smtp/no_tls/smtp_no_tls_demo.c:602-670 | the upload is over after at most 6 + ceil(text/375) + ceil(file/375) such callbacks |
| SmtpLines.CallbackTidy | network/network_protocol/smtp/no_tls/smtp_no_tls_demo.c:394-411 | a callback of 512 bytes, or any before a body has begun, keeps all body lines within 152 characters |
| SmtpLines.LinesStayShort | network/network_protocol/smtp/no_tls/smtp_no_tls_demo.c:394-411 | the same over whole runs whose callbacks after the first have 512 bytes, whatever the first |
| SmtpTheorems.RefinesOneShot | network/network_protocol/smtp/no_tls/smtp_no_tls_demo.c:602-670 | a finished run with successful SDK calls has sent header, text head, Base64(text), attachment head, Base64(file) and closing boundary |
| SmtpTheorems.AlwaysPrefix | network/network_protocol/smtp/no_tls/smtp_no_tls_demo.c:602-670 | after every callback the stream, line breaks removed, is a prefix of that message |
| SmtpTheorems.FailuresOnlyCutAttachment | network/network_protocol/smtp/no_tls/smtp_no_tls_demo.c:263-316 | whatever fails, a finished mail has its fixed parts and decodes to the text, and its attachment is absent or decodes to a prefix of the file |
| SmtpTheorems.SectionsOnce | network/network_protocol/smtp/no_tls/smtp_no_tls_demo.c:602-670 | each fixed section is written at most once, the closing boundary exactly when the upload is over |
| SmtpReceiver.NoHyphen | network/network_protocol/smtp/no_tls/smtp_no_tls_demo.c:37-38 | no encoded body, however pieced and broken, contains a hyphen |
| SmtpTheorems.BodiesNeverDelimit | network/network_protocol/smtp/no_tls/smtp_no_tls_demo.c:37-38 | in every run, whatever fails, neither body holds a hyphen, so no delimiter line |
| SmtpReceiver.SkipBody | network/network_protocol/smtp/no_tls/smtp_no_tls_demo.c:37-38 | a search for the delimiter passes a hyphen-free body and does not run into the delimiter behind it |
| SmtpReceiver.SubjectExactly | network/network_protocol/smtp/no_tls/smtp_no_tls_demo.c:540-577 | the first delimiter found is the one behind the header if and only if the subject holds none |
| SmtpFields.SubjectArrives | network/network_protocol/smtp/no_tls/smtp_no_tls_demo.c:538-566 | for every letter the receiver reads the subject: nothing, an encoded word with its charset and its octets, or for ASCII its octets if and only if they hold no line break |
| SmtpFields.CharsetNames | network/network_protocol/smtp/no_tls/smtp_no_tls_demo.c:128-128 | the charsets go by their registered names |
| SmtpFields.AddressesArrive | network/network_protocol/smtp/no_tls/smtp_no_tls_demo.c:522-533 | sender and recipients are read back whatever the subject holds |
| SmtpFields.BoundaryExactly | network/network_protocol/smtp/no_tls/smtp_no_tls_demo.c:568-574 | the announced boundary is found where it is if and only if the subject holds no such field |
| SmtpFields.MixedArrives | network/network_protocol/smtp/no_tls/smtp_no_tls_demo.c:568-574 | without a line break in the subject the type read is multipart/mixed |
| SmtpReceiver.TextFound | network/network_protocol/smtp/no_tls/smtp_no_tls_demo.c:479-490 | the text part is found whole, and its body behind the first blank line |
| SmtpFields.TextFields | network/network_protocol/smtp/no_tls/smtp_no_tls_demo.c:482-490 | the fields read from the text part are text/plain, its charset and base64 |
| SmtpReceiver.NameExactly | network/network_protocol/smtp/no_tls/smtp_no_tls_demo.c:333-337 | the attachment part is found whole if and only if the base name holds no delimiter |
| SmtpReceiver.BlankExactly | network/network_protocol/smtp/no_tls/smtp_no_tls_demo.c:333-337 | its body is found if and only if the base name holds no blank line |
| SmtpFields.EncodingExactly | network/network_protocol/smtp/no_tls/smtp_no_tls_demo.c:333-337 | the type read is application/octet-stream, and the transfer encoding is found and says base64 if and only if the base name holds no such field |
| SmtpFields.FileNameExactly | network/network_protocol/smtp/no_tls/smtp_no_tls_demo.c:335-335 | the name read is the base name if and only if it holds no quote |
| SmtpFields.DispositionExactly | network/network_protocol/smtp/no_tls/smtp_no_tls_demo.c:337-337 | the same for the name in the disposition, without a carriage return in it |
| SmtpReceiver.BreakFreeIsReadable | network/network_protocol/smtp/no_tls/smtp_no_tls_demo.c:540-566 | encoded subjects always pass the searches, ASCII subjects do without a carriage return, base names without that and a quote |
| SmtpReceiver.SubjectEndsMail | network/network_protocol/smtp/no_tls/smtp_no_tls_demo.c:551-556 | with an ASCII subject that is a closing delimiter the receiver finds no part at all |
| SmtpReceiver.MailReceived | network/network_protocol/smtp/no_tls/smtp_no_tls_demo.c:602-670 | however the bodies were pieced and broken, the receiver gets text and file from the stream alone, decoding only what says base64, with types, charset and name |
| SmtpTheorems.ComposeFits | network/network_protocol/smtp/no_tls/smtp_no_tls_demo.c:293-337 | a letter fits the reservations if and only if its base name has at most 166 bytes and its contents are countable in an int |
| SmtpTheorems.LetterArrives | network/network_protocol/smtp/no_tls/smtp_no_tls_demo.c:602-670 | end to end: within the bound on callbacks a MIME receiver finds exactly text, file and subject in the stream |
| SmtpTheorems.TextSkippedExactly | network/network_protocol/smtp/no_tls/smtp_no_tls_demo.c:404-421 | left-over text is skipped if and only if the 32-bit product wraps to less than 12 |
| SmtpTheorems.FileSkippedExactly | network/network_protocol/smtp/no_tls/smtp_no_tls_demo.c:197-226 | the same for what is left of the file in a healthy callback |
| SmtpTheorems.HugeBufferLosesText | network/network_protocol/smtp/no_tls/smtp_no_tls_demo.c:404-448 | a space of 1,470,349,164 bytes does that |
| SmtpTheorems.HugeBufferLosesFile | network/network_protocol/smtp/no_tls/smtp_no_tls_demo.c:197-226 | the same space skips the rest of the file |
| SmtpClient.Base64Encode | network/network_protocol/smtp/no_tls/smtp_no_tls_demo.c:421-435 | the encoder call as the callers see it: negative on failure, else the broken encoding in place |
| SmtpClient.PieceSize | network/network_protocol/smtp/no_tls/smtp_no_tls_demo.c:404-411 | the inline arithmetic gives the piece size |
| SmtpClient.Client.constructor | network/network_protocol/smtp/no_tls/smtp_no_tls_demo.c:702-737 | a client starts at the header with nothing used |
| SmtpClient.Client.EncodeMailHeader | network/network_protocol/smtp/no_tls/smtp_no_tls_demo.c:512-579 | writes the header in place and moves on, or returns 0 if the subject does not encode |
| SmtpClient.Client.EncodeTextHead | network/network_protocol/smtp/no_tls/smtp_no_tls_demo.c:467-495 | writes the text head if 135 bytes are free |
| SmtpClient.Client.EncodeTextBody | network/network_protocol/smtp/no_tls/smtp_no_tls_demo.c:368-451 | new fields and buffer are those of the text body step |
| SmtpClient.Client.EncodeAttaHead | network/network_protocol/smtp/no_tls/smtp_no_tls_demo.c:287-349 | new fields and buffer are those of the attachment head step, failures included |
| SmtpClient.Client.EncodeAttaBody | network/network_protocol/smtp/no_tls/smtp_no_tls_demo.c:175-271 | new fields, file position and buffer are those of the file body step, failures included |
| SmtpClient.Client.EncodeClosing | network/network_protocol/smtp/no_tls/smtp_no_tls_demo.c:651-661 | writes the closing boundary if more than 45 bytes are free |
| SmtpClient.Client.UploadData | network/network_protocol/smtp/no_tls/smtp_no_tls_demo.c:602-670 | the callback's new fields, length and buffer are those of the callback function the theorems are about |
| TcpStream.NextKeeps | network/network_protocol/socket/noblock_client/tcp_noblock_client.c:529-614 | every action keeps the invariant, and only the producer's bytes join the stream |
| TcpStream.StreamConserved | network/network_protocol/socket/noblock_client/tcp_noblock_client.c:529-614 | in every interleaving wire + gathered + held + queued bytes are the bytes produced, in order |
| TcpStream.SendSplits | network/network_protocol/socket/noblock_client/tcp_noblock_client.c:578-597 | an answer of k bytes puts the first k gathered bytes on the wire and the others in front of what is pending; an error puts all back |
| TcpStream.WireIsAccepted | network/network_protocol/socket/noblock_client/tcp_noblock_client.c:578-597 | over every run the wire holds as many of the produced bytes as the socket's answers add up to, the first ones |
| TcpStream.GatherExact | network/network_protocol/socket/noblock_client/tcp_noblock_client.c:552-576 | what is offered to the socket is the first min(1500, pending) bytes that were pending when the drain began |
| TcpStream.GatherEnds | network/network_protocol/socket/noblock_client/tcp_noblock_client.c:566-576 | the gather loop ends within as many rounds as there were blocks at its start, whatever is enqueued meanwhile |
| TcpFlow.HighWaterStalls | network/network_protocol/socket/noblock_client/tcp_noblock_client.c:299-327 | once the flag is set between two drains, no run sends anything unless the receive queue clears it |
| TcpFlow.FlagExactly | network/network_protocol/socket/noblock_client/tcp_noblock_client.c:299-326 | an enqueue sets the flag exactly by crossing 8192 bytes, a dequeue clears it exactly by reaching 2048 |
| TcpFlow.ClearWithinLimit | network/network_protocol/socket/noblock_client/tcp_noblock_client.c:319-326 | a queue that never exceeds 8192 bytes never sets the flag |
| TcpFlow.StallsExactly | network/network_protocol/socket/noblock_client/tcp_noblock_client.c:546-550 | between two drains with bytes pending, some run sends more if and only if the flag is clear |
| TcpFlow.BigBlockStalls | network/network_protocol/socket/noblock_client/tcp_noblock_client.c:913-928 | one block of more than 8192 bytes before the first drain is never sent |
| TcpSession.Session.constructor | network/network_protocol/socket/noblock_client/tcp_noblock_client.c:411-471 | a session starts empty and ready |
| TcpSession.Session.SendData | network/network_protocol/socket/noblock_client/tcp_noblock_client.c:913-928 | the block goes to the end of the queue, in any phase of a drain |
| TcpSession.Session.GatherRound | network/network_protocol/socket/noblock_client/tcp_noblock_client.c:566-575 | one loop round is one pull action and stays inside the buffer |
| TcpSession.Session.Gather | network/network_protocol/socket/noblock_client/tcp_noblock_client.c:562-576 | the loop fills the buffer exactly, interleaved with any arrivals |
| TcpSession.Session.SocWrite | network/network_protocol/socket/noblock_client/tcp_noblock_client.c:529-606 | the drain is a run of the state machine; the wire grows by the first `answer` bytes that were pending and nothing is lost |
| TcpSession.Session.HighWater | network/network_protocol/socket/noblock_client/tcp_noblock_client.c:319-326 | the callback sets the flag |
| TcpSession.Session.LowWater | network/network_protocol/socket/noblock_client/tcp_noblock_client.c:299-310 | the callback clears the flag |
| TcpSession.Session.Deinit | network/network_protocol/socket/noblock_client/tcp_noblock_client.c:479-519 | a ready session drops what is pending and is not ready any more; the wire is unchanged |
| Vfs.FileReadPatiently | network/network_protocol/websocket/websocket_demo.c:331-348 | the loop fills the buffer with the file's next octets unless a read fails; reads of nothing are repeated |
| Vfs.ReadPatientlyOkExactly | network/network_protocol/websocket/websocket_demo.c:331-348 | the same with empty reads repeated: only an error ends the reading early |
| WebSocketSender.RoundKeeps | network/network_protocol/websocket/websocket_demo.c:389-480 | a round keeps taken + pending equal to the file as far as read, except by a failure that leaves a chunk behind; the end means all was taken |
| WebSocketSender.CallKeeps | network/network_protocol/websocket/websocket_demo.c:358-499 | the same for a whole call, whatever the answers |
| WebSocketSender.FileConserved | network/network_protocol/websocket/websocket_demo.c:387-479 | over every sequence of calls, and for a last call that may fail in any way; once the end is reported the whole file was taken, and nothing is sent again |
| WebSocketSender.RoundFailsExactly | network/network_protocol/websocket/websocket_demo.c:389-480 | a round fails if and only if the file cannot be opened, a send is refused, or the chunk that is due cannot be read |
| WebSocketSender.SuspendedExactly | network/network_protocol/websocket/websocket_demo.c:358-499 | a call in which nothing fails is suspended if and only if the allocation fails or one of its sends finds the buffer full; otherwise it sends all |
| WebSocketSender.FileCompletes | network/network_protocol/websocket/websocket_demo.c:358-499 | after any clean calls one accepting call takes the rest of the file, reports the end and sets complete |
| WebSocketSender.CallReleases | network/network_protocol/websocket/websocket_demo.c:486-498 | every call that ends the transfer closes the file, frees the buffer and sets complete; others leave complete alone |
| WebSocketSender.RefusedSendLeavesChunk | network/network_protocol/websocket/websocket_demo.c:438-498 | a refused send in the first round of the first call leaves a chunk behind |
| WebSocketSender.DirtyRetrySendsGarbage | network/network_protocol/websocket/websocket_demo.c:376-436 | a call after a failure that left a chunk behind sends the content of the new allocation |
| WebSocketSender.RetrySafeExactly | network/network_protocol/websocket/websocket_demo.c:486-498 | after a failure every further call is safe if and only if buf_len is 0 |
| WebSocketSession.Session.SendFresh | network/network_protocol/websocket/websocket_demo.c:438-474 | reads the next chunk in place and offers it, as the chunk step says |
| WebSocketSession.Session.OneRound | network/network_protocol/websocket/websocket_demo.c:389-480 | the loop body's new fields and result are those of the round step |
| WebSocketSession.Session.WriteTest | network/network_protocol/websocket/websocket_demo.c:358-499 | the write function's new fields and result are those of the call function |
| HttpFota.DeliverKeeps | system/fota/http/http_fota_demo.c:102-167 | after every callback of a response that continues the image it is a prefix of the remote file and the recorded length is the file's |
| HttpFota.AttemptKeeps | system/fota/http/http_fota_demo.c:217-241 | so does every attempt, cut short or refused |
| HttpFota.DownloadIsPrefix | system/fota/http/http_fota_demo.c:402-457 | from an empty image: at most four attempts, always a prefix, the whole file if the loop finishes with a known length |
| HttpFota.CallbackExactly | system/fota/http/http_fota_demo.c:102-167 | the callback returns the piece's length and appends it if and only if the response is accepted and the piece is stored; otherwise it returns 0 |
| HttpFota.AttemptStores | system/fota/http/http_fota_demo.c:215-241 | an attempt appends exactly the leading stored pieces |
| HttpFota.LoopEndsExactly | system/fota/http/http_fota_demo.c:402-457 | the loop goes on exactly while the image is short of the recorded length, for four attempts |
| HttpFota.ErrorAborts | system/fota/http/http_fota_demo.c:404-446 | the first error is the end, without a request if a size is unknown |
| HttpFota.DownloadCompletes | system/fota/http/http_fota_demo.c:402-457 | conforming answers, the k-th of at most four the first to bring what is missing: the loop finishes there with the whole file |
| HttpFota.OneAttemptIsEnough | system/fota/http/http_fota_demo.c:402-457 | a conforming server that sends everything at once needs one attempt |
| HttpFota.StatusSafeExactly | system/fota/http/http_fota_demo.c:111-157 | every conforming body with a given status is harmless if and only if the status is 206, or 200 with nothing stored, or an error with nothing accepted |
| HttpFota.IgnoredRangeCorrupts | system/fota/http/http_fota_demo.c:111-157 | resumed after k bytes at a server that answers 200 with the whole file, the loop finishes with the k bytes in front of the file |
| HttpFota.StoredStartExactly | system/fota/http/http_fota_demo.c:130-132 | with k stored bytes at the start, a satisfied length check means the whole file if and only if k is 0 |
| HttpFota.Downloader.ReadBody | system/fota/http/http_fota_demo.c:102-167 | the callback's new fields, stored image and result are those of the callback function |
| HttpFota.Downloader.HttpStart | system/fota/http/http_fota_demo.c:215-241 | a request asks for the stored length on and delivers the body until a callback returns 0 |
| HttpFota.Downloader.Download | system/fota/http/http_fota_demo.c:402-457 | the retry loop ends as the loop function says |
| SmsOwnership.RequestKeeps | network/sms/demo/sms_demo.c:1884-2073 | a request API keeps the balance of blocks, whether it validates, allocates and posts or not |
| SmsOwnership.StartTotal | network/sms/demo/sms_demo.c:976-1026 | setting up a listing frees all it allocated unless the listing is under way |
| SmsOwnership.HandleKeeps | network/sms/demo/sms_demo.c:1758-1869 | a handled message gives up its block; an exit moves the queued blocks to the lost ones |
| SmsOwnership.RespondKeeps | network/sms/demo/sms_demo.c:1118-1243 | a response keeps the listing's two blocks held or frees both |
| SmsOwnership.BlocksExactlyOnce | network/sms/demo/sms_demo.c:1758-2073 | over every interleaving each allocated block is in exactly one place: freed once, in a queued message, in a listing, or lost with the deleted queue |
| SmsOwnership.LeaksExactly | network/sms/demo/sms_demo.c:2219-2237 | an event loses a block if and only if it takes an exit message with a block queued behind it |
| SmsOwnership.RunLeaksExactly | network/sms/demo/sms_demo.c:2192-2237 | the same over whole runs |
| SmsOwnership.StopLosesRequest | network/sms/demo/sms_demo.c:2192-2237 | a request posted behind a stop call is lost, and no later event frees its block |
| SmsOwnership.ListingsInOrder | network/sms/demo/sms_demo.c:1062-1091 | every listing has requested a prefix of its record indices in order; one that is over has freed both blocks |
| SmsOwnership.ListingCompletes | network/sms/demo/sms_demo.c:1211-1242 | a listing among any others, with any events in between: k successful responses request its next k records in order, the one after the last ends it |
| SmsOwnership.ListRequestStarts | network/sms/demo/sms_demo.c:1538-1607 | taking a list request whose set-up succeeds starts a listing over exactly the returned indices and asks for the first |
| SmsOwnership.ListRequestCompletes | network/sms/demo/sms_demo.c:1211-1242 | over whole runs, k successful responses mean that the first k + 1 returned indices were requested in order, and in the end all |
| SmsOwnership.ResponseExactly | network/sms/demo/sms_demo.c:1118-1243 | every response: which listing goes on, which ends, and that an ending one frees its list and then its context |
| SmsOwnership.RequestExactly | network/sms/demo/sms_demo.c:1884-2073 | a request joins the end of the queue if and only if it is valid, its block is allocated and the queue of 20 takes it |
| SmsOwnership.ConsumeTakesFirst | network/sms/demo/sms_demo.c:2192-2227 | messages are taken in order |
| SmsOwnership.ExitIsFinal | network/sms/demo/sms_demo.c:2230-2237 | after the exit no request is ever taken |
| SmsDemo.Demo.RequestMessage | network/sms/demo/sms_demo.c:1884-2073 | 0 if and only if the queue took the message; otherwise the block is freed again |
| SmsDemo.Demo.FetchNext | network/sms/demo/sms_demo.c:1062-1072 | the next index and the advanced cursor, or -1 at the end |
| SmsDemo.Demo.Deinit | network/sms/demo/sms_demo.c:1082-1091 | frees the list, then the context |
| SmsDemo.Demo.ListMessages | network/sms/demo/sms_demo.c:1538-1607 | the listing call's effect is that of the start step on every failure path, and it returns 0 if and only if the set-up succeeds and the first read is accepted, not needed or finds no message |
| SmsDemo.Demo.ListResponse | network/sms/demo/sms_demo.c:1118-1243 | the response callback's effect is that of the response step |
| SmsDemo.Demo.TaskTurn | network/sms/demo/sms_demo.c:2192-2237 | one turn of the loop handles one message; exit deletes the queue and loses what is in it |
| CanMailbox.PollExactly | peripheral/can/can_demo.c:75-152 | with n reports since the last delivering poll, a poll delivers the latest report and the right lost flag if and only if n is at most 1 or above 1 modulo 2^32, and asks for recovery if and only if it delivers a bus-off |
| CanMailbox.WrappedReportsMissed | peripheral/can/can_demo.c:75-78 | 2^32 reports are not seen by a poll, and one more hides the loss |
| CanMailbox.TxOutcome | peripheral/can/can_demo.c:80-83 | a transmission counts as complete if it was ever completed since its start, else as aborted if there was a bus-off |
| CanMailbox.Mailbox.SignalUnitEvent | peripheral/can/can_demo.c:75-84 | the interrupt's effect on report, counter and transmit state |
| CanMailbox.Mailbox.SignalSendComplete | peripheral/can/can_demo.c:103-109 | the transmit interrupt completes the transmission |
| CanMailbox.Mailbox.StartSend | peripheral/can/can_demo.c:326-326 | a send starts a transmission |
| CanMailbox.Mailbox.CheckAndHandle | peripheral/can/can_demo.c:122-152 | the poll's result, with the request for recovery, and the new counter |
| FormReader.Reader.Read | network/network_protocol/http/post/http_post_demo.c:61-87 | a request of positive size gets min(size, what is left) bytes in place and rewinds at the end |
| FormReader.RequestsFetch | network/network_protocol/http/post/http_post_demo.c:61-87 | requests for up to what is left get exactly as many bytes as they ask for, in any split, and rewind at the end |
| FormReader.ReadsRepeat | network/network_protocol/http/post/http_post_demo.c:61-87 | for any request sizes the results are a prefix of the buffer repeated for ever, and the index is where they stopped |
| FormReader.SecondRequestRepeats | network/network_protocol/http/post/http_post_demo.c:176-184 | two requests of the content length, each in any split, get the same content and leave the reader at 0 |
| FtpPut.UploadConserves | network/network_protocol/ftp/put/ftp_put_demo.c:215-247 | for any sizes, short reads and failures the callbacks hand out the file's first used_len bytes in order |
| FtpPut.UploadComplete | network/network_protocol/ftp/put/ftp_put_demo.c:215-247 | a callback that asks for something and finds the file open returns nothing if and only if all earlier output is the first total_len bytes |
| FtpPut.UploadReaches | network/network_protocol/ftp/put/ftp_put_demo.c:215-247 | with working reads the output is as much of these bytes as was asked for, all of them if and only if the sizes reach total_len |
| FtpPut.UploadEnds | network/network_protocol/ftp/put/ftp_put_demo.c:215-247 | ceil(total_len / n) callbacks of n bytes or more give all of them |
| FtpPut.Uploader.UploadData | network/network_protocol/ftp/put/ftp_put_demo.c:215-247 | the callback's new fields and buffer are those of the upload step |
| FtpPut.QuoteFrom | network/network_protocol/ftp/put/ftp_put_demo.c:474-481 | the first quote from a position on, or the length |
| FtpPut.ReplyNamesDirectory | network/network_protocol/ftp/put/ftp_put_demo.c:526-590 | a 257 reply with a quote-free path sets both directories to it, whatever follows |
| FtpPut.UnclosedReplyIgnored | network/network_protocol/ftp/put/ftp_put_demo.c:483-507 | a 257 reply without a closing quote leaves the last reply directory unchanged |
| FtpPut.ReplyExactly | network/network_protocol/ftp/put/ftp_put_demo.c:526-590 | every reply: one that is not 257 changes neither directory; a 257 copies the last named one to the current one |
| FtpPut.DoubledPathExactly | network/network_protocol/ftp/put/ftp_put_demo.c:474-505 | a path sent with its quotes doubled is recovered if and only if it has none |
| FtpPut.Client.GetCurrentDir | network/network_protocol/ftp/put/ftp_put_demo.c:461-513 | the scanning loop stores what stands before the first quote |
| FtpPut.Client.OpenHeader | network/network_protocol/ftp/put/ftp_put_demo.c:526-590 | the header callback's effect on both directories |

## Left out

- SmtpStages.Callback: a buffer no larger than the mail header is a precondition (`Fits`), because the source then passes a wrapped size to `snprintf` and writes outside its buffer (`HeaderFitsExactly`); an overlong base name and contents above 2^31 - 1 bytes are shut out the same way (`Mail.Valid`).
- SmtpClient.Client.EncodeMailHeader: each section is written by one copy of its text instead of one per formatted print; the 128-byte limit on an encoded subject is part of the encoder's answer.
- SmtpSections: addresses and nickname are the demo's placeholders.
- The lifetime of the SMTP attachment descriptor and of its temporary buffer, which the source does not release uniformly.
- `smtp_tls_demo.c`: the same encoder functions, copied.
- TcpStream.StreamConserved: a block that the watermark queue refuses counts as not produced, and the run ends before `Deinit`, which throws the pending bytes away; re-posted send events are not modelled, and neither is the receive side, which only appends.
- TcpSession.Session.SendData: the queue's callbacks are methods of their own; when they are called is part of `TcpFlow` only.
- Vfs.FileReadPatiently: an endless series of empty reads is outside the model; the source then loops for ever, the model's answers run out and it reports a failure.
- WebSocketSender.FileConserved: the initial text message and the mapping of events to calls; calls come in any order. A read that answers nothing for ever is outside the model, since the call then never returns.
- HttpFota: redirects, handle clean-up and image verification; leaving with an error code is one outcome, `Aborted`.
- SmsOwnership: contents of requests, PDU conversion, SIM selection and the send, read and delete calls behind the handlers.
- CanMailbox: what the driver does when asked to recover, receiving, and the time-outs of a send.
- FtpPut: the allocation of the current directory, which the source does not check; building of other FTP commands.
- `ftp_fota_demo.c`, MQTT, DNS, NTP, ping, GNSS, audio, SIM and datacall demos and the peripheral demos: API sequences without an invariant of their own.
