# radminpro: a verified model

radminpro is a remote-desktop server and client for local networks. This project models its
plain logic in Dafny and proves what that logic is for. One module stands for each component.

| file | component |
|---|---|
| `FrameDiff`, `Streamer`, `Viewer`, `Replication`, `Recovery` | the screen stream: tile diff, server-side mirror, viewer buffer, both together over whole runs, and what a loss leads to |
| `Session`, `ServerSession`, `Transactions`, `Replies`, `Transfer` | a server session: admission, the message handler, upload transactions, their audit rows and replies, and the client's transfers |
| `TempNames` | which messages of a session can spoil an upload through its temporary name |
| `Accept` | the cap on concurrent sessions, as interleaved atomic steps |
| `Security`, `LockHistory`, `Overlap` | password checks with per-account lockout, one at a time and overlapping, and what a history of calls leads to |
| `Audit`, `Tampering`, `HeaderRows` | the audit log: RFC 4180 rows, the hash chain and what it shows, recovery on reopening and what upsets it |
| `Util`, `Protocol`, `WireFormat`, `Transport` | the wire: big-endian fields, typed messages and their bytes, length-prefixed frames, the byte stream |
| `Subnet` | the CIDR allow-list against the meaning of prefixes (section 3.1 of RFC 4632, section 2.3 of RFC 4291) |
| `Config`, `ConfigText`, `RightsMask`, `Text` | the configuration text, printed and hand-written, the rights mask, and their text helpers |

Where the program updates fields or arrays in loops, the model is a class or a method with loop
invariants, proved equal to a specification function; the lemmas then prove what that function
promises. Interleavings (accept loop and sessions, overlapping logins, concurrent writers) are state
machines over their atomic steps. SHA-256, password verification, the address parser, path resolution
and the outcome of each operating-system call are parameters.

Results about the code that differ from its documentation:

- README.md:150-152 promises that a file is renamed into place only when it matches the client's
  hash. The temporary name is the destination plus `.part`, so other messages of the session can reach
  that file: `TempNames.SharedTempFails` and `TempNames.SharedTempFailsWhereOpenFilesAreKept` are runs
  in which the OK row's digest is not the file's. The promise holds for an upload if and only if no
  other upload in progress has its temporary name when it is accepted and nothing interferes with the
  file afterwards (`TempNames.SafeExactlyWhenUndisturbed`).
- The audit rows are the history of the files, except after four kinds of step: an accepted request that
  empties and takes over a file that has its temporary name (uploading `x.part` and then `x` is enough,
  `Transactions.RowsCanMisstate`); a completion that renames onto a temporary file, or renames one that is
  not what was hashed; a failed completion whose temporary file the system refuses to remove; a move that
  takes a temporary file out, or puts a file in its place. A request can also uncover the temporary file
  of an upload whose number it takes, once the numbers wrap. `Transactions.Misstates` says what they are
  and `Transactions.RowsTellExactlyWhen` that there are no others, in every run.
- README.md:168-170 promises that editing or deleting any historical row shows. Before the last row it
  does, or SHA-256 has been broken (`Tampering.DeletionShows`, `Tampering.ReplacementShows`, and the
  exact conditions beside them). Rows cut off the end do not show (`Audit.VerifiesPrefix`), nor does
  anything to an auditor without a kept end value when the editor recomputes the chain
  (`Tampering.RecomputingIsNotDetected`).
- The audit log recognises its header by the start of the last physical line. A row that ends in such a
  line makes the next start of the program begin a new chain. The user name of a failed login and the
  path of a rejected upload can bring it about (`HeaderRows.LoginNamePasses`,
  `HeaderRows.RejectedPathPasses`); `HeaderRows.PassesExactlyWhen` says which rows do, and
  `Audit.LogIsOneChainExactlyWhen` in which runs the file stays one chain.
- The configuration drops users without a name or hash and unnamed rights bits when it is printed, and
  parsing trims values; `Config.RoundTripIsIdentityWhen` is the exact condition.

Conditions on runs: frames are as the capture makes them (video/ScreenCapture.cpp:137-147, rows may
also be padded), with sides below 65536 and fewer than 2^32 bytes. What an upload holds is stated for
sessions of fewer than 2^32 transfers (`Transactions.NumberedRun`).

## Model

| member | source | states |
|---|---|---|
| Replication.ViewerShowsLastFrame | client/ClientApp.cpp:316-366 | for every run of fresh frames of any geometry, timeouts and losses, delivered in order: the viewer's buffer and what it presents are the server's mirror, and the screen shows the last captured frame, sent or skipped |
| Replication.FrontIsTheCapturedFrame | video/ScreenCapture.cpp:137-147 | with tightly packed rows the front buffer then equals the last captured frame byte for byte |
| Replication.NoTornFrame | video/VideoStreamer.cpp:32-99 | after any proper prefix of the messages of a step, a failed link included, the screen still shows the previous frame whole |
| Replication.StepFollows | video/VideoStreamer.cpp:11-30 | one call preserves the two-party invariant; a fresh frame is on show afterwards, anything else leaves the viewer alone |
| Replication.KeyframeFollows | video/VideoStreamer.cpp:32-64 | a keyframe brings any viewer, whatever it held before, to exactly the frame |
| Replication.ChunksFollow | client/ClientApp.cpp:330-337 | the chunks of a keyframe reassemble to its pixels, for every length |
| Replication.TilesFollow | client/ClientApp.cpp:338-355 | blitting the delta messages does to the viewer's buffer what the server did to its mirror |
| Replication.PaintingChangedTiles | video/VideoStreamer.cpp:74-93 | painting the emitted tiles of the new frame over the old one gives the new frame on every visible byte, row padding or not |
| Replication.TightFrameIsShownWhole | video/ScreenCapture.cpp:137-147 | without row padding, showing a frame is holding exactly its bytes |
| Replication.ScreenAcrossTheWire | net/SocketTransport.cpp:223-253 | the same end to end through encoder, framing, a byte stream cut inside any later frame, unframing and decoder |
| Replication.DeltaIsNeverLargerThanTheScreen | video/VideoStreamer.cpp:74-93 | the pixel bytes of a delta never exceed 4 * width * height |
| Recovery.StepAnswers | video/VideoStreamer.cpp:11-30 | in every state of the streamer: a lost capture is to be set up again, an error is a failure, and Sent is answered exactly when something was sent |
| Recovery.NextFrameRecovers | video/VideoStreamer.cpp:16-18 | told on the captures alone: after a loss, and at the start, the messages of the next frame bring any viewer whatever to show that frame |
| Recovery.KeyframeExactlyWhen | video/VideoStreamer.cpp:22-29 | a frame is sent whole, its geometry announced, exactly when none came since the last loss or the geometry is not that of the last one; otherwise only tiles are sent |
| Recovery.SilentExactlyWhenUnchanged | video/VideoStreamer.cpp:66-82 | in between, a frame is answered with nothing exactly when every visible byte of it is as in the frame before |
| Recovery.FramesAreNumbered | video/VideoStreamer.cpp:32-99 | the frames of a run are numbered from one without gaps, modulo 2^32, and all messages of a frame carry its number |
| Recovery.ChunksInOrder | video/VideoStreamer.cpp:44-52 | the chunks of a frame sent whole: 262144 bytes each and what is left, with the place each starts at |
| FrameDiff.GridWithin | common/FrameDiff.cpp:14-17 | the scanned tiles lie on the screen and no two share a pixel |
| FrameDiff.GridCovers | common/FrameDiff.cpp:14-17 | every pixel lies in a scanned tile |
| FrameDiff.GridArea | common/FrameDiff.cpp:14-17 | the areas of the scanned tiles sum to width * height |
| FrameDiff.ChangedIsExact | common/FrameDiff.cpp:8-34 | for buffers and screens of any size: with buffers of one size a tile is emitted if and only if it is scanned and holds a difference, with buffers of two sizes none is; tile 0 means 128 |
| FrameDiff.ScanTile | common/FrameDiff.cpp:20-29 | the row loop answers whether some row of the tile differs or overruns the buffer |
| FrameDiff.ChangedTiles | common/FrameDiff.cpp:8-34 | the nested loops return, in scan order, exactly the differing tiles of the grid; nothing when the sizes differ; tile 0 means 128 |
| Streamer.ChangedTilesAreSendable | video/VideoStreamer.cpp:84-91 | every row of every emitted tile lies inside both buffers and its coordinates fit the message fields |
| Streamer.VideoStreamer.StreamOnce | video/VideoStreamer.cpp:11-30 | one call sends the specified messages and reaches the specified state, or reports an error after a proper prefix of them |
| Streamer.VideoStreamer.SendKeyframe | video/VideoStreamer.cpp:32-64 | frame header, chunks and end in order; the mirror changes only when all of it was sent |
| Streamer.VideoStreamer.SendChunks | video/VideoStreamer.cpp:44-52 | the chunk loop sends exactly the chunk list, or a prefix of it |
| Streamer.VideoStreamer.SendDelta | video/VideoStreamer.cpp:66-99 | the changed tiles and an end message, or nothing and Skipped when no tile changed |
| Streamer.VideoStreamer.SendTiles | video/VideoStreamer.cpp:74-93 | the tile loop sends each tile and has copied all of them into the mirror |
| Streamer.VideoStreamer.CopyTile | video/VideoStreamer.cpp:84-91 | the packed pixels and the updated mirror of one tile |
| Viewer.MessageStaysInside | client/ClientApp.cpp:320-355 | any message keeps the buffer at stride * height bytes and changes no byte it does not address |
| Viewer.FrontIsASnapshot | client/ClientApp.cpp:356-363 | in every run what is presented is the buffer as it stood at the latest FrameEnd, and the buffer has the announced size |
| Viewer.MessageWrites | client/ClientApp.cpp:320-363 | every byte of the buffer after any message: zero after a new geometry, the data where a chunk that fits puts it, the tile's pixels where a tile that fits puts them, and as it was elsewhere |
| Viewer.WatchedUpToTheEnd | client/ClientApp.cpp:319-378 | the reader acts on all the video messages before the first Bye or Error, and none after it |
| Viewer.ViewerState.Handle | client/ClientApp.cpp:319-366 | one message does to the viewer's fields what the specification says |
| Viewer.ViewerState.Reset | client/ClientApp.cpp:322-325 | a new geometry gives stride * height zero bytes |
| Viewer.ViewerState.Blit | client/ClientApp.cpp:342-352 | the row loop blits each row that fits both the buffer and the payload and drops the others |
| Viewer.ViewerState.ReaderLoop | client/ClientApp.cpp:316-378 | the loop applies the video messages up to the first Bye, Error or end of stream, and then stops |
| Session.InjectedExactly | server/ServerApp.cpp:383-403 | in every run exactly the input messages of the turns taken are injected, in order, in Full Control with the control right; and none otherwise |
| Session.StreamedExactly | server/ServerApp.cpp:602-616 | in every run a frame is sent in exactly the turns taken in which the capture, set up and not lost since, has one, outside file mode with a viewing right; and none otherwise |
| Session.TakenUpToBye | server/ServerApp.cpp:602-616 | which turns are taken: all those before the first Bye, where no capture fails |
| Session.OnlyWhatIsGranted | server/ServerApp.cpp:383-609 | from any point of a session: input is injected only in Full Control with the control right, frames are sent only outside file mode with a viewing right, and files change only for a holder of FileTransfer |
| Session.HandleKeepsGrant | server/ServerApp.cpp:439-489 | blocks and completions need no check of their own: without the right there is no upload for them to touch |
| ServerSession.FileSession.HandleMessage | server/ServerApp.cpp:383-597 | the handler, as a program over its map of uploads, does exactly the specified step and stops only on Bye |
| ServerSession.FileSession.HandleFile | server/ServerApp.cpp:405-591 | the dispatch of the file messages |
| ServerSession.FileSession.UploadReq | server/ServerApp.cpp:405-438 | denied, bad path, unopenable or accepted, with the reply, row and temporary file of each |
| ServerSession.FileSession.Block | server/ServerApp.cpp:439-449 | appends to the temporary file, the hash and the count of the upload with that id; unknown ids are ignored |
| ServerSession.FileSession.Complete | server/ServerApp.cpp:450-488 | the verified rename, the failed rename, and the mismatch |
| ServerSession.FileSession.Delete | server/ServerApp.cpp:490-511 | removes the file or reports that it could not |
| ServerSession.FileSession.Move | server/ServerApp.cpp:512-536 | renames the file, replacing the destination, or reports that it could not |
| ServerSession.FileSession.Download | server/ServerApp.cpp:538-582 | acceptance with size and hash, the blocks, the completion, and the row |
| ServerSession.FileSession.SendBlocks | server/ServerApp.cpp:559-573 | the block loop sends the content cut into 64 KiB blocks |
| ServerSession.FileSession.TakeTurn | server/ServerApp.cpp:602-616 | one turn: the message, then a frame, a capture set up again, or a failure that ends the loop |
| ServerSession.FileSession.EventLoop | server/ServerApp.cpp:602-616 | the loop takes exactly the specified turns, until Bye or a failed capture |
| Replies.RequestIsAnswered | server/ServerApp.cpp:405-438 | a request is accepted under a number that then holds the upload, or answered Denied, BadPath or IoError; which of these is logged, and as what |
| Replies.CompletionIsAnswered | server/ServerApp.cpp:450-488 | a completion is answered Ok exactly when its row is an OK upload with the digest received, HashMismatch exactly when an integrity failure is logged, which is when size or hash are not as declared, and IoError otherwise |
| Replies.DeletionIsAnswered | server/ServerApp.cpp:490-511 | a deletion is answered Ok exactly when its row is OK, exactly when the file was there and is gone; otherwise NotFound, and nothing has changed |
| Replies.MoveIsAnswered | server/ServerApp.cpp:512-536 | a move is answered Ok exactly when its row is OK, exactly when the file was moved; otherwise IoError, and nothing has changed |
| Replies.DownloadIsAnswered | server/ServerApp.cpp:538-582 | a download is served, as a copy the client finds good, and logged with the digest of what was sent, or answered with why not |
| Replies.OtherMessagesDoNothing | server/ServerApp.cpp:383-595 | every other message does nothing: what a server would send, blocks and completions of no upload, good receipts |
| Replies.ReceiptIsAudited | server/ServerApp.cpp:583-591 | the client's receipt of a download is logged as an integrity failure exactly when the copy has not the size and hash announced |
| Replies.ToldAsLogged | server/ServerApp.cpp:383-595 | in every session the client is told Ok of uploads, deletions and moves exactly as often as the log says OK of them |
| ServerSession.FileSession.CleanUp | server/ServerApp.cpp:618-625 | the clean-up loop removes the temporary file of every upload left |
| Transfer.DownloadIsExact | client/ClientApp.cpp:133-181 | a served download gives the client the file's bytes and a good integrity check |
| Transfer.BlocksAccumulate | server/ServerApp.cpp:439-449 | the client's split into blocks is undone by the server's accumulation, from any offset, and nothing else changes |
| Transfer.BlocksAreNumbered | client/ClientApp.cpp:113-120 | that split: the k-th block holds the k-th 65536 bytes, or what is left, and the number k modulo 2^32; there are no others |
| Transfer.SendUpload | client/ClientApp.cpp:113-123 | the client's loop sends exactly those blocks and the completion |
| Transfer.Collect | client/ClientApp.cpp:149-168 | the client's loop collects the blocks with its id up to the completion, skips other messages, and fails on Error or the end of the stream |
| Transfer.GathersItsBlocks | client/ClientApp.cpp:149-168 | which is the data of the blocks with its id before the first completion, in order, whatever else comes |
| Transfer.GoodCopyIsTheFile | client/ClientApp.cpp:170-181 | a completed download is good exactly when its data has the size and hash of the acceptance; so under the acceptance of some content a good copy is that content, or the two have one hash |
| Transfer.ReceiveDownload | client/ClientApp.cpp:133-181 | a completed download is reported good exactly when the copy has the size and hash of the acceptance, and the receipt says which; without acceptance or completion it fails and there is no receipt |
| Accept.TheCapHolds | server/ServerApp.cpp:224-241 | in every interleaving of the accept loop with sessions that end, at most maxSessions run, and the counter is the running sessions plus the slot the accept loop may hold |
| Accept.SlotsAreReleasedOnce | server/ServerApp.cpp:226-239 | whatever becomes of a connection, failed wraps included, the slot it took is given back exactly once |
| Accept.AdmittedExactlyBelowTheCap | server/ServerApp.cpp:226-240 | a connection the filter lets in gets a session if and only if it can be wrapped and fewer than maxSessions ran when it was counted |
| Accept.TurnedAwayForGood | server/ServerApp.cpp:218-223 | a connection the filter turns away takes no slot and never gets a session |
| Accept.StepKeepsInv | server/ServerApp.cpp:278-282 | every atomic step of every thread keeps the slot accounting, 32-bit wrap-around included |
| Security.GuessesInOneSpan | security/SecurityManager.cpp:31-56 | whatever came before, fewer than min(window, duration) time units answer at most 2 * max - 2 wrong guesses (one when max is 1) |
| Security.ManyGuessesTakeTime | security/SecurityManager.cpp:31-100 | more wrong guesses than that, with no success between them, span at least min(window, duration) |
| Security.GuessesInARun | security/SecurityManager.cpp:31-100 | a run of any length answers at most that many per span begun |
| Security.BurstIsReached | security/SecurityManager.cpp:31-56 | the bound is tight: a run that reaches it, for every policy with max at least 2 |
| Security.CallOnItsOwn | security/SecurityManager.cpp:62-100 | a call that no other overlaps acts as one step on its account's record |
| Security.ExistenceDoesNotShow | security/SecurityManager.cpp:70-99 | two user tables that differ in one account give identical answers and lockouts in every interleaving in which no attempt on it verifies |
| Security.AccountsAreIndependent | security/SecurityManager.cpp:31-60 | in every interleaving an account's lockout, calls and answers are those of the run with only its own calls |
| LockHistory.AnsweredExactly | security/SecurityManager.cpp:31-100 | exactly what a call is answered, told from the history of its account: LockedOut if and only if since the last right password a wrong guess reached the limit of its window less than the lockout duration before; otherwise what its password deserves |
| LockHistory.LocksEnd | security/SecurityManager.cpp:31-56 | whoever is locked out has had a wrong guess answered less than the duration before; so the right password is granted whenever none was |
| LockHistory.TheLimitLocks | security/SecurityManager.cpp:44-56 | once as many wrong guesses as the limit have been answered within one window, every call before the last of them is as old as the duration is locked out |
| LockHistory.SuccessClears | security/SecurityManager.cpp:58-60 | a right password clears the account: what came before does not count any more |
| LockHistory.OnlyWrongAnswersLock | security/SecurityManager.cpp:31-100 | in every interleaving of calls on any accounts: who is locked out, a wrong password for that account was answered to a call begun less than the duration before |
| Security.SecurityManager.IsLocked | security/SecurityManager.cpp:31-42 | the answer, and the stale count dropped only on an unlocked account |
| Security.SecurityManager.RecordFailure | security/SecurityManager.cpp:44-56 | opens a fixed window, counts, and locks at the limit |
| Security.SecurityManager.RecordSuccess | security/SecurityManager.cpp:58-60 | forgets the account's failures |
| Security.SecurityManager.AddUser | security/SecurityManager.cpp:17-20 | adds or replaces the record of that name |
| Security.SecurityManager.Authenticate | security/SecurityManager.cpp:62-100 | the outcome and the new lockouts of a call that no other overlaps; other accounts untouched |
| Audit.ChainBindsTheLog | audit/AuditLogger.cpp:196-203 | two verifying logs that end in one chain value are the same log, or the proof returns two of their own hash inputs with one hash, or one that hashes to the genesis value |
| Audit.WrittenVerifies | audit/AuditLogger.cpp:183-204 | the rows the logger writes verify and end in the value it holds |
| Audit.FileParses | audit/AuditLogger.cpp:183-204 | read by section 2 of RFC 4180 the file is the nine-field header and the nine fields of every event, for arbitrary text in them |
| Audit.ColumnsTellTheEvent | audit/AuditLogger.cpp:183-194 | under each name of the header stands what the name says, a dash for an actor or a peer there is none of; actions have names of their own |
| Audit.ActionColumnTells | audit/AuditLogger.cpp:17-34 | what was done can be read off the file: the action column holds the name of each kind of event for that kind only |
| Audit.QuotedExactlyWhen | audit/AuditLogger.cpp:171-181 | a field stands in the file as it is unless it holds a comma, a quote or a line break, and then between quotes |
| Audit.ParseFieldOfEscape | audit/AuditLogger.cpp:171-181 | reading a quoted field gives the field back and stops where it ends |
| Audit.ResumeExactly | audit/AuditLogger.cpp:142-155 | what reopening recovers, for every file the logger can write, quoted line breaks and commas included: the chain value, or genesis when the last physical line passes for the header |
| Audit.ResumeOfAnyFile | audit/AuditLogger.cpp:108-155 | what reopening recovers from any file, whoever wrote it, whose last line holds a comma: the text after the last comma, trailing blanks left out, if that is 64 characters and the line does not begin like the header, and otherwise 64 zeros |
| Audit.ReopeningIsInvisibleWhen | audit/AuditLogger.cpp:142-155 | reopening keeps the chain value if and only if that line does not pass for the header or the value was genesis anyway |
| Audit.ReopensLeaveNoTrace | audit/AuditLogger.cpp:118-155 | closing and reopening any number of times, never right after a row that passes for the header unless the chain stands at genesis, gives the file and chain value of one uninterrupted log |
| Audit.NoTraceExactlyWhen | audit/AuditLogger.cpp:118-155 | and only then: the log is the uninterrupted one at every point of a run if and only if every reopening in it is of that kind |
| Audit.AuditLogger.constructor | audit/AuditLogger.cpp:118-140 | a new file gets the header and genesis, an existing one its recovered chain value |
| Audit.AuditLogger.ResumeChain | audit/AuditLogger.cpp:142-155 | the line loop recovers the specified value |
| Audit.AuditLogger.ReadLastCsvField | audit/AuditLogger.cpp:108-114 | the text after the last comma without trailing blanks and line ends |
| Audit.AuditLogger.Escape | audit/AuditLogger.cpp:171-181 | quotes a field exactly when it must and doubles its quotes |
| Audit.AuditLogger.BuildRow | audit/AuditLogger.cpp:186-194 | the eight fields quoted and joined, empty actor and peer as a dash |
| Audit.AuditLogger.Log | audit/AuditLogger.cpp:183-204 | appends one row with its chain value and keeps that value |
| Util.DecodeOfEncode | common/Util.cpp:115-180 | reading the fields of any layout gives back what was written and what follows it |
| Util.EncodeOfDecode | common/Util.cpp:140-180 | whatever decodes is the encoding of its fields: one encoding per value |
| Util.ProperPrefixFails | common/Util.cpp:140-142 | every proper prefix of an encoding is refused |
| Util.EncodeIsPrefixFree | common/Util.cpp:115-138 | no encoding is a proper prefix of another of the same layout |
| Util.ValueOfBigEndian | common/Util.cpp:116-128 | the big-endian bytes of a number denote that number |
| Util.BigEndianOfValue | common/Util.cpp:147-166 | and every byte string is the big-endian form of its value |
| Util.Buffer.PutU8 | common/Util.cpp:115 | appends one byte: the encoding of one field |
| Util.Buffer.PutU16 | common/Util.cpp:116-119 | appends two bytes, most significant first: the encoding of one field |
| Util.Buffer.PutU32 | common/Util.cpp:120-125 | appends four bytes, most significant first: the encoding of one field |
| Util.Buffer.PutU64 | common/Util.cpp:126-128 | appends eight bytes in its shift loop, most significant first: the encoding of one field |
| Util.Buffer.PutBlob | common/Util.cpp:132-138 | appends a length and the bytes: the encoding of one field |
| Util.Buffer.PutHash | common/Protocol.cpp:76 | appends the 32 bytes of a hash |
| Util.ByteReader.U8 | common/Util.cpp:143-146 | reads the next field as the layout has it, or fails where decoding the whole layout fails |
| Util.ByteReader.U16 | common/Util.cpp:147-152 | reads the next field as the layout has it, or fails where decoding the whole layout fails |
| Util.ByteReader.U32 | common/Util.cpp:153-159 | reads the next field as the layout has it, or fails where decoding the whole layout fails |
| Util.ByteReader.U64 | common/Util.cpp:160-166 | reads the next field as the layout has it, or fails where decoding the whole layout fails |
| Util.ByteReader.Blob | common/Util.cpp:173-180 | reads the next field as the layout has it, or fails where decoding the whole layout fails |
| Util.ByteReader.Hash | common/Protocol.cpp:77-82 | reads 32 bytes, or fails where decoding the whole layout fails |
| Protocol.DecodeOfEncodedMessage | common/Protocol.cpp:85-332 | every message of every kind survives encoding and decoding, whatever bytes follow it |
| Protocol.TruncatedMessageFails | common/Protocol.cpp:85-332 | a payload cut short anywhere is refused |
| WireFormat.HandshakeBytes | common/Protocol.h:27-32 | the bytes of each message of the handshake: opcode, then the fields in order, most significant byte first, texts after their length |
| WireFormat.VideoBytes | common/Protocol.h:34-37 | the bytes of each video message |
| WireFormat.InputBytes | common/Protocol.h:39-40 | the bytes of each input message |
| WireFormat.FileBytes | common/Protocol.h:42-51 | the bytes of each file message |
| WireFormat.ControlBytes | common/Protocol.h:53-55 | the bytes of each control message |
| WireFormat.UnknownIsPassedOver | server/ServerApp.cpp:594-597 | among any messages one of an unknown opcode is passed over, and one that cannot be decoded ends the reading |
| WireFormat.FramesAreBounded | net/SocketTransport.cpp:238-253 | four bytes of length that count the opcode and payload, then these; a length of zero or beyond 16 MiB is refused unread |
| WireFormat.SentExactlyWhenTaken | net/SocketTransport.cpp:223-253 | the sender refuses exactly what no receiver would take: a message goes out, and comes in as it was, if and only if opcode and payload are at most 16 MiB |
| Protocol.EncodeHello | common/Protocol.cpp:85-90 | its sequence of put calls writes the Hello encoding the round trip is proved for |
| Protocol.DecodeHello | common/Protocol.cpp:91-97 | its sequence of reads accepts exactly the payloads the Hello layout accepts, with those fields |
| Protocol.EncodeServerHello | common/Protocol.cpp:99-104 | its sequence of put calls writes the ServerHello encoding the round trip is proved for |
| Protocol.DecodeServerHello | common/Protocol.cpp:105-111 | its sequence of reads accepts exactly the payloads the ServerHello layout accepts, with those fields |
| Protocol.EncodeAuthRequest | common/Protocol.cpp:114-119 | its sequence of put calls writes the AuthRequest encoding the round trip is proved for |
| Protocol.DecodeAuthRequest | common/Protocol.cpp:120-126 | its sequence of reads accepts exactly the payloads the AuthRequest layout accepts, with those fields |
| Protocol.EncodeAuthResult | common/Protocol.cpp:128-134 | its sequence of put calls writes the AuthResult encoding the round trip is proved for |
| Protocol.DecodeAuthResult | common/Protocol.cpp:135-142 | its sequence of reads accepts exactly the payloads the AuthResult layout accepts, with those fields |
| Protocol.EncodeSessionStart | common/Protocol.cpp:144-148 | its sequence of put calls writes the SessionStart encoding the round trip is proved for |
| Protocol.DecodeSessionStart | common/Protocol.cpp:149-154 | its sequence of reads accepts exactly the payloads the SessionStart layout accepts, with those fields |
| Protocol.EncodeFrameInfo | common/Protocol.cpp:157-166 | its sequence of put calls writes the FrameInfo encoding the round trip is proved for |
| Protocol.DecodeFrameInfo | common/Protocol.cpp:167-177 | its sequence of reads accepts exactly the payloads the FrameInfo layout accepts, with those fields |
| Protocol.EncodeFrameData | common/Protocol.cpp:179-185 | its sequence of put calls writes the FrameData encoding the round trip is proved for |
| Protocol.DecodeFrameData | common/Protocol.cpp:186-193 | its sequence of reads accepts exactly the payloads the FrameData layout accepts, with those fields |
| Protocol.EncodeFrameRect | common/Protocol.cpp:195-204 | its sequence of put calls writes the FrameRect encoding the round trip is proved for |
| Protocol.DecodeFrameRect | common/Protocol.cpp:205-215 | its sequence of reads accepts exactly the payloads the FrameRect layout accepts, with those fields |
| Protocol.EncodeFileUploadReq | common/Protocol.cpp:218-224 | its sequence of put calls writes the FileUploadReq encoding the round trip is proved for |
| Protocol.DecodeFileUploadReq | common/Protocol.cpp:225-232 | its sequence of reads accepts exactly the payloads the FileUploadReq layout accepts, with those fields |
| Protocol.EncodeFileAccept | common/Protocol.cpp:234-240 | its sequence of put calls writes the FileAccept encoding the round trip is proved for |
| Protocol.DecodeFileAccept | common/Protocol.cpp:241-248 | its sequence of reads accepts exactly the payloads the FileAccept layout accepts, with those fields |
| Protocol.EncodeFileBlock | common/Protocol.cpp:250-256 | its sequence of put calls writes the FileBlock encoding the round trip is proved for |
| Protocol.DecodeFileBlock | common/Protocol.cpp:257-264 | its sequence of reads accepts exactly the payloads the FileBlock layout accepts, with those fields |
| Protocol.EncodeFileVerify | common/Protocol.cpp:266-271 | its sequence of put calls writes the FileVerify encoding the round trip is proved for |
| Protocol.DecodeFileVerify | common/Protocol.cpp:272-278 | its sequence of reads accepts exactly the payloads the FileVerify layout accepts, with those fields |
| Protocol.EncodeFileMove | common/Protocol.cpp:280-285 | its sequence of put calls writes the FileMove encoding the round trip is proved for |
| Protocol.DecodeFileMove | common/Protocol.cpp:286-292 | its sequence of reads accepts exactly the payloads the FileMove layout accepts, with those fields |
| Protocol.EncodeFileDelete | common/Protocol.cpp:294-298 | its sequence of put calls writes the FileDelete encoding the round trip is proved for |
| Protocol.DecodeFileDelete | common/Protocol.cpp:299-304 | its sequence of reads accepts exactly the payloads the FileDelete layout accepts, with those fields |
| Protocol.EncodeFileOpResult | common/Protocol.cpp:306-311 | its sequence of put calls writes the FileOpResult encoding the round trip is proved for |
| Protocol.DecodeFileOpResult | common/Protocol.cpp:312-318 | its sequence of reads accepts exactly the payloads the FileOpResult layout accepts, with those fields |
| Protocol.EncodeError | common/Protocol.cpp:320-325 | its sequence of put calls writes the Error encoding the round trip is proved for |
| Protocol.DecodeError | common/Protocol.cpp:326-332 | its sequence of reads accepts exactly the payloads the Error layout accepts, with those fields |
| Protocol.EncodeFrameEnd | video/VideoStreamer.cpp:54-56 | the four bytes of the sequence number |
| Protocol.EncodeInputMouse | client/ClientApp.cpp:236-240 | position and action |
| Protocol.DecodeInputMouse | server/ServerApp.cpp:390-392 | position and action, or failure on a short payload |
| Protocol.EncodeInputKey | client/ClientApp.cpp:300-303 | direction and key code |
| Protocol.DecodeInputKey | server/ServerApp.cpp:398-400 | direction and key code, or failure on a short payload |
| Protocol.EncodeFileDownloadReq | client/ClientApp.cpp:134-136 | the path as a string |
| Protocol.DecodeFileDownloadReq | server/ServerApp.cpp:545-546 | the path, or failure on a short payload |
| Protocol.EncodeFileComplete | client/ClientApp.cpp:121-123 | the transfer id |
| Protocol.DecodeFileComplete | server/ServerApp.cpp:451-452 | the transfer id, or failure on a short payload |
| Transport.WireDelivers | net/SocketTransport.cpp:223-253 | encode, frame, unframe and decode any list of messages within the size cap: the same list, even when the stream ends inside a further frame |
| Transport.UnframeOfFrames | net/SocketTransport.cpp:223-253 | frames laid end to end come apart into the same messages, whatever follows |
| Transport.UnframeOfPart | net/SocketTransport.cpp:238-252 | a part of a frame yields no message |
| Transport.WritersDoNotInterleave | net/SocketTransport.cpp:223-236 | in every interleaving of writers the reader sees whole messages in lock order, one cut off by an error at most excepted |
| Transport.Channel.WriteAll | net/SocketTransport.cpp:193-206 | every byte in order however the writes are split, or a proper prefix of them and a broken stream |
| Transport.Channel.ReadAll | net/SocketTransport.cpp:208-221 | exactly the next n bytes however the reads are split |
| Transport.Channel.WriteMessage | net/SocketTransport.cpp:223-236 | one frame, or nothing when oversize, or a part of it on a broken stream |
| Subnet.MatchingIsContainment | security/SubnetFilter.cpp:45-57 | byte-wise matching holds if and only if the two addresses are equal as big-endian numbers divided by 2^(width - prefix) |
| Subnet.MaskKeepsRange | security/SubnetFilter.cpp:30-43 | masking a rule does not change which addresses it holds |
| Subnet.RulesAreTheUnion | security/SubnetFilter.cpp:87-105 | the rules added from a list hold exactly the addresses its well-formed tokens name |
| Subnet.AllowListIsExact | security/SubnetFilter.cpp:59-105 | the rules added from a list let in, besides what was let in before, exactly the addresses its tokens denote, told without reading the tokens as the program does: an address without a slash denotes itself, an address, a slash and digits those that agree with it in that many leading bits, if it has that many, and any other text denotes nothing |
| Subnet.PrintedPrefix | security/SubnetFilter.cpp:59-85 | a printed number n after the slash means n bits: the two numbers divided by 2^(width - n) are equal |
| Subnet.ListsAreCut | security/SubnetFilter.cpp:87-105 | a list is cut at commas and blanks of any kind, and text without them is one token |
| Subnet.SubnetFilter.MaskInPlace | security/SubnetFilter.cpp:30-43 | zeroes the host bits of the family's bytes in the array and leaves the rest |
| Subnet.SubnetFilter.MatchPrefix | security/SubnetFilter.cpp:45-57 | the loop compares the whole bytes and the leading bits of the next |
| Subnet.SubnetFilter.AddCidr | security/SubnetFilter.cpp:59-85 | adds the masked rule of text that denotes something and refuses all other, rules unchanged |
| Subnet.SubnetFilter.AddList | security/SubnetFilter.cpp:87-105 | adds exactly the rules of the well-formed tokens and returns their count; afterwards an address is let in exactly if it was before or a token denotes it |
| Subnet.SubnetFilter.IsAllowed | security/SubnetFilter.cpp:107-119 | allowed if and only if the text is an address inside some rule; nothing is allowed without rules |
| Config.ParseOfSerialize | server/ServerApp.cpp:253-271 | parsing what was printed gives the configuration back, except users that cannot be written and rights bits without a name |
| ConfigText.LinesAreReadInTurn | server/ServerApp.cpp:112-114 | whatever the text, it is read line by line, each on the configuration the ones before it gave, and the last with or without a line break |
| ConfigText.BlanksDoNotMatter | server/ServerApp.cpp:114-120 | a line with a key says what its key and value say, whatever blanks stand around them |
| ConfigText.SilentLines | server/ServerApp.cpp:114-117 | blank lines, comments and lines without = say nothing |
| ConfigText.KeysSetTheirSetting | server/ServerApp.cpp:122-131 | each key sets its own setting and nothing else |
| ConfigText.NumbersWrap | server/ServerApp.cpp:122-131 | numbers wrap at the width of their setting, negative ones too |
| ConfigText.UserKeysSetTheirUser | server/ServerApp.cpp:132-142 | a user key sets its field of its user, who is made if not there, and touches no other user or setting; names may hold dots |
| ConfigText.OtherKeysAreIgnored | server/ServerApp.cpp:122-142 | any other key says nothing |
| ConfigText.EmptyFile | server/ServerApp.h:21-33 | what an empty file configures |
| ConfigText.RightsByName | common/Protocol.cpp:38-49 | the ten rights by name, each with its own bit |
| ConfigText.RightsListsAreCut | server/ServerApp.cpp:141 | a list of rights is cut at bars and commas, each piece giving its right |
| ConfigText.SettingsArePrintedOnce | server/ServerApp.cpp:253-265 | besides the users nine settings are printed, the client certificate authority as a tenth where there is one, and none twice |
| Config.ParseText | server/ServerApp.cpp:108-146 | the line loop computes the specified configuration |
| Config.SerializeConfig | server/ServerApp.cpp:253-271 | the printing loop writes the specified text |
| Config.SplitAny | server/ServerApp.cpp:35-47 | the character loop returns the pieces between separators |
| Text.SplitAtSeparator | server/ServerApp.cpp:35-47 | text without separators is its own one piece, and the pieces on the two sides of a separator are found independently |
| Text.SplitOfJoin | server/ServerApp.cpp:35-47 | splitting undoes joining with a separator |
| Text.AtoiOfDecimal | server/ServerApp.cpp:255-263 | reading a printed number gives the number |
| RightsMask.RightsRoundTrip | common/Protocol.cpp:53-73 | printing a rights mask and reading it back keeps exactly the ten named rights |
| RightsMask.RightsAsPrinted | common/Protocol.cpp:53-63 | what is printed: None without a known right, otherwise names of rights held, between bars, each once and in table order |
| RightsMask.PrintRights | common/Protocol.cpp:53-63 | the loop prints the names of the set bits in table order, None when there is none |
| RightsMask.ReadRights | common/Protocol.cpp:65-73 | the loops set the bit of every known name and ignore the others |
| TempNames.CompletedUploadIsExact | server/ServerApp.cpp:450-488 | at any point of any session a completion that goes through changes, besides the temporary file, only the file its request named; the blocks sent under its id have the declared length and hash, and that hash is the row's; and if no upload had the temporary name before and nothing interfered since, the file holds those blocks in order of arrival |
| Transactions.UploadHoldsItsBlocks | server/ServerApp.cpp:439-449 | an upload in progress holds exactly the blocks that carried its id since it was asked for, in any interleaving, whatever paths are named and whatever the system refuses |
| Transactions.OnlyThreeMessagesChangeFiles | server/ServerApp.cpp:383-597 | in every state, exactly what messages other than completions, deletions and moves do to visible files: nothing, but an accepted request takes over a file that has its temporary name, and uncovers that of an upload whose number it takes after 2^32 transfers |
| Transactions.CompleteStep | server/ServerApp.cpp:450-488 | a completion puts the temporary file at the final path exactly when size, hash and rename are right; otherwise it changes no visible file, but where its removal is refused leaves the temporary one, which shows if no other upload has it |
| Transactions.ToldExactlyWhen | server/ServerApp.cpp:383-597 | in every state a step's row, or its want of one, tells what happened to the files if and only if the step is not one of the misstating kinds, which are defined by guards on the state before it |
| Transactions.RowsAreTheHistory | server/ServerApp.cpp:463-535 | in a run without misstating steps, replaying the audit rows over the initial files gives the final files, name for name and digest for digest |
| Transactions.RowsTellExactlyWhen | server/ServerApp.cpp:383-597 | for every run, whatever is named and refused: the rows tell the files at every point of it if and only if no step of it misstates |
| Transactions.RowsCanMisstate | server/ServerApp.cpp:420-436 | and a misstating step needs no fault: from any state without uploads, uploading x.part and then x leaves only x, while two OK rows tell of both |
| Transactions.NothingIsLeftBehind | server/ServerApp.cpp:618-625 | in any state the clean-up leaves the visible files and the temporary files whose removal is refused, so nothing if and only if there is none |
| TempNames.UndisturbedUploadLands | server/ServerApp.cpp:405-489 | from any state in which the temporary file is the upload's own, through any events none of which interferes, an OK completion lands exactly what the upload had and its own blocks |
| TempNames.InterferenceSpoils | server/ServerApp.cpp:420-536 | after any interfering event (an accepted request with the same temporary name, another upload completed or a file moved onto it with other content) some blocks and refused completions of other uploads leave the temporary file other than what was received, and open nowhere else |
| TempNames.SafeExactlyWhenUndisturbed | server/ServerApp.cpp:405-536 | the exact condition, over whole runs: an accepted request is safe at every point, whatever it declares and whatever harmless events follow, if and only if no upload in progress has its temporary name and no event of the run interferes |
| TempNames.SharedTempFails | server/ServerApp.cpp:420-436 | two uploads to one path at a time: the first to complete is logged OK with a digest that is not that of the file |
| TempNames.SharedTempFailsWhereOpenFilesAreKept | server/ServerApp.cpp:464-477 | the same where an open file can be neither renamed nor removed: the other upload completes first, is refused both, and its byte is what the first lands |
| Session.NothingWithoutALogin | server/ServerApp.cpp:285-354 | a whole connection, from the handshake on, greetings and rows told exactly: without the password of an account that was not locked a client is told no right, gets no session and changes nothing; with it, it is told the rights in the account's record, and a session starts if and only if they permit one of the three modes, and stays within them; otherwise it is told Failed(2) and a DENIED row is logged |
| ServerSession.LoopIsARun | server/ServerApp.cpp:602-616 | the state a run of the event loop comes to is that of the messages of the turns it takes |
| ServerSession.FileSession.Run | server/ServerApp.cpp:602-625 | the session from its first turn to its clean-up: what it injects is exactly the input of the turns taken, where that is allowed; and if no step misstates, the files it leaves are those its rows tell of exactly when no removal is refused |
| Transfer.FileSurvivesTheRoundTrip | client/ClientApp.cpp:90-181 | from any state, any bytes uploaded and downloaded again by the same path: the client reports success for both and the copy is the original |
| Transfer.UploadArrives | client/ClientApp.cpp:90-131 | from any state, an accepted upload of any length ends with the file holding the client's bytes, an OK row and reply, a client that reports success, and nothing else changed but that a file with the temporary name is gone |
| Transfer.UploadIsReportedTruly | client/ClientApp.cpp:90-131 | in any state and whatever the system refuses, the client reports success exactly when the upload was permitted, accepted and renamed; then the file holds its bytes and the row says so, and otherwise only the temporary file may differ and no row says OK |
| Transfer.UploadFile | client/ClientApp.cpp:90-131 | the client's upload sends the request, and after an acceptance the blocks and the completion, and reports success exactly on an acceptance followed by a good verification |
| Overlap.GateMirrors | security/SecurityManager.cpp:62-100 | in every interleaving of calls on any accounts, the wrong answers an account gives while no attempt on it verifies are those its own record and calls account for |
| Overlap.OverlappingGuessesInOneSpan | security/SecurityManager.cpp:62-100 | with at most k + 1 calls on an account in progress, all of which read the clock within one span, at most Burst + k wrong guesses are answered, and Burst + k + 1 more for each call in progress from before |
| Overlap.OverlappingGuessesInARun | security/SecurityManager.cpp:62-100 | over a run of any length, in whatever order calls take the lock: at most Burst + k + k * (Burst + k + 1) per span begun, besides the calls in progress at the start |
| Overlap.WrongAnswersInARun | security/SecurityManager.cpp:62-100 | the same bound on the answers of the whole server, other accounts' calls in between |
| Overlap.WrongAnswersOneAtATime | security/SecurityManager.cpp:62-100 | and Burst per span begun for an account whose calls do not overlap |
| Audit.LogIsOneChainExactlyWhen | audit/AuditLogger.cpp:118-204 | at every point of a run the whole file is read as the header and nine fields per logged event, and the rows so read verify as a single chain ending in the value the logger holds, if and only if no reopening comes right after a row that passes for the header while the chain is past genesis |
| Audit.VerifiesPrefix | audit/AuditLogger.cpp:196-203 | a log cut at the end still verifies |
| Tampering.DeletionVerifiesExactlyWhen | audit/AuditLogger.cpp:196-203 | a log with rows deleted verifies if and only if the deletion reaches the end, or the first row after the gap hashes, on the chain value before it, to the value it carries |
| Tampering.DeletionShows | audit/AuditLogger.cpp:196-203 | rows deleted before the last show, or the proof returns a collision or a genesis preimage among the logs' own hash inputs |
| Tampering.ReplacementVerifiesExactlyWhen | audit/AuditLogger.cpp:196-203 | a log with one row replaced verifies if and only if the new row carries its own hash and the next one still hashes to what it carries |
| Tampering.ReplacementShows | audit/AuditLogger.cpp:196-203 | a row replaced before the last shows, with the same exceptions |
| Tampering.RecomputingIsNotDetected | audit/AuditLogger.cpp:196-203 | after any rows that verify any texts can follow in a log that verifies: who recomputes the chain is caught only by an end value kept elsewhere |
| HeaderRows.PassesExactlyWhen | audit/AuditLogger.cpp:146-150 | a row passes for the header if and only if the last of its fields that holds a line break goes on after its last one like the header |
| HeaderRows.LoginNamePasses | server/ServerApp.cpp:323-325 | the name of a failed login can, after any log: the next start then forgets the chain |
| HeaderRows.RejectedPathPasses | server/ServerApp.cpp:415-416 | and so can the path of a rejected upload |
| Config.ParseIsParsed | server/ServerApp.cpp:108-146 | whatever the text, parsing gives trimmed one-line values and users in strict order of names without = |
| Config.RoundTripIsIdentityWhen | server/ServerApp.cpp:108-146 | the round trip is the identity on exactly the configurations with trimmed one-line values and ordered users, each with a name without =, a hash and only named rights |
| Text.TrimIsExact | server/ServerApp.cpp:28-33 | trimming takes blanks and nothing else off the two ends, and all of them |
| Transport.Channel.ReadMessage | net/SocketTransport.cpp:238-253 | takes exactly one frame off the stream; on a sound stream fails only where there is none, having taken some first bytes and changed none |
| Streamer.VideoStreamer.CopyOneRow | video/VideoStreamer.cpp:85-90 | one row of a tile, taken from the frame and copied into the mirror at its offset |
| Viewer.ViewerState.BlitOneRow | client/ClientApp.cpp:344-351 | one row of a tile blitted where it fits the buffer and the payload holds it, and dropped elsewhere |

## Left out

- Windows, dialogs, tray, overlay, capture devices: user interface and drivers; a capture is any stream of frames, time-outs, losses and errors.
- OpenSSL, Argon2, DPAPI, access-control lists, privilege helpers: library calls; TLS is an in-order byte stream that may split or break anywhere, and its WANT_READ and WANT_WRITE retries are steps that change nothing.
- Sockets, time-outs, polling (`readMessageTimed`): one turn of the event loop is given a message or none.
- `resolveInRoot` and the address parser of the platform: any partial function; a path that leaves the root is one without a result.
- Directories, symbolic links, file attributes: the disk is a map from path to content.
- A failed write to an opened temporary file: the program does not check for it; opening, renaming and removing may fail.
- Session.NothingWithoutALogin: of the greetings and rows before the event loop the texts are not modelled, nor how the session number is drawn.
- Malformed payloads inside a session: the program does not catch the exception, so a run ends there.
- Reply texts and the details of audit rows of a session: `Session.Row` holds the action, the paths, the outcome and the digest that the replay needs.
- Hexadecimal printing, constant-time comparison, wiping of memory: short members with nothing to relate.
- Security.GuessesInOneSpan: for calls that do not overlap; `Overlap.OverlappingGuessesInOneSpan` is the bound for calls that do.
- Security.ManyGuessesTakeTime: for calls that do not overlap, as the bound it turns round.
- Security.GuessesInARun: for calls that do not overlap; `Overlap.OverlappingGuessesInARun` is the bound for calls that do.
- LockHistory.AnsweredExactly: for calls that come one after another in the order of the clock; `LockHistory.OnlyWrongAnswersLock` is what holds of calls that overlap.
- Overlap.OverlappingGuessesInARun: for a clock that does not go back, and not shown to be tight for calls that overlap.
- Security.ExistenceDoesNotShow: about answers and lockouts, not about the time a verification takes.
- TempNames.CompletedUploadIsExact: says nothing of the content of an upload that was interfered with; `TempNames.SafeExactlyWhenUndisturbed` says exactly which requests are safe.
- TempNames.SafeExactlyWhenUndisturbed: what a path holds while it is open is the model's; a system that keeps open files, as Windows does, refuses the completions and moves that interfere, and leaves the requests.
- Transactions.RowsAreTheHistory: about the structured rows; in the log itself a move writes its two paths as one text.
- Config.RoundTripIsIdentityWhen: numbers below 2^31, where atoi is defined, and ports of 16 bits.
- Audit.ResumeOfAnyFile: a last line without a comma, which the program never writes, is in the model (`Audit.Resume`) and not in the lemma.
- Audit.FileParses: fields hold any characters, where RFC 4180 admits printable ASCII only.
- Subnet.AllowListIsExact: prefix digits are read as the number they spell; std::atoi leaves numbers beyond 2^31 undefined.
- Subnet.SubnetFilter.MaskInPlace: the byte mask is written with division by a power of two in place of a shift.
- RightsMask.RightsRoundTrip: a mask is the set of the positions of its bits.
- FrameDiff.ChangedTiles: for sides up to 2^31, where the 32-bit loop counters cannot wrap.
- Viewer.FrontIsASnapshot: for strides below 2^31, because the viewer holds the stride in a signed integer.
- Accept.TheCapHolds: a failure to start the session thread is not a step, because the program does not handle one.
- Several sessions at one file root: a run is one session; replies to a client that has gone, and messages of a client whose server has gone, count as sent.
- Failure counters and received byte counts are unbounded numbers.
