# espshell: a verified model of the remote shell and its client

espshell is a remote shell for a microcontroller. A firmware component listens on TCP,
authenticates one client at a time by a shared token, and then runs command lines that
arrive in sealed frames; log lines and replies go back on the same connection. The
command line client `esp-ctl` finds devices by mDNS, reads a profile file, performs the
handshake, sends commands and uploads firmware images.

This project models both ends in Dafny and proves, for all inputs and all runs:

- **The secure channel.** Over a network that may drop, reorder, replay or forge any
  bytes, each side has accepted exactly a prefix of what the other side sealed; nonces
  are never used twice (`SecureChannel`, over `Wire`, `Proto`, `ClientProto`, `Framing`).
- **Several tasks, one socket.** However the tasks that send are interleaved, the socket
  holds whole frames in counter order (`Producers`), and the client's `k`-th reply is the
  answer to its `k`-th command, whatever events are sent in between (`Dialogue`). Any
  commands and events have a run in which all of them arrive (`Exchanges`).
- **The server session.** Handshake, command loop and teardown of one connection: no
  command without a proof for the nonce of that very attempt, commands in order, one
  reply each, every byte that goes out, nothing left behind (`Handshake`, `Turns`,
  `Server`). The client's loops (`Client`), and both ends put together (`EndToEnd`).
- **The command line.** The in-place tokeniser, the exact condition under which arguments
  survive being joined by spaces, and the quoted round trip (`Tokenizer`, `Quoting`);
  dispatch and its replies (`Dispatch`).
- **Firmware updates.** The OTA receiver against its abstract behaviour, over any
  sequence of calls, down to what the update partition holds (`Ota`, `OtaRuns`), and the
  client's upload with lines and replies that may get lost (`UploadLoop`).
- **Discovery.** DNS name expansion accepts exactly the stored names; the parser follows
  the records of any packet; what discovery prints is what the profile reader reads
  (`Names`, `StoredNames`, `Responses`, `Records`, `Packets`, `Profiles`, `Discover`).

- **The bytes themselves.** What is sent and read, told without the functions above: frames
  and nonces (`WireBytes`), proofs and keys (`Binding`), the lines of the handshake
  (`Claims`), tokens (`TokenText`), replies (`ReplyText`), records and devices
  (`PacketBytes`, `Devices`), the profile file (`Editing`).

`dafny verify dfyconfig.toml` checks everything.

## Conventions

- A byte is an `int` from 0 to 255. Widths are explicit where the code can wrap: `Next64`
  for the counters, `Add32` for the byte count of an upload.
- The AEAD is ideal: a memory `Table` of what has been sealed under which key, nonce and
  additional data; the ciphertext is an unconstrained function of these. Opening succeeds
  exactly for what the memory holds. HMAC, HKDF and SHA-256 are unconstrained functions
  (`Mac`, `Kdf`, `Digest`); the witnesses of these types only show that they are inhabited.
- Libraries, sockets and drivers may fail at any call. A ghost flag `reliable` says that
  one does not; liveness claims are made under it, safety claims without it.
- Reading the clock, random bytes and the network are parameters: a nonce source, the byte
  stream of a socket, a sequence of packets.
- A handler other than those of `ota.c` may report anything (`Server.AnyOutcome`), and
  other tasks may send any events (`Server.AnyEvent`).
- `Server` lets other tasks send between two steps of the command loop, one whole
  `send_frame` at a time; `Producers` and `Dialogue` interleave at the level of the send
  lock, sealing and single writes.
- In `Server.Connection.RunSession` the memory of the AEAD already holds the client's
  frames when the session opens, so a client that seals its next command only after a
  reply is covered there by foresight; likewise the client's loops and the replies they
  will read. `EndToEnd` puts the two together over the memory at the end. `Dialogue`
  models the two sides step by step and needs no foresight.

## Where the code differs from its documentation

- `docs/protocol.md:36-37` has clients ignore unknown keys of HELLO. The client reads the
  nonce as the whole rest of the line behind the first `nonce=`
  (`tools/esp-ctl/src/esp-ctl.c:148-165`). `Handshake.HelloIsGreeted` gives the exact
  condition: at most one CR behind the nonce, no `nonce=` in front of it, and a line that
  fits the 512-byte buffer. `AuthLines.UnknownKeysAreRefused` and
  `Handshake.LongHelloIsRefused` give lines with unknown keys that are refused.
- `components/core/include/cmd.h:54` promises -1 for a reply that does not fit.
  `cmd_dispatch` returns the full length and cuts the text (`components/core/src/cmd.c:101-136`),
  so the overflow branch at `components/core/src/net.c:416-418` is dead;
  `Dispatch.Shell.Dispatch` states what is written.
- An upload that ends with exit code 3 may have committed: the reply to OTA_END can get
  lost (`UploadLoop.LostReplyCommits`; the exact condition is in `UploadLoop.Upload`).
- Discovery prints a section for every device name, but the reader ends a heading at its
  first `]`: a name that holds one (or a newline) can be loaded from no profile file
  (`Profiles.SomeNamesNeverLoad`), and a device named `b]x` takes over the name `b`
  (`Discover.BracketTakesOver`). `Discover.OwnDeviceLoads` has the exact condition.
- Between a committed upload and the deferred restart (`components/core/src/ota.c:165-171`)
  the device still takes OTA_BEGIN, which erases the image it is set to boot
  (`OtaRuns.CommittedImageIsIntact`).
- A name that `name_read` gives up on leaves part of it in the buffer; `Names.Result`
  says which part. For the SRV target the code goes on with that buffer, and so does the
  model; if no terminator was written, it takes the whole buffer.

## Model

| member | source | states |
|---|---|---|
| Tokenizer.Unescape | components/core/src/cmd.c:85-89 | inside quotes, the shifting copy leaves the token with its escapes resolved, never overtakes the reading position and leaves unread text alone |
| Tokenizer.ReadQuoted | components/core/src/cmd.c:82-91 | the string at the start of a quoted argument is the token that the value-level reader finds, and reading goes on behind it |
| Tokenizer.ReadPlain | components/core/src/cmd.c:93-95 | the same for an unquoted argument |
| Tokenizer.Tokenize | components/core/src/cmd.c:73-99 | the pointers returned point, after all in-place writes, to the tokens of the original text, at most `max_argv`, and nothing behind the text changes; `TokenText` says by bytes which tokens these are |
| Quoting.QuotingRoundTrip | components/core/src/cmd.c:70-99 | arguments that are quoted, escaped and joined come back as themselves, as many as there is room for |
| Quoting.TokenizeQuoted | components/core/src/cmd.c:70-99 | the same through the in-place tokeniser: its pointers point to the arguments |
| Quoting.TokenBudget | components/core/src/cmd.c:73-99 | tokens and the separators between them never take more than the text; if they take all of it, every token is free of spaces and does not start with a quote |
| Quoting.UnquotedRoundTrip | tools/esp-ctl/src/esp-ctl.c:558-569 | arguments joined by single spaces, as `send` joins them, come back as themselves if and only if each is non-empty, without space and without a leading quote |
| TokenText.QuotedTextIsRead | components/core/src/cmd.c:82-91 | an argument is read back from between quotes when each quote in it stands behind a backslash, a backslash may too, and every other byte stands for itself: before an ordinary byte a backslash is kept |
| TokenText.ReadingGoesOn | components/core/src/cmd.c:82-91 | the same whatever follows the closing quote: the next token is looked for right behind it |
| TokenText.VerbatimIsRead | components/core/src/cmd.c:82-91 | a quoted text without quotes, in which no backslash is last or followed by another, is one token, byte for byte |
| TokenText.OpenQuoteIsRead | components/core/src/cmd.c:82-91 | a quote that is never closed takes the rest of the line |
| TokenText.WhiteSpaceSplits | components/core/src/cmd.c:78-96 | words with runs of the six white-space bytes between, in front and behind are the tokens, up to the limit |
| Wire.Be64RoundTrip | components/core/src/proto.c:13-24 | writing and reading 64-bit big-endian fields are inverse both ways |
| Wire.NonceInjective | components/core/src/proto.c:19-24 | two nonces are equal if and only if direction and counter are |
| Wire.HeaderFields | components/core/src/proto.c:69-145 | a header gives back length, type, flags and counter, and is exactly the first twelve bytes |
| Wire.SealedIsWellFormed | components/core/src/proto.c:69-145 | a frame sealed for the peer passes all of the receiver's checks and names the slot it was sealed under |
| Wire.SealOpenRoundTrip | components/core/src/proto.c:69-145 | opening what a mirrored session has sealed gives the plaintext and advances the counter |
| WireBytes.NonceByBytes | components/core/src/proto.c:19-24 | a nonce is the direction byte, the counter in eight bytes with the most significant first, and three zeros, and nothing else |
| WireBytes.SentFrameByBytes | components/core/src/proto.c:69-106 | a frame is sent exactly when it fits; its first two bytes are its length, then 1 and 0, then the counter; behind them stands what the cipher makes of the plaintext under the nonce of direction and counter with those twelve bytes as associated data |
| WireBytes.TakenFrameByBytes | components/core/src/proto.c:108-145 | a frame is taken exactly when length, type, flags and counter stand in their bytes and the rest was sealed under the nonce expected; then the plaintext is what was sealed and the counter goes on |
| Fields.PutBe64 | components/core/src/proto.c:19-24 | the eight bytes are the big-endian form of the value, all others stay |
| Fields.GetBe64 | components/core/src/proto.c:13-18 | the value read is that of the eight bytes |
| Fields.BuildNonce | components/core/src/proto.c:19-24 | the array holds the nonce of direction and counter |
| Fields.PutHeader | components/core/src/proto.c:69-106 | the first twelve bytes are the header of the frame |
| Proto.ProtoSession.Init | components/core/src/proto.c:33-41 | a fresh server session: the key, counters at zero, the server's directions |
| Proto.ProtoSession.Wipe | components/core/src/proto.c:43-47 | nothing of the session is left |
| Proto.ProtoSession.FrameEncrypt | components/core/src/proto.c:69-106 | on success the buffer holds the frame sealed under the next counter, which is recorded and counted; on failure session and memory are unchanged; it fails only for the stated reasons |
| Proto.ProtoSession.FrameDecrypt | components/core/src/proto.c:108-145 | a frame is accepted exactly if length, type, flags, counter and tag fit; the plaintext is what was sealed; a rejected frame leaves the session unchanged and no write passes the capacity |
| ClientProto.ClientSession.Init | tools/esp-ctl/src/proto.c:33-40 | a fresh client session with the client's directions |
| ClientProto.ClientSession.Wipe | tools/esp-ctl/src/proto.c:42-48 | nothing of the session is left |
| ClientProto.ClientSession.FrameEncrypt | tools/esp-ctl/src/proto.c:50-73 | as on the server: sealed under the next counter, or nothing changes |
| ClientProto.ClientSession.FrameDecrypt | tools/esp-ctl/src/proto.c:75-98 | as on the server: accepted exactly if all checks pass, or nothing changes |
| SecureChannel.SealIsFaithful | components/core/src/proto.c:69-106 | sealing one more line keeps the memory faithful to what both sides have sent |
| SecureChannel.AcceptedIsNext | components/core/src/proto.c:108-145 | whatever frame is accepted carries the next line in the order sent |
| SecureChannel.StepKeeps | docs/protocol.md:104-115 | every send and every delivery of any bytes keeps the channel's invariant |
| SecureChannel.DeliveredIsPrefixOfSent | docs/protocol.md:104-115 | in every run over an adversarial network, each side has accepted a prefix of what the other has sealed: nothing forged, replayed, reordered or skipped |
| SecureChannel.OldestOutstandingIsAccepted | docs/protocol.md:104-115 | in every run, the frame of the oldest line not yet accepted is accepted when it is delivered |
| SecureChannel.NoncesAreNeverReused | docs/protocol.md:92-98 | in every run, no two seals of either side share a nonce |
| Conversation.AllIsRead | docs/protocol.md:104-115 | any messages, in any order, have a run in which each side reads all that the other said |
| Sockets.ReadFull | components/core/src/net.c:216-229 | exactly `n` bytes are taken from the stream, or the end or an error is reported; interrupted and short reads are made up for |
| Sockets.WriteFull | components/core/src/net.c:231-243 | success appends all of the data, failure a proper prefix |
| Sockets.RecvLine | components/core/src/net.c:294-309 | the line returned is the next line of the stream without its end, and the stream goes on behind it |
| Sockets.NextLineReads | components/core/src/net.c:294-309 | a line that fits is read back as sent, less one trailing CR |
| Framing.RecvFrame | components/core/src/net.c:278-291 | the frame returned is the one the stream starts with, its length checked before it is read |
| Framing.DeframeInverts | components/core/src/net.c:278-291 | cutting a stream of whole frames gives back these frames and then what the rest gives |
| Framing.PartialFrameIsNone | components/core/src/net.c:278-291 | a proper prefix of a frame is no frame |
| Framing.ReceiveIgnoresOwn | components/core/src/net.c:246-269 | what a side seals itself never changes what it will accept |
| Framing.ReceiveInOrder | components/core/src/proto.c:108-145 | frames sealed in order under consecutive counters are accepted, all of them, and give back the lines |
| Producers.StepKeeps | components/core/src/net.c:246-269 | every atomic step of every sending task keeps lock, counter, buffer and output consistent |
| Producers.SocketHoldsWholeFrames | components/core/src/net.c:246-269 | in every interleaving the output is whole frames, sealed under counters 0, 1, 2 and so on, and a proper prefix of at most one more |
| Producers.ClientReadsWholeLines | components/core/src/net.c:502-511 | in every interleaving a client reads from the output exactly the lines of the frames written in full, in order |
| Dispatch.Shell.Register | components/core/src/cmd.c:35-50 | exact condition of success; the name then finds its handler, and every other lookup is unchanged |
| Dispatch.Shell.CBegin | components/core/src/ota.c:138-147 | the OTA state moves as one `OTA_BEGIN` with these arguments does, and succeeds when arguments, size and drivers allow; payload and code say what happened, 2 for bad arguments and 4 for a failure behind them |
| Dispatch.Shell.CData | components/core/src/ota.c:149-158 | the same for `OTA_DATA`; a chunk is acknowledged by the bytes received and the total, in that order |
| Dispatch.Shell.CEnd | components/core/src/ota.c:160-173 | the same for `OTA_END`; a failure has code 4 |
| Dispatch.Shell.RunHandler | components/core/src/cmd.c:119-131 | the handler found is the one that acts on the OTA state; a registered handler's own verdict, payload and code are the outcome, and those of ota.c report what `Says` spells out |
| Dispatch.Shell.Execute | components/core/src/cmd.c:107-135 | the reply is that of the tokens and the handler's outcome, which is what the handler reported, and the device's state moves as dispatching them says |
| Dispatch.Shell.Dispatch | components/core/src/cmd.c:101-136 | too small a buffer does nothing and gives -1; otherwise the tokens of the line are dispatched, the buffer holds the reply to what the handler reported as far as it fits, and the result is its full length |
| Dispatch.RepliesAreNotEvents | components/core/src/cmd.c:101-136 | however it is cut, a reply starts with OK or ERR, never like an event, and with OK exactly when the line was blank or its handler succeeded |
| Dispatch.HandleLine | components/core/src/net.c:413-419 | a decrypted line is terminated, tokenised, dispatched and answered by the cut reply to what the handler reported, with no condition on its bytes |
| ReplyText.SuccessByBytes | components/core/src/cmd.c:121-124 | byte by byte: `OK`, and behind it a space and the payload if there is any |
| ReplyText.FailureByBytes | components/core/src/cmd.c:125-128 | byte by byte: `ERR `, a number that atoi reads as the code, 9 in place of 0, a space, and the payload or `handler failed` |
| ReplyText.OtherRepliesByBytes | components/core/src/cmd.c:107-135 | a blank line is answered `OK`, a name that is not registered with code 1 and the name |
| Numbers.NumberByBytes | components/core/src/ota.c:141 | the 32-bit strtoul and atoi on any blanks, sign and digits: too large a number counts as the largest, a minus negates modulo 2^32 |
| Dialogue.StepKeeps | components/core/src/net.c:399-420 | every step of firmware tasks, client and network keeps the pairing of commands and replies |
| Dialogue.RepliesMatchCommands | tools/esp-ctl/src/esp-ctl.c:325-338 | in every run, the `k`-th line the client takes for a reply is what the dispatcher answers to its `k`-th command, however events are interleaved, and it has at most one command outstanding |
| Events.FourBytesDecide | tools/esp-ctl/src/esp-ctl.c:325-338 | a line is passed over exactly when its first four bytes are `EVT `; all other lines stay, in order |
| Exchanges.AnySessionIsPossible | components/core/src/net.c:399-420 | for any commands, outcomes and events that start with `EVT `, sent by any other tasks before each reply, there is a run in which the client reads every line and returns the reply to each command |
| Turns.ReplyIsNoEvent | components/core/src/net.c:413-419 | no command line, of any bytes, has a reply that the client would take for an event |
| Turns.TurnKeeps | components/core/src/net.c:404-420 | a turn of the command loop extends history, log and output by one command and its reply |
| Turns.EventKeeps | components/core/src/net.c:502-511 | a line of another task extends log and output and leaves the history alone |
| Turns.LogIsRead | tools/esp-ctl/src/esp-ctl.c:132-145 | a client that cuts and opens the frames logged reads exactly the lines logged, in order |
| Server.Connection.SendFrame | components/core/src/net.c:246-269 | nothing happens, or the line is sealed and at least part of its frame is written, all of it on success; only an authenticated session sends |
| Server.Connection.ReceiveLine | components/core/src/net.c:404-412 | the line is the first of the commands the stream still carries, the others stay |
| Server.Connection.SendEvent | components/core/src/net.c:271-275 | any line that starts with the four bytes `EVT ` may be sent, and changes nothing of what the loop will receive |
| Server.Connection.AnswerLine | components/core/src/net.c:413-419 | the line is dispatched and the reply to what its handler reported is posted; the commands still to come stay the same |
| Server.Connection.CommandLoop | components/core/src/net.c:399-420 | the lines answered are the first of those the stream carries, all of them if nothing fails; everything sealed meanwhile has consecutive counters; what is not an event among it is the replies, one for each line, of which only the last may be missing; as long as no write fails, the output is exactly these frames |
| Server.Connection.Open | components/core/src/net.c:381-397 | a session comes up only for a client that was admitted, under the key of that admission |
| Server.Connection.RunSession | components/core/src/net.c:379-429 | over a whole connection, commands run only after admission and are those of the admitted client's frames; the output is the transcript of the handshake and then, as long as no write fails, the frames of events and replies, one reply for each command; afterwards session and upload are gone |
| Server.Connection.Teardown | components/core/src/net.c:422-428 | no key, no authentication and no upload survive, and the boot image stays |
| Server.HonestClientIsServed | components/core/src/net.c:379-429 | a client that answers the first challenge and seals its commands in order has exactly these commands run, for every list of commands |
| Ota.Receiver.AbortLocked | components/core/src/ota.c:52-58 | handle and hash are released once and the boot image stays |
| Ota.Receiver.Begin | components/core/src/ota.c:60-77 | replaces any upload in progress by an empty one of the announced size and digest, or leaves none; the choice of the partition to boot stays, but the update partition is erased even if it is that one |
| Ota.Receiver.Data | components/core/src/ota.c:79-93 | appends the chunk if there is an upload with room, or reports failure, with the state left in each case |
| Ota.Receiver.End | components/core/src/ota.c:95-122 | switches the boot image to the data received exactly when size and digest match and no driver fails; the upload is over in any case |
| Ota.Receiver.Abort | components/core/src/ota.c:124-127 | the upload is gone, everything else stays |
| OtaRuns.UploadIsAnnounced | components/core/src/ota.c:52-127 | in every run, the upload in progress is the latest announced one, with all chunks accepted since |
| OtaRuns.CommittedImageIsTheUpload | components/core/src/ota.c:95-122 | in every run, a successful end commits exactly the accepted chunks, which have the announced size and digest |
| OtaRuns.OnlySuccessfulEndSetsBoot | components/core/src/ota.c:52-127 | in every run without a successful end the choice of the partition to boot stays |
| OtaRuns.CommittedImageStays | components/core/src/ota.c:52-127 | in every run without a begin a committed image stays what it is |
| OtaRuns.CommittedImageIsIntact | components/core/src/ota.c:60-77 | between a commit and the restart, the image to be booted is intact at all times if and only if no upload begins |
| OtaRuns.AnySession | components/core/src/ota.c:52-127 | any calls on the receiver make such a run, and after the final abort every handle and hash that was acquired has been released once |
| UploadLoop.BeginLineIsRead | tools/esp-ctl/src/esp-ctl.c:415-420 | the device reads from the client's line the size and the digest it announced |
| UploadLoop.DataLineIsRead | tools/esp-ctl/src/esp-ctl.c:425-439 | the device reads from the client's line the hex form of the chunk |
| UploadLoop.BuildDataLine | tools/esp-ctl/src/esp-ctl.c:433-439 | the line built byte by byte is the command with the chunk in hex, and it fits |
| UploadLoop.SendChunk | tools/esp-ctl/src/esp-ctl.c:431-443 | the device has received the next piece of the file, or nothing, and the result says whether the reply came |
| UploadLoop.SendFile | tools/esp-ctl/src/esp-ctl.c:425-449 | a zero code means that the device holds the whole file; the boot image stays |
| UploadLoop.Upload | tools/esp-ctl/src/esp-ctl.c:388-454 | the device will boot the file if OTA_END was carried out, and else the same partition as before; the code is 0 exactly if its reply also arrived, and 3 if it got lost; over a steady link a failing code never switches; with drivers that do not fail every file that fits is uploaded |
| UploadLoop.LostReplyCommits | tools/esp-ctl/src/esp-ctl.c:451-453 | a failing exit code with a switched boot image: the reply to OTA_END is lost |
| Hex.EncodeDecode | components/core/src/hex.c:15-43 | decoding the digits of any bytes gives these bytes |
| Hex.DecodeEncode | components/core/src/hex.c:15-43 | encoding what was decoded gives the digits back if and only if they are lower case |
| Hex.HexEncode | components/core/src/hex.c:15-22 | the buffer holds the digits and a NUL, and nothing behind changes |
| Hex.HexToBytes | components/core/src/hex.c:24-37 | succeeds exactly for an even number of digits that fits, and then gives their bytes |
| Hex.HexDecode | components/core/src/hex.c:39-43 | succeeds exactly for the expected number of digits |
| HexText.DigitsByPosition | components/core/src/hex.c:7-13 | a byte is worth its position in `0123456789abcdef` or `0123456789ABCDEF`, and -1 if it is in neither |
| HexText.EncodedByPosition | components/core/src/hex.c:15-22 | each byte becomes the lower-case digits of its high and its low half |
| HexText.DecodedByPosition | components/core/src/hex.c:24-37 | two digits of either case make the byte, the high half first |
| Decimal.PrintedIsRead | components/core/src/ota.c:141 | a printed number is read back, whatever non-digit follows |
| Auth.SameBytes | components/core/src/auth.c:104-107 | the comparison without early exit says whether the strings are equal |
| Auth.Verify | components/core/src/auth.c:74-114 | accepts only the MAC, under a token that is set, of the 80 bytes that hold label, server nonce and client nonce at their places, and accepts it unless the library fails |
| Auth.DeriveSessionKey | components/core/src/auth.c:116-143 | a key is derived only from a token that is set, and is that of the 64-byte salt of server nonce and client nonce |
| AuthLines.HelloRoundTrip | components/core/src/net.c:331-337 | the client reads the nonce that the server's line announces |
| AuthLines.HelloIsRead | tools/esp-ctl/src/esp-ctl.c:154-165 | a HELLO text with other text around the nonce is read as that nonce if and only if nothing follows it and no `nonce=` comes first; otherwise it is refused |
| Claims.GreetingByBytes | tools/esp-ctl/src/esp-ctl.c:154-165 | a line is read as greeting with a nonce if and only if it starts with `espshell/1 HELLO ` and its first `nonce=` is followed by the 64 hex digits of that nonce and nothing else |
| Claims.LinesByBytes | components/core/src/net.c:336 | byte by byte, the HELLO and the AUTH line as they are printed |
| Claims.OnlySuccessIsWelcome | tools/esp-ctl/src/esp-ctl.c:198-203 | the client goes on after the server's verdict, and after neither of its two failure lines |
| Handshake.HelloIsGreeted | tools/esp-ctl/src/esp-ctl.c:148-165 | the same for the line as received: at most one CR may follow the nonce, and the line must fit the buffer |
| Handshake.LongHelloIsRefused | tools/esp-ctl/src/esp-ctl.c:150-153 | a HELLO with an unknown key of 500 bytes that the client refuses |
| AuthLines.UnknownKeysAreRefused | docs/protocol.md:36-37 | two HELLO lines with an unknown key that the client refuses |
| AuthLines.AuthRoundTrip | components/core/src/net.c:339-351 | the server reads the nonce and the proof that the client's line carries |
| Handshake.AdmittedHasProved | components/core/src/net.c:330-369 | whoever is admitted on attempt `k` sent, as line `k`, the proof for the nonce of that attempt, and at most three attempts are made |
| Binding.ProofHoldsNonce | components/core/src/auth.c:91-107 | a line that proves the token carries the MAC of 80 bytes: the label, the very nonce of the server, the nonce of the client |
| Binding.ReplayNeedsCollision | components/core/src/net.c:325-353 | a line that counts as a proof against two different server nonces shows two different messages with the same MAC |
| Binding.AdmittedHoldsNonce | components/core/src/net.c:330-353 | whoever is admitted on attempt `k` sent, as line `k`, the MAC of a message that holds the `k`-th nonce drawn |
| Binding.KeysAreBound | components/core/src/auth.c:122-137 | two handshakes share a key only if both nonces agree or HKDF gives the same key for two different salts |
| Claims.ClaimByBytes | components/core/src/net.c:339-351 | the claim of an AUTH line of any fields with spaces around them: the first must be `AUTH`, of the others the last `cnonce=` and the last `hmac=` count, each with 64 hex digits |
| Handshake.Attempt | components/core/src/net.c:330-353 | one nonce, one challenge, one line judged |
| Handshake.ServerHandshake | components/core/src/net.c:321-374 | the output is at most three challenges, each under a nonce of its own and followed by its refusal or verdict; a key is loaded only for a proof of the nonce of that attempt, and is the key of these two nonces; without failures it decides as `Admit` |
| Handshake.ClientHandshake | tools/esp-ctl/src/esp-ctl.c:148-220 | on success the client has answered the server's nonce, has seen its OK and holds the key of the two nonces; on failure its session is unchanged |
| Handshake.HandshakeAgreement | docs/protocol.md:26-68 | each side reads what the other writes, the honest client is admitted, and both end up with the same key, mirrored directions and counters at zero |
| Client.SendCmd | tools/esp-ctl/src/esp-ctl.c:121-130 | nothing happens, or the command is sealed under the next counter and its frame written, all of it on success; what the client will read stays the same |
| Client.RecvReply | tools/esp-ctl/src/esp-ctl.c:132-145 | the line is the first of those still to be read |
| Client.RecvCmdReply | tools/esp-ctl/src/esp-ctl.c:325-338 | the reply is the first line still to be read that is not an event: its first four bytes are not `EVT ` |
| Client.Exchange | tools/esp-ctl/src/esp-ctl.c:340-346 | the command is sealed and its frame written, and the reply is the next non-event, none of them skipped |
| Client.ExitCodeIsVerdict | tools/esp-ctl/src/esp-ctl.c:311-323 | the exit code for a reply is 0 exactly when the line was blank or the device's handler succeeded, however the reply was cut, and 4 otherwise |
| ReplyText.ExitCodeByBytes | tools/esp-ctl/src/esp-ctl.c:311-323 | the exit code is 3 without a reply, 4 for one that starts with the bytes `ERR `, otherwise 0 |
| ShellInput.TextsAreTyped | tools/esp-ctl/src/esp-ctl.c:375-379 | of the lines typed, line ends of any number and kind are cut off, blank lines are skipped, `exit` and `quit` end the shell whatever follows, and every other text is sent as it stands |
| Client.DoOneShot | tools/esp-ctl/src/esp-ctl.c:340-347 | the command is sealed and its frame written; the code is that of the first non-event that arrives, and 3 exactly if none does, unless something fails |
| Client.DoShell | tools/esp-ctl/src/esp-ctl.c:369-385 | what is written is the frames of the first commands typed, sealed under consecutive counters, and at most a part of one more; the replies are the first non-events that arrive, one for each; unless something fails, the code is 0 exactly if there are enough of them |
| EndToEnd.AskedIsAnswered | tools/esp-ctl/src/esp-ctl.c:369-385 | a client that has sent as the shell does and a device that has answered as the command loop does, whatever part of each stream has arrived: the device has run the first of the commands, and the `k`-th reply is the answer to the `k`-th command |
| Names.PutLabel | tools/esp-ctl/src/discover.c:65-68 | one more label is written, with its dot, as far as the buffer goes |
| Names.NameRead | tools/esp-ctl/src/discover.c:46-72 | the buffer holds, byte for byte, what the labels reached write into it; the result is the end of the name in the packet or -1; the walk stays inside the packet and ends |
| Names.ResultIsString | tools/esp-ctl/src/discover.c:46-72 | a name that was read stands in the buffer as a terminated string, cut to its size |
| StoredNames.AcceptsExactlyStoredNames | tools/esp-ctl/src/discover.c:46-72 | expansion accepts labels if and only if the packet stores them within the limit on pointers |
| StoredNames.PlainNameRoundTrip | tools/esp-ctl/src/discover.c:46-72 | a name written without compression is read back, and reading goes on behind it |
| StoredNames.CompressedNameRoundTrip | tools/esp-ctl/src/discover.c:46-72 | a name that ends in a pointer to another one is read as both, and reading goes on behind the pointer |
| PacketBytes.PointerByBytes | tools/esp-ctl/src/discover.c:58-62 | the two bytes of a pointer: 192 and more in the first, and its other bits with the second are the offset |
| PacketBytes.PointerIsFollowed | tools/esp-ctl/src/discover.c:58-62 | a pointer leads to the name at its offset and ends two bytes on, unless it is the seventeenth |
| Responses.SkipQuestions | tools/esp-ctl/src/discover.c:92-98 | the offset behind all questions, or -1 |
| Responses.ReadTxt | tools/esp-ctl/src/discover.c:122-132 | the strings of a TXT record joined by spaces, cut to the buffer |
| Responses.LearnRecords | tools/esp-ctl/src/discover.c:100-137 | updating the device record by record gives the fold over the records |
| Responses.ParseResponse | tools/esp-ctl/src/discover.c:81-148 | succeeds exactly if the value-level parser does, and then the device holds its result |
| PacketBytes.RecordByBytes | tools/esp-ctl/src/discover.c:104-108 | the ten bytes in front of the data: the type, 1, 12, 16 or 33, class, time to live and length |
| PacketBytes.OthersTellNothing | tools/esp-ctl/src/discover.c:111-136 | records of other types or services, service records below seven bytes and addresses of another length change nothing |
| Packets.StringsAreRead | tools/esp-ctl/src/discover.c:122-132 | the strings of a text record are read in order, up to its end, an empty one or one that overruns it |
| Bytes.ContainsFindsEveryPlace | tools/esp-ctl/src/discover.c:111-122 | the substring test finds an occurrence if and only if there is one anywhere |
| Records.QuestionsAreSkipped | tools/esp-ctl/src/discover.c:92-98 | echoed questions, whatever their names, are passed over |
| Records.ParseFollowsRecords | tools/esp-ctl/src/discover.c:81-148 | for every packet that stores these questions and records, with names compressed in any way, parsing gives what a plain fold over the records says |
| Packets.PacketRoundTrip | tools/esp-ctl/src/discover.c:81-148 | the packet written for any questions and records parses to what the fold over the records says, for any split into the three sections |
| Devices.InstanceIsFirstLabel | tools/esp-ctl/src/discover.c:111-117 | if the last pointer record of the service leads to a name whose first label has no dot, no NUL and at most 63 bytes, the device's name is that label |
| Devices.NamelessIsEspshell | tools/esp-ctl/src/discover.c:145 | a pointer record that leads to the root makes the device `espshell` |
| Devices.AddressIsShown | tools/esp-ctl/src/discover.c:133-144 | an address is shown as the decimal digits of its four bytes, in order, with dots between them |
| Devices.AnswerIsFound | tools/esp-ctl/src/discover.c:100-147 | the four records of an answer, with any label, host, port, text and address, are found as that device: the address of the record if it is of the service's host, else the packet's, and port 9000 in place of 0 |
| Profiles.Fgets | tools/esp-ctl/src/profile.c:81-83 | the buffer holds the next line or the next piece of a long one |
| Profiles.RstripInPlace | tools/esp-ctl/src/profile.c:42-46 | the string left in the buffer is the stripped string |
| Profiles.Reader.Feed | tools/esp-ctl/src/profile.c:84-108 | one line in the buffer changes the profile as that line says |
| Profiles.Reader.Load | tools/esp-ctl/src/profile.c:59-114 | the loop over the file gives what reading its lines one by one gives |
| Profiles.SomeNamesNeverLoad | tools/esp-ctl/src/profile.c:83-95 | no file at all defines a profile whose name holds a `]` or a newline |
| Editing.HandWrittenLoads | tools/esp-ctl/src/profile.c:84-108 | a section written by hand, its values without quotes and no port named, loads host and token and port 9000 |
| Discover.Collect | tools/esp-ctl/src/discover.c:206-217 | the devices are the first of each name among the packets that parse, and no more than there is room for |
| Collecting.CollectedAreIntroduced | tools/esp-ctl/src/discover.c:206-217 | the devices are, in order, what the first packets of their names describe; a packet that parses has its name in the list unless 16 are listed from packets before it |
| Discover.ParsedIsBounded | tools/esp-ctl/src/discover.c:81-148 | whatever the packet, a parsed device fits its buffers and has a printable address and a 16-bit port |
| Discover.SectionIsRead | tools/esp-ctl/src/discover.c:226-233 | the section printed for a device sets address, port and token for its name cut at `]`, and for no other name |
| Discover.LastHeadingLoads | tools/esp-ctl/src/discover.c:225-233 | in a file of printed sections, loading any name gives the address, port and token of the last device whose name, cut at `]`, is that name, and nothing if there is none |
| Editing.EditedFileLoads | tools/esp-ctl/src/discover.c:225-233 | the same while only some token lines are filled in and the others are still the printed comment: address and port of the last section with that heading, the last token filled in below such a heading, and nothing before there is one |
| Editing.PrintedFileLoadsNothing | tools/esp-ctl/src/discover.c:225-233 | as discovery prints it, the file loads under no name |
| Discover.OwnDeviceLoads | tools/esp-ctl/src/discover.c:225-233 | a printed name loads its own device if and only if it holds no `]` and no later name is the same up to a `]` |
| Discover.BracketTakesOver | tools/esp-ctl/src/discover.c:225-233 | two distinct devices, `b` and `b]x`: loading `b` gives the address and token of the other |
| Discover.DiscoveryRoundTrip | tools/esp-ctl/src/discover.c:152-235 | the same from whatever packets came in and for any name, if no printed field holds a newline |

## Left out

- The inside of ChaCha20-Poly1305, HMAC, HKDF, SHA-256 and constant-time behaviour; key import and wiping of memory beyond the session's value.
- WiFi, SoftAP, mDNS advertising, socket setup, the accept loop, its 10-second cool-down and the receive timeout.
- Teardown that overlaps a send in progress: the code takes no send lock there (`components/core/src/net.c:422-427`). The model tears down between sends.
- A write that fails in the middle of a frame while other tasks go on sending: `Producers` and `Dialogue` let sealing fail but not a write; `Server` covers failing writes, then without a claim on the output.
- OTA_ROLLBACK, the boot loader, the health check and the restart itself: `ota_rollback` sets the boot partition too (`components/core/src/ota.c:129-135`).
- Peripheral and built-in command handlers, NVS, the logger queue and BLE: easy members, and the model lets their handlers report anything.
- The client's log following (`do_logs`), options, colours, timestamps and the checks on the path and mode of the profile file.
- The length check on the line that `send` joins (`tools/esp-ctl/src/esp-ctl.c:559-568`): a line that is too long is not sent.
- strtok-like in-place cuts of the profile line (`strchr` and a NUL) are modelled on values; the trailing-space cut is modelled in place.
- Struct fields that hold strings are sequences of bytes; the host name buffer, which `name_read` fills, is an array. Null pointers are not modelled.
- SecureChannel.DeliveredIsPrefixOfSent: for runs of fewer than 2^64 frames each way; behind that the counters wrap. The same holds for the other claims over runs.
- UploadLoop.Upload: each line reaches the dispatcher directly or gets lost with its reply; the frames under it are those of `Client` and `Server`, not composed with it.
- Discover.DiscoveryRoundTrip: for printed fields without newlines; one in a host name or a TXT text may or may not spoil the file, depending on the text behind it.
- Handshake.HelloIsGreeted: for lines without NUL bytes, at which C cuts them.
