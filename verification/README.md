# igo, modelled and verified in Dafny

igo is a MySQL proxy: it speaks the MySQL Client/Server Protocol to its clients as a server and to its backends as a
client, keeps a pool of backend connections, relays result sets packet by packet, and writes rotating log files. This
project models the parts of it in which state, arithmetic or bytes in memory are easy to get wrong, and proves what
they keep and what they lose.

`dafny verify dfyconfig.toml` checks the whole project.

## The modules

**The connection pool.** `PoolProtocol` is the pool as a state machine: one `opener` goroutine, any number of callers of
`getConn` and `putConn`, the mutex and the two buffered channels, cut into steps between which any other goroutine may
run. Its invariant is `numOpen + requests in openCh + the one being dialled + sends left <= 2*maxOpen + 1`, which is the
capacity of the two channels plus the connection in the opener's hand. From it follow deadlock freedom although the
mutex is held over blocking sends, a bound on how long the mutex is held, and the exact condition on `maxIdle` under
which `Open` returns. `MysqlDB` is the same pool as code, a class with the source's fields; every method is proved to
perform a run of the state machine, with the opener interleaved at every point where it can run.

**The wire.** `Protocol` has the packets as the MySQL Client/Server Protocol lays them out, byte by byte, taken from
the protocol and not from the code; what the code writes and reads is measured against it. `NetBuffer` is the read
buffer over a connection whose `Read` returns as few or as many bytes as it likes; compaction, growth and refill
happen in place in an array. `Framing` says on byte sequences what a packet looks like on the wire and what the reader
makes of a stream (`Arithmetic` has the division facts), and `PacketConn` is `readPacket`/`writePacket` as code, with
each later header written over four bytes already sent. `Client` and `mysqlConn` have this code twice; one class
stands for both. `LengthEncoded` and `Messages` hold length-encoded integers, OK packets and error packets.
`Handshake` has both ends of the connection phase. `ResultSet` and `Relay` are the way of a query: what is taken off
the backend's stream and what the client gets, first on byte sequences, then as code over slices of the buffer's
memory that the next refill may overwrite. The buffer keeps a log of its refills, so that it can be said of each slice
whether one has reached it.

**Values.** `Escape` (string escaping into a reserved buffer, against a lexer of MySQL string literals), `Decimal`
(uint64 to decimal and back, with the 64-bit wrap of Go's `int`), `DateTime` (binary dates to fixed-width text),
`Password` (the hash and generator from before MySQL 4.1 with uint32 wrap-around written out, and the 4.1 method over
any 20-byte hash). The repository has these functions twice, in `mysql/utils.go` and `server/utils.go`; they are
modelled once.

**Log rotation.** `Rotation` is `FileLogWriter` over a map from file names to contents, with failing renames, opens and
stats, and restarts of the program.

Integers are unbounded unless a width is written out. Memory that Go slices can reach behind a packet is part of the
model where the code looks at it (`Messages.ReadOk`, `Handshake.ReadGreeting`).

## What the code does and its names or comments do not say

- `maxOpen` bounds the open connections in no configuration; up to `2*maxOpen + 1` can be open (`PoolProtocol.MostOpen`).
- `Open` can hang for ever exactly when `maxIdle > 2*maxOpen + 1` (`PoolProtocol.StartupHangs`).
- A payload whose length is a multiple of the frame size, 0 included, is written with an empty last frame, which the
  reader rejects (`Framing.FramingRoundTrip`).
- The slices of a result set are views of the read buffer. `readNext` documents that they are valid until the next read;
  `Query` keeps them over many reads. They survive a refill exactly under `NetBuffer.OutOfReach`, and where they do not
  the client is sent other bytes than the backend sent (`Relay.RefillCorrupts`).
- `writeResultPackets` goes on after a packet that is too long and after a failed write, and returns only the last
  packet's error (`Relay.WriteResultPackets`, `ResultSet.RelayTransparent`).
- A client's empty frame is no error to `Client.readPacket` and makes the login reader and `dispatch` panic
  (`Handshake.ReadHandshakeResponse`, `Relay.ReadCommand`).
- Without backslash escapes, double quotes do not protect a value that has a quote of either kind
  (`Escape.ScanEscaped`).
- `handleOkPacket` takes the status from the memory behind a packet written without protocol 4.1
  (`Messages.OkRoundTrip`).
- A year of 25600 or more, or 2560000 microseconds or more, prints as another date (`DateTime.FormatReadsBack`).
- A password of nothing but blanks scrambles differently from the empty one (`Password.DeletingBlanks`).
- After a rotation has renamed the log file and then failed to open a new one, nothing is written until the next start,
  and no error is reported (`Rotation.FailedReopeningLosesTheRest`).

## Model

| member | source | states |
|---|---|---|
| PoolProtocol.InvStep | server/mysql_db.go:121-188 | each step of opener, getConn or putConn keeps load bound, conservation, exclusive ownership and the facts each half-done putConn rests on |
| PoolProtocol.ReachableIsSafe | server/mysql_db.go:46-53 | over every run from Open, under every interleaving and any dial failures: open + queued + dialling + still to send is at most 2*maxOpen+1, the counter equals the connections free, out and held, and none is in two places |
| PoolProtocol.OccurrencesStep | server/mysql_db.go:121-188 | only a successful dial creates a connection and only a close by putConn removes one; every other step conserves it |
| PoolProtocol.MostOpen | server/mysql_db.go:121-188 | in every admissible configuration, some run from Open has at least k connections open iff k <= 2*maxOpen+1; so the load bound is exact and maxOpen bounds the open connections in no configuration |
| PoolProtocol.NoDeadlock | server/mysql_db.go:125-143 | in every invariant state the mutex holder can step or, if it waits to send, openCh has room or the opener can step |
| PoolProtocol.RankDecreases | server/mysql_db.go:125-188 | every step taken while the mutex is held lowers 4*sends left + 3*queued + opener phase (+ what is left of select and putConn) |
| PoolProtocol.AlwaysReleased | server/mysql_db.go:125-188 | a run that keeps the mutex occupied is never longer than that rank and is never stuck, so the mutex is always released |
| PoolProtocol.StartupHangs | server/mysql_db.go:46-56 | some run of Open gets stuck if and only if maxIdle > 2*maxOpen+1 |
| PoolProtocol.CloseKeepsFloor | server/mysql_db.go:167-188 | every close by putConn leaves at least min(maxIdle, maxOpen) open, and at least maxOpen when the free list was full |
| PoolProtocol.ExclusiveUse | server/mysql_db.go:145-188 | from any reachable state, a connection a caller has is handed to nobody else in any run until its putConn |
| MysqlDB.MysqlDB.OpenerStep | server/mysql_db.go:125-134 | one step on the fields adds one opener action to the trace, does to the fields what the protocol says, and lowers the rank; or the opener is blocked and nothing changes |
| MysqlDB.MysqlDB.SendAll | server/mysql_db.go:136-143 | the blocking send loop ends whatever the opener does in between; its own steps are exactly the sends that were left |
| MysqlDB.MysqlDB.Open | server/mysql_db.go:35-57 | for every admissible configuration start-up ends, after exactly maxIdle sends of its own, in an unlocked, valid pool |
| MysqlDB.MysqlDB.GetConn | server/mysql_db.go:136-165 | a caller gets a connection no caller has, the one that was free longest, or nothing; its own steps in the trace are one request for each connection missing to maxOpen, some ticks, and then the receive, or the default case with the free list empty, or the tenth tick, and only the last two give nothing |
| MysqlDB.MysqlDB.PutConn | server/mysql_db.go:167-189 | its own steps are the check and then a return to the end of the free list, a close of an expired connection (certain if more than maxIdle are open), or a close because the list was full; both closes keep the floor min(maxIdle, maxOpen) |
| NetBuffer.Buffer.Fill | server/buffer.go:42-93 | compaction, growth and refill keep the pending stream; on an error the buffered bytes stay and the new ones are lost; the array that fill found holds exactly what the new log entry says, also when the buffer has grown and reads elsewhere |
| NetBuffer.Buffer.ReadNext | server/buffer.go:95-108 | a successful call returns exactly the next bytes of the stream, and a failing one hands out nothing; slices handed out before keep their bytes where the refills spare them |
| NetBuffer.Buffer.ReadPieces | server/buffer.go:42-108 | over any run of reads and any fragmentation the pieces are consecutive stream bytes; on a reliable network all reads succeed iff the stream is long enough |
| NetBuffer.HeldSliceSurvives | server/buffer.go:42-95 | over any refill, growing or not, a slice handed out earlier keeps its bytes for whatever the network delivers, iff no new byte lands on it and the moved bytes are equal where they do |
| NetBuffer.Buffer.TakeBuffer | server/buffer.go:112-130 | a write buffer of the requested size exists iff no unread byte is buffered |
| Framing.FramingRoundTrip | server/packets.go:87-134 | for every payload, sequence number, following stream and number of frames: the reader recovers payload, position and sequence number, and fails exactly for multiples of the frame size |
| Framing.ReaderAcceptsOnlyFrames | server/packets.go:32-84 | conversely, whatever the reader accepts is what the writer would have sent for it |
| Framing.SeqAfterCounts | server/packets.go:87-134 | the wrapping sequence number after a payload counts its frames modulo 256 |
| Framing.FramesAreProtocol | server/packets.go:87-134 | each frame on the wire is three bytes of length, the next sequence number, and its part of the payload |
| PacketConn.PacketConn.ReadHeader | server/packets.go:159-185 | length and sequence number are what the stream says, and the check that fails is the one the stream fails; the sequence number moves only past a good header |
| PacketConn.Verdicts | server/packets.go:44-61 | in terms of the header bytes: a frame is malformed iff its length is 0, out of sync (ahead or behind) iff its number differs, and broken iff the stream ends in it |
| PacketConn.PacketConn.ReadPacket | server/packets.go:157-209 | reassembly refines Framing.ReadPacket: same payload, same rest of the stream, same sequence number, same errors |
| PacketConn.PacketConn.ReadClientPacket | server/packets.go:32-84 | the Client half: as ReadPacket, but an empty frame comes back as nil data without an error |
| PacketConn.PacketConn.WritePacket | server/packets.go:87-134 | although later headers overwrite the caller's array, exactly the frames of the payload go out; a failure leaves whole frames and part of the next on the wire, whose sequence number stays; too long a payload sends nothing |
| LengthEncoded.IntegerRoundTrip | mysql/utils.go:603-616 | for every uint64 and any following bytes, decoding gives the number and exactly the bytes written |
| LengthEncoded.EncodingIsProtocol | mysql/utils.go:603-616 | the bytes written are those of the protocol, one to nine of them |
| LengthEncoded.NoEncoding | server/utils.go:564-593 | nothing and 0xfb read as NULL, 0xff as 255, and the source indexes out of range iff an encoding is cut |
| LengthEncoded.ListRoundTrip | server/utils.go:564-593 | the concatenated encodings of any list decode to the list, whatever follows |
| LengthEncoded.PrefixFree | mysql/utils.go:603-616 | one encoding is a prefix of another iff they encode the same number |
| Messages.OkRoundTrip | server/client.go:195-208 | an OK packet reads back, for all fields and whatever memory follows it, iff its writer speaks protocol 4.1 |
| Messages.OkIsProtocol | server/client.go:195-208 | the packet written is the OK packet of the protocol, or its two integers alone before 4.1 |
| Messages.OkOfBackend | server/packets.go:263-291 | every OK packet of protocol 4.1 reads as its three fields, whatever its tail and the memory behind it |
| Messages.ErrRoundTrip | server/client.go:209-231 | an error packet gives back number and message iff it carries an SQL state, or the message is non-empty and does not start with '#' |
| Messages.ErrIsProtocol | server/client.go:209-231 | the packet written is the error packet of the protocol, with the SQL state from 4.1 on |
| Messages.ErrOfBackend | server/mysql_conn.go:197-220 | every error packet of protocol 4.1 reads as its number and message |
| ResultSet.ColumnsReadBack | server/mysql_conn.go:130-149 | column packets and either EOF packet of the protocol behind them are consumed exactly if there are as many as announced, and refused otherwise |
| ResultSet.RowsReadBack | server/mysql_conn.go:151-165 | rows are consumed exactly up to the first packet that starts like an EOF |
| ResultSet.ResponseReadBack | server/mysql_conn.go:67-94 | Query takes exactly a result set of the protocol off the stream, whatever follows, and its sequence number ends as the sender's, if it announces as many columns as it defines; otherwise it refuses it |
| ResultSet.OkResponse | server/mysql_conn.go:169-176 | an OK packet of the protocol, whatever its fields, is taken off the stream as the whole response |
| ResultSet.ErrResponse | server/mysql_conn.go:178-179 | an error packet of the protocol is refused as a server error |
| ResultSet.OtherResponses | server/mysql_conn.go:181-192 | a request for a local file is refused, and so is a column count with anything behind it |
| ResultSet.RelayTransparent | server/packets.go:136-154 | of a result set of the protocol, what is sent on is byte for byte what the backend sent iff no packet exceeds what the client connection allows |
| ResultSet.SmallestResultSet | server/mysql_conn.go:67-94 | the conditions of the relay theorems can be met, at every frame size above 1 |
| ResultSet.RelayedAppend | server/packets.go:136-154 | one more packet adds its frames and moves the sequence number, or is dropped without trace when too long |
| Relay.ReadColumnPackets | server/mysql_conn.go:130-149 | the loop over slices refines ReadColumns, and each slice shows what was read unless a later refill has reached it |
| Relay.ReadRowPackets | server/mysql_conn.go:151-165 | likewise for rows |
| Relay.Query | server/mysql_conn.go:67-94 | the command goes out framed, the response consumed is the one ReadResponse describes, and each slice shows its packet unless a later refill has reached it; none has when the network held no more of the response after the first packet; on a reliable, idle connection it fails only for a response ReadResponse refuses |
| Relay.WriteResultPackets | server/packets.go:136-154 | on the wire is, packet by packet in order, the whole packet, some whole frames and part of one where a write failed, after which the broken frame's number is used again, or nothing where it is too long, and only the last result is returned; without failures these are the frames of the packets that fit; a busy buffer stops it before the first byte |
| Relay.HandleQuery | server/client.go:336-360 | nothing reaches the client unless both exchanges with the backend succeeded, which they do on a reliable, idle connection with good answers; then the backend has been sent USE with the database and the client's own query, and the client gets the frames of what the slices show, which is what the backend answered where refills have spared them |
| Relay.RelayResultSet | server/client.go:336-360 | for an OK packet and a result set of the protocol on reliable, idle connections the handler gets to the end, has sent both commands in full, the backend stream is left right behind the answer, and the client has received byte for byte what the backend sent if refills have spared the packets, which they have on a prompt network when the answer fits the buffer |
| Relay.RefillCorrupts | server/mysql_conn.go:67-94 | a result set of one column, delivered as the first packet and then the rest, for which a held slice changes and the client is sent wrong bytes |
| Relay.ReadCommand | server/client.go:233-246 | a command is the first packet of the stream; on an empty frame, and only then, dispatch panics on nil data |
| Handshake.GreetingRoundTrip | server/client.go:94-128 | the backend reader recovers the 20-byte salt and the low capability bits from the greeting, whatever lies behind the packet |
| Handshake.GreetingIsProtocol | server/client.go:94-128 | igo's greeting is the HandshakeV10 of the protocol with its version, connection id, salt, capabilities 0xa20f, character set 33 and status 2 |
| Handshake.GreetingOfBackend | server/mysql_conn.go:224-297 | from every HandshakeV10 of any backend, whatever lies behind it, the reader takes the 20-byte salt and the lower flags, or refuses it iff it lacks protocol 4.1 |
| Handshake.ShortGreeting | server/mysql_conn.go:224-297 | a greeting that ends with the lower flags gives the first 8 bytes of the salt |
| Handshake.NoGreeting | server/mysql_conn.go:224-240 | an error packet is reported iff the first byte is 0xff, an unsupported protocol iff it is below 10 |
| Handshake.DecodeGreeting | server/mysql_conn.go:224-297 | although append writes the salt's second half over the packet being read, the result is that of the packet as it came, and only those 12 bytes change |
| Handshake.ReadInitPacket | server/mysql_conn.go:224-297 | one packet is consumed, decoded in place, and the unread bytes behind it are untouched when the greeting is long enough |
| Handshake.WriteInitHandshake | server/client.go:94-128 | the greeting built by appends goes out as one payload of the documented layout |
| Handshake.LoginRoundTrip | server/client.go:130-194 | flags, user and database (the default when none is sent) come back from the login packet iff the names contain no NUL |
| Handshake.LoginIsProtocol | server/mysql_conn.go:308-421 | igo's login is the HandshakeResponse41 of the protocol with its flags, user, scrambled password, database and plugin name |
| Handshake.AnnouncedFlags | server/mysql_conn.go:310-345 | the flags announced are 0xa201, long flag iff the server has it, and connect-with-database iff there is one |
| Handshake.LoginOfClient | server/client.go:130-194 | from the HandshakeResponse41 of any client the server end takes flags, user and database, or its default without one |
| Handshake.LoginCutShort | server/client.go:130-194 | a login that announces a database and ends before it keeps the old one |
| Handshake.AuthReadBack | server/mysql_conn.go:401-405 | a reader of the authentication response finds the scrambled password in every login of the protocol |
| Handshake.PasswordArrives | server/mysql_conn.go:331-405 | a server that keeps hash(hash(password)) reads the token from igo's login and accepts it |
| Handshake.WriteAuthPacket | server/mysql_conn.go:308-421 | the login that goes out carries, readable for a server, an answer that a server keeping hash(hash(password)) accepts, and an empty one without a password |
| Handshake.SendLogin | server/mysql_conn.go:335-420 | writing at a moving position fills the computed length without a gap and sends exactly the login payload |
| Handshake.ReadHandshakeResponse | server/client.go:130-194 | one packet is consumed and parsed as ReadLogin says, panics included; an empty frame makes it panic on nil data |
| Handshake.LoginConversation | server/client.go:80-92 | greeting, login and OK cross the wire with sequence numbers 0, 1, 2, and each end ends up with what the other sent |
| Escape.ScanEscaped | mysql/utils.go:636-765 | a MySQL lexer over escaped text and its closing quote stops exactly there with the original value, iff the next byte is not that quote again and, between double quotes without backslash escapes, the value has no quote of either kind |
| Escape.EscapeHasLeftInverse | mysql/utils.go:636-765 | unescaping undoes both kinds of escaping, for all byte strings |
| Escape.EscapeTable | mysql/utils.go:640-675 | exactly NUL, line feed, carriage return, Ctrl-Z, both quotes and the backslash are escaped, each by its letter; without backslashes only the apostrophe, by doubling |
| Escape.EscapeIsBytewise | mysql/utils.go:636-765 | escaping a concatenation is concatenating the escapes |
| Escape.EscapedIsClean | mysql/utils.go:636-727 | text escaped with backslashes has no NUL, line end or Ctrl-Z, and no quote without a backslash before it |
| Escape.ReserveBuffer | mysql/utils.go:620-634 | room for the new bytes behind the unchanged old ones, in place iff the capacity suffices |
| Escape.EscapeBytes | mysql/utils.go:636-746 | prefix kept, escaped text appended, and no byte written outside the 2*len(v) behind the slice, even if the value lies in the same memory |
| Escape.EscapeString | mysql/utils.go:680-765 | the string twins append the same text as the byte versions |
| Decimal.Uint64ToString | mysql/utils.go:497-517 | the backward fill stays inside 20 bytes and leaves the canonical decimal of the number |
| Decimal.CanonicalIsUnique | mysql/utils.go:497-517 | two canonical decimals have the same value iff they are the same text |
| Decimal.StringToInt | mysql/utils.go:519-527 | with a wrap after every operation, the result is the value wrapped once to 64 bits, for all bytes, digits or not |
| Decimal.DecimalRoundTrip | mysql/utils.go:497-527 | printing and reading a uint64 gives it back iff it is below 2^63, and the number less 2^64 otherwise |
| Password.PwHash | mysql/utils.go:161-185 | the one-pass hash that skips blanks is the hash of the text without its blanks |
| Password.SqueezeIs | mysql/utils.go:168-172 | what does not count is exactly the spaces and the tabs |
| Password.HashIs | mysql/utils.go:161-185 | the hash is that of the old protocol: its start values, its step with one reduction modulo 2^32 in place of the wraps, and 31 bits of the result |
| Password.Seeds.NothingWraps | mysql/utils.go:153-158 | from every reduced seed pair no uint32 operation of NextByte overflows |
| Password.MyRnd.NextByte | mysql/utils.go:153-158 | the step keeps the seeds reduced, equals the one on unbounded integers, and returns at most 30 |
| Password.ScrambleOldPassword | mysql/utils.go:188-211 | the two in-place loops give the answer that OldScramble defines from the generator's first nine bytes |
| Password.GeneratorIs | mysql/utils.go:143-211 | each byte of the answer by the recurrence of the seeds modulo 0x3fffffff, from the exclusive or of the two hashes |
| Password.OldScrambleIsPrintable | mysql/utils.go:188-211 | all eight bytes lie in 64..95, for every scramble and password |
| Password.BlanksDoNotCount | mysql/utils.go:161-195 | passwords that differ only in blanks are answered alike iff both or neither are empty |
| Password.DeletingBlanks | mysql/utils.go:161-195 | deleting the blanks leaves the answer unchanged iff the password is empty or has a non-blank |
| Password.ScramblePassword | mysql/utils.go:92-119 | nil iff the password is empty; otherwise the token carries hash(password) under a pad the server can compute |
| Password.TokenCarriesThePassword | mysql/utils.go:92-119 | a token from which the server recovers hash(password) is accepted, and there is exactly one such token |
| DateTime.DecodeEncode | mysql/utils.go:294-330 | parseBinaryDateTime recovers all fields of a full binary date-time, and those that are there from the two shorter forms |
| DateTime.ParseErrors | mysql/utils.go:294-330 | the zero time iff the length is 0, an error iff it is none of the four lengths |
| DateTime.FormatBinaryDateTime | mysql/utils.go:341-473 | the printer with its digit tables, byte-wide pairs and shortcuts prints a prefix of one full text; its errors and panics occur exactly as Format says |
| DateTime.FormatReadsBack | mysql/utils.go:341-473 | the text has exactly the column's width and reads back as the truncated fields iff the fields fit their digits; else it shows year modulo 25600 and microseconds modulo 2560000 if those fit, and panics if not |
| DateTime.FormatIsSeparated | mysql/utils.go:336-473 | separators stand where the format has them and digits elsewhere; an empty packet prints as zeros |
| DateTime.FormatErrors | mysql/utils.go:394-411 | a length or a packet size is refused iff it is none of those listed, naming the kind of column |
| DateTime.FormatKeepsOrder | mysql/utils.go:341-473 | bytewise order of two texts is chronological order of the truncated moments |
| DateTime.PrefixIsTruncation | mysql/utils.go:384-473 | cutting the text at any column width and filling up with zeros is the text of the truncated fields |
| Rotation.FileLogWriter.Lines | log/file.go:166-191 | counting chunk by chunk, however the system sizes the chunks, gives the number of lines |
| Rotation.FileLogWriter.DoRotate | log/file.go:195-234 | the number search finds the first free number or fails at 999, and each failing call leaves the files and the descriptor as Rotated says |
| Rotation.FileLogWriter.WriteMsg | log/file.go:115-139 | one message is one step of the rotation state machine, failures included |
| Rotation.RotationConserves | log/file.go:195-234 | a rotation, failed or not, leaves archives in date and number order followed by the live file unchanged in content |
| Rotation.RunConserves | log/file.go:115-234 | over runs with restarts and faults the files hold what they held, then every line that reached the descriptor, in order |
| Rotation.NothingLost | log/file.go:115-234 | a run loses no line iff every admitted line found the descriptor open |
| Rotation.ReachesWhen | log/file.go:115-139 | a line reaches the file iff its rotation's rename and open succeed, or, if it makes none, the descriptor was open |
| Rotation.SmoothRunLosesNothing | log/file.go:115-234 | without failing renames and opens every admitted line is on disk, in order |
| Rotation.FailedReopeningLosesTheRest | log/file.go:195-234 | after a rename whose reopening failed, no later message changes the files until a restart |
| Rotation.NoArchiveIsOverwritten | log/file.go:195-234 | no write, rotation or restart, failed or not, overwrites an archive; removal by deleteOldLog is left out |
| Rotation.WriteKeepsCounters | log/file.go:115-139 | for one-line messages the counters stay exact unless a rotation of a live file is due and finds no free number or fails to rename or reopen, and exactly then not; where they stay exact the limits on lines and size hold |
| Rotation.RotationFailsWhen | log/file.go:195-234 | DoRotate returns an error iff a live file exists and all 999 numbers are taken or renaming, opening or the size query fails |
| Rotation.RestartCounts | log/file.go:147-164 | a start takes lines, size and day from whatever file it finds, and creates one if there is none |
| Rotation.CountersStayExact | log/file.go:115-191 | over whole runs with restarts the line counter is the number of lines in the file, and a file just written to has at most maxlines |
| Rotation.WriteAppends | log/file.go:115-139 | below both limits and on the open day, or without rotation, a message is appended and nothing else in the files changes |
| Rotation.WriteRotates | log/file.go:115-139 | at a limit or on another day the file becomes today's archive with the first free number, and the line starts a new one |
| Rotation.WriteWhenRotationFails | log/file.go:115-139 | what each way to fail leaves: without a free number the line is appended uncounted, and after a failed rename or reopening it is lost |
| Rotation.OneDayPerFile | log/file.go:115-234 | over runs without failures, from an empty file, the live file holds exactly the lines since some event, all written on one day |
| Rotation.RestartForgetsTheDay | log/file.go:147-164 | a start on a file with lines of an earlier day goes on in it on the new day |

## Left out

- MysqlDB.MysqlDB.GetConn: does not promise that a connection is got; with failing dials there may be none.
- Relay.RelayResultSet: byte for byte only for slices that refills have spared; NetBuffer.HeldSliceSurvives says exactly when one does, and Relay.RefillCorrupts shows one that does not. A backend that answers before it is asked can make the write buffer busy, and then handleQuery stops; the backend here answers when it has the command.
- Rotation.WriteKeepsCounters: the iff leaves out a failing Stat on the file just opened, after which the old counter may be right by accident.
- Rotation.NoArchiveIsOverwritten: says nothing of deleteOldLog, which every rotation starts and which removes log files older than Maxdays.
- Rotation.RunConserves: assumes that the clock does not go back, that the archives of the day have no gap in their numbers, and that no other program touches the files; one operation sees one date.
- Handshake.LoginRoundTrip: a scrambled password of 256 bytes or more, whose length would be cut to a byte, is not covered; the code's has 20 or none.
- Protocol.TextResultSet.Valid: rows and column definitions that start with 0xfe are excluded; the code takes such a row, and not an error packet in the middle of rows, for the end.
- ResultSet.ClassifyHeader: an OK packet too short for its status counts as a panic; the code may read what lies behind it in memory.
- maxOpen == 0 (unbuffered channels) is another protocol; `numOpen++` in newConn is taken as one atomic step, although it is outside the mutex; dialing returns.
- The pool counts connection objects: I/O failures close a connection that callers still put back.
- PacketConn.PacketConn.ReadHeader: names the check that failed. mysqlConn closes the connection on a malformed packet and on an I/O error and returns ErrBadConn; Client returns the I/O error itself.
- GetDB, and handleQuery's getConn and putConn around the relay; the pool's theorems are about every caller.
- The fields user, dbname and capability of Client are results of the login reader, not fields.
- Dialing, deadlines, keep-alive and closing of sockets; allocation limits for huge column counts.
- Password.ScrambleOldPassword, Handshake.WriteInitHandshake, Handshake.SendLogin: require what the code slices out without a check (a scramble or salt of 8 bytes, a write buffer as long as the login packet); otherwise the source panics.
- The day of a log file is the day of the month, as in the code: after a month without a message the file goes on.
- SHA-1 is any function with 20-byte results.
- TIME columns (`justTime`), which drop digits when a sign and a third hour digit fill the width; time.Date and time.Parse.
- deleteOldLog, Destroy, Flush, JSON settings, and the other log writers; the mutexes of the log writer (it is sequential here).
- int overflow of the log counters and of buffer sizes.
- Prepared statements, useDB, fieldList, quit: thin or unfinished, and no harder than the query path.
- Length-encoded strings, error, state and collation tables, NullTime, TLS registration, RandomBuf, the admission counters of server/count.go.
