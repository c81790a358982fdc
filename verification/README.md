# ColdSync, verified

A Dafny model of the parts of ColdSync (a HotSync client for Palm handhelds) whose
correctness is hard to see from the code, with proofs:

- **The wire stack.** `Crc` (the table-driven CRC-16 of section 2 of ITU-T
  Recommendation V.41), `Slp`, `SlpLayout` and `SlpResync` (framing, addressing and
  finding the next packet), `Padp`, `PadpPackets`, `PadpIo`, `PadpRuns`, `PadpRetries`,
  `PadpLine`, `PadpExchange` and `PadpTwoParty` (fragments, acknowledgements and
  retries), `Dlp`, `DlpIo` and `DlpEndToEnd` (requests and responses). Each layer's
  reader and writer are methods over the buffers of a `PConnection`, with the loops of
  the C functions. The two sides of the Packet Assembly/Disassembly Protocol are also
  given as machines that take one event at a time; the methods are proved to run them
  (`PadpIo`), and what holds of every run is proved about the machines (`PadpRuns`,
  `PadpRetries`). `PadpLine`, `PadpExchange` and `PadpTwoParty` put both on a line that
  hands over bytes when and in such pieces as it likes, loses packets, and carries the
  bytes of others. What stands on the line is stated byte by byte in `SlpLayout`,
  `PadpPackets` and the last part of `Dlp`.
- **The database file.** `PdbFormat` says what bytes a database is and what is made of
  the bytes of a file, `PdbRoundTrip` relates the two, `PdbLayout` states each of them
  byte by byte, `PdbList` is the linked list with its cached count, and `PdbIo` and
  `PdbLoad` are `pdb_Write` and `pdb_Read` over a file with a position.
- **Three smaller units.** `Filename` (names of backup files), `Conduit` (which
  conduits are run for a database), and the bounded formatter: `Numerals` and
  `Snprintf`, with how it reads a directive in `SnprintfDirectives` and what it prints in
  `SnprintfLaws`.

`Bytes` holds the C integer types and the big-endian accessors, `Connection` the
connection and its line, `Options` an optional value.

C integers are integers with their range: `ubyte`, `uword` and `udword` have 8, 16
and 32 bits, and where the code's arithmetic wraps around or is cut off the model
says so (the length of an SLP packet, of a DLP message and of a file, the count
of records, offsets). Bit-vectors occur only inside `Crc`. The line, the clock and
whatever a failed system call leaves are nondeterministic: a read delivers any
positive number of the bytes that are there, a write takes any positive number
of those it is given, and either can fail. The ghost fields `faults` of the connection
and of a file count what failed or was waited for in vain, so that the contracts can
say that no call reports a failure that did not happen. The file constants come from
`include/pconn/slp.h`, `padp.h`, `dlp.h`, `dlp_cmd.h` and `include/pdb.h`.

Where the code is not what its comments or its header files say, the model
follows the code:

- Long arguments have room for 14-bit ids (`include/pconn/dlp.h:28-44`), but are read
  with six bits (`libpconn/dlp.c:340-341`): `Dlp.IdsRoundTrip`. And a message with one
  is longer than the 16-bit length that the transports take
  (`libpconn/dlp.c:230`): `Dlp.WholeIfShort`.
- SLP computes the length of a packet in 16 bits, so that its body cannot have the
  65535 bytes that the header has room for: `SlpResync.DeliveredIfItFits`.
- `get_file_length` returns 16 bits (`libpdb/pdb.c:1176-1197`). That is harmless for
  records (`PdbRoundTrip.LastLength`), not for a block at the end of a file
  (`PdbRoundTrip.BlockSpoilt`). For the same reason the test for a file that is
  not seekable (`libpdb/pdb.c:278`) can never succeed; it is not in the model.
- The scanner for the preamble consumes the byte that does not match
  (`libpconn/slp.c:177-183`), so that a 0xBE right before a packet costs the packet:
  `SlpResync.ArrivesIffSkipped`.
- The FIRST flag of the fragment that comes first is not tested
  (`libpconn/padp.c:399-426`), so that a later one's offset is taken for the length of
  the message: `PadpRuns.ReassemblySafe`, `PadpRuns.LostFirstOverruns`.
- A repeated fragment ends `padp_read` (`libpconn/padp.c:541-562`), but a tickle makes
  `padp_write` repeat one (`libpconn/padp.c:776-781`): `PadpTwoParty.MessageArrives`.
- A path is cut off at `MAXPATHLEN` without a word (`src/misc.c:226-227`): `Filename.NameOfPath`.
- A final conduit stops the search only if it is run: `Conduit.RefusedFinalKeepsDefaultAway`.
- The formatter pads with zeros on the right when told both `-` and `0`:
  `Snprintf.DecimalReadsBack`.

`dafny verify dfyconfig.toml` checks the project.

## Model

| member | source | states |
|---|---|---|
| Bytes.UwordRoundTrip | libpconn/util.c:75-93 | a 16-bit number put into a buffer is got back from it, wherever it stands |
| Bytes.UdwordRoundTrip | libpconn/util.c:95-116 | the same for a 32-bit number |
| Bytes.UwordOrder | libpconn/util.c:75-93 | two bytes compare as the numbers that they stand for, the first one counting most |
| Bytes.UdwordOrder | libpconn/util.c:95-116 | so do four |
| Bytes.PutUword | libpconn/util.c:86-93 | writes the two big-endian bytes, moves on by two and touches nothing else |
| Bytes.PutUdword | libpconn/util.c:106-116 | writes the four big-endian bytes, moves on by four and touches nothing else |
| Crc.Crc16 | libpconn/crc.c:67-77 | the loop over the table computes the register after the bytes of the buffer |
| Crc.TableIsDivision | libpconn/crc.c:17-50 | every entry of the table is eight steps of division by x^16+x^12+x^5+1 (section 2 of ITU-T Recommendation V.41) |
| Crc.CrcIsFeed | libpconn/crc.c:67-77 | going byte by byte through the table is feeding the message bit by bit to the shift register |
| Crc.CrcIsPolynomialRemainder | libpconn/crc.c:67-77 | starting from zero, it is the remainder of long division of the message times x^16 by the generator |
| Crc.GeneratorIsCcitt | libpconn/crc.c:17-77 | which generator it is, and in which order bits and bytes come: what is left of the bytes 1, of 2, and of 1 and 0 |
| Crc.CrcConcat | libpconn/slp.c:369-381 | the register after two pieces is that after the second started with that after the first, as slp_read computes it |
| Crc.TrailerCheck | libpconn/slp.c:369-388 | running on over two more bytes leaves zero if and only if they are the big-endian register |
| Crc.CrcLinear | libpconn/crc.c:67-77 | the register of a message with bits flipped is the exclusive or of two registers |
| Crc.BurstDetected | libpconn/crc.c:67-77 | any non-zero error within 16 consecutive bits of a frame of any length changes the residue |
| Slp.ReadRest | libpconn/slp.c:188-207 | the got/want loop reads exactly what is wanted, in whatever pieces it comes |
| Slp.ReadPreamble | libpconn/slp.c:154-184 | consumes bytes up to and including the first three that are the preamble, a mismatching byte being dropped |
| Slp.ReadPacket | libpconn/slp.c:148-401 | one turn from one redo to the next: what it takes off the line and what it leaves |
| Slp.SlpRead | libpconn/slp.c:131-401 | returns the packet that the independent description Receive finds in the bytes of the line, however they are chunked; the bytes left decrease over all redo jumps; and fails only at the end of the line or when a system call does |
| Slp.SlpWrite | libpconn/slp.c:407-518 | puts header, body and CRC on the line, or a prefix of them exactly when a write fails |
| SlpResync.ReceiveStable | libpconn/slp.c:131-401 | a packet that can be received from part of a stream is the one received from all of it, so arrival in pieces makes no difference |
| SlpResync.Resync | libpconn/slp.c:148-401 | whatever is skipped leaves the reader to the rest of the stream as if it had not been there, but for the remote address seen last |
| SlpResync.NoiseSkipped | libpconn/slp.c:154-184 | noise in which the first two preamble bytes never follow each other is skipped if and only if the run of 0xBE at its end is of even length, each 0xBE being consumed together with the byte behind it |
| SlpResync.ArrivesIffSkipped | libpconn/slp.c:131-518 | a packet behind any bytes is received from exactly where it begins if and only if those bytes are skipped |
| SlpResync.PacketSkipped | libpconn/slp.c:257-388 | a packet with a good header is skipped when it is for another address or its CRC fails |
| SlpResync.PacketIsGood | libpconn/slp.c:407-518 | what slp_write builds has a good header with the right fields and leaves residue zero |
| SlpResync.DeliveredIfItFits | libpconn/slp.c:407-518 | a packet is delivered to its addressee with body and transaction id if and only if its body has at most 65523 bytes; the length of the whole is kept in 16 bits |
| SlpResync.CutPacketStarves | libpconn/slp.c:486-504 | of a longer body only part is written, and the reader waits for the rest |
| SlpResync.DamagedSkipped | libpconn/slp.c:369-388 | a burst of at most 16 bits in the body or CRC of a packet makes the reader skip exactly that packet |
| SlpResync.NextPacketArrives | libpconn/slp.c:131-518 | after any mixture of skipped noise, packets for others and packets damaged by a burst, the next good packet arrives intact |
| SlpResync.StrayPreambleByte | libpconn/slp.c:177-183 | two inputs: 0xBE and another byte before a packet do no harm; 0xBE alone loses it, because the byte that does not match is consumed |
| SlpResync.NoiseStarves | libpconn/slp.c:154-184 | nothing is ever received from noise in which the preamble does not begin |
| SlpLayout.ChecksumConcat | libpconn/slp.c:470-473 | the checksum of a header is the sum of its bytes modulo 256: that of one byte is the byte, and that of two pieces is the sum of theirs |
| SlpLayout.ByteChanged | libpconn/slp.c:241-247 | changing exactly one byte always changes the checksum |
| SlpLayout.DamagedHeaderDropped | libpconn/slp.c:241-254 | so a packet with one wrong byte in its header is not taken, and the reader goes on behind that header |
| SlpLayout.WireIsPacket | libpconn/slp.c:452-504 | what slp_write puts on the line, byte by byte: preamble be ef ed, ports and protocol, big-endian length, id, the low byte of the sum of these, body, and a CRC which leaves zero |
| SlpLayout.PacketReceived | libpconn/slp.c:131-401 | such a packet for the receiver is received with its sender, id and body |
| SlpLayout.ReceivedIsPacket | libpconn/slp.c:131-401 | and whatever is received stands on the line as such a packet, and the reader is right behind it |
| PadpRuns.PieceParts | libpconn/padp.c:634-665 | the header and the data of a fragment are read back from it |
| PadpRuns.PieceGrows | libpconn/padp.c:634-665 | the data of a fragment extends the prefix of the message before it, to all of it if the fragment is the last one |
| PadpRuns.ReassemblySafe | libpconn/padp.c:384-597 | of a call that hears fragments of one message under any loss, duplication and reordering, among other packets: it delivers nothing but the message, and only if all fragments came in order before any other; it copies past its buffer only if a fragment other than the first came first and enough others in turn; and if the other packets are ACKs and TICKLEs both happen exactly then |
| PadpRuns.LostFirstOverruns | libpconn/padp.c:399-568 | an input: when the first fragment is lost and the second is heard twice, its offset is taken for the length of the message and the repeat is copied past the end |
| PadpRuns.FragmentsGoOutInOrder | libpconn/padp.c:609-841 | over every run of padp_write the transmitted fragments, immediate repeats aside, are a prefix of the list of fragments, and all of it on success |
| PadpRuns.SuccessMeansAcknowledged | libpconn/padp.c:609-841 | on success each fragment was acknowledged after it was last sent and under the transaction id it was last sent with |
| PadpRuns.BoundedRetries | libpconn/padp.c:666-833 | a fragment is sent at most ten times and once more for every DATA, TICKLE or NAK packet that came while it was waited for |
| PadpRetries.GivesUpExactly | libpconn/padp.c:666-709 | over every run, padp_write fails with PALMERR_TIMEOUT if and only if ten waits, for the line or for the answer, were in vain for one and the same fragment |
| PadpRetries.StillAdvances | libpconn/padp.c:666-833 | after any run in which the pending fragment has timed out fewer than nine times, one more timeout leads to the same fragment being sent again under the same id, and the right ACK then takes the writer on |
| PadpRetries.XidsGoRound | libpconn/padp.c:73-80 | the transaction ids go round all 254 that are not reserved, in order, wherever they start |
| PadpRetries.FirstUnder | libpconn/padp.c:626-665 | the first fragment of a call goes out under the next id of the connection, or for a Palm under that of the last packet received |
| PadpPackets.PieceOnLine | libpconn/padp.c:634-665 | a fragment byte by byte: type 1, the flags 128 and 64 for the first and the last, the length of the message or the offset in two big-endian bytes, and at most 1024 bytes of data |
| PadpPackets.ReaderSends | libpconn/padp.c:199-217 | all that padp_read ever sends is acknowledgements, 02 00 and the size field of the fragment, under its id and back to its sender |
| PadpPackets.ReaderHears | libpconn/padp.c:348-378 | what the reader does at a timeout, a broken line, and packets of each type that is no fragment |
| PadpPackets.FragmentHeard | libpconn/padp.c:399-592 | what the reader does about any fragment, from the bytes of its header: what it refuses, what it copies and acknowledges, when the message is complete, and when the copy would go past an end |
| PadpPackets.SingleDelivered | libpconn/padp.c:399-439 | a packet with both flags is delivered as it is, up to the length it gives |
| PadpPackets.WriterHears | libpconn/padp.c:700-833 | what the writer does at a timeout, a broken line, and packets of each type |
| PadpPackets.WriterHushesIt | libpconn/padp.c:722-770 | a fragment of the other side is acknowledged under its own id, and the call goes on under the id after it |
| PadpPackets.SentOnLine | libpconn/padp.c:145-196 | the packets that either end has sent stand on the line as SLP packets, one behind the other, each with its addressee and its id |
| PadpPackets.HeardOnLine | libpconn/padp.c:223-302 | the packets that either end has heard stood on the line as SLP packets for it, in this order and none of them twice |
| PadpRuns.XidsNeverReserved | libpconn/padp.c:73-80 | a desktop sends no fragment under the transaction ids 0x00 and 0xff |
| PadpRuns.OnlyTheNextIsTaken | libpconn/padp.c:541-592 | while a message is being collected a fragment is refused if and only if it is not the next one; the next one extends the message, completes it, or goes past the announced length |
| PadpRuns.RepeatsSpoil | libpconn/padp.c:384-597 | for fragments that arrive in order but for repeats, the call fails if and only if one other than the last of the message arrives twice in a row; otherwise the reader has the message up to the last that arrived |
| PadpRuns.ShortMessageUnharmed | libpconn/padp.c:384-439 | a message of one fragment is delivered however often it is repeated |
| PadpRuns.TickleSpoilsMessage | libpconn/padp.c:776-781 | an input: a TICKLE makes padp_write repeat the first fragment of a longer message, and the repeat makes padp_read fail |
| PadpIo.TxFrag | libpconn/padp.c:145-196 | puts the fragment on the line as one SLP packet under the current transaction id |
| PadpIo.SendAck | libpconn/padp.c:199-217 | acknowledges under the id of the packet received last |
| PadpIo.RxFrag | libpconn/padp.c:223-302 | reports a timeout, a broken line, or the packet that SLP finds next, with its header |
| PadpIo.ReadFirst | libpconn/padp.c:329-378 | waits for the first data packet as the machine of the reader does |
| PadpIo.ReadOthers | libpconn/padp.c:471-597 | collects the other fragments as the machine of the reader does |
| PadpIo.PadpRead | libpconn/padp.c:313-597 | is a run of the reader's machine over the packets on the line: result, message, error number and what is sent agree with it, and every timeout and failed read in it was one of the line |
| PadpIo.AwaitAck | libpconn/padp.c:694-820 | handles the answer to a fragment as the machine of the writer does |
| PadpIo.WriteFragment | libpconn/padp.c:666-833 | the attempts at one fragment are steps of the writer's machine |
| PadpIo.PadpWrite | libpconn/padp.c:609-841 | is a run of the writer's machine: success, error number and what is on the line agree with it, and every timeout and failed call in it was one of the line |
| PadpLine.WorkConcat | libpconn/slp.c:131-401 | bytes that leave the receiver in step change nothing of what it receives from the bytes behind them |
| PadpLine.PacketWork | libpconn/slp.c:407-518 | what slp_write puts on the line is one packet for its addressee and nothing for anybody else |
| PadpLine.TakeOffLine | libpconn/slp.c:131-401 | whatever part of the bytes has arrived, receiving takes the first of the packets that the whole holds |
| PadpExchange.ReaderHearsPiece | libpconn/padp.c:384-597 | the reader takes and acknowledges the next fragment, and ends the call at any other |
| PadpExchange.WriterHearsItem | libpconn/padp.c:700-833 | an acknowledgement under the id of the call takes the writer on by exactly one fragment, a TICKLE or NAK back to sending, and anything else but data ends the call |
| PadpExchange.SafeWriterHears | libpconn/padp.c:700-833 | what the writer hears keeps it behind the reader: its progress and the acknowledgements on the line are at most those sent |
| PadpExchange.SafeReaderHears | libpconn/padp.c:384-597 | so does what the reader hears, whether its answer is lost or not |
| PadpExchange.LiveReaderHears | libpconn/padp.c:384-597 | as long as nothing is lost the reader is where the fragments sent, less those still on their way, have brought it |
| PadpExchange.RepeatsKeepBack | libpconn/padp.c:541-562 | if a fragment other than the last was sent twice the reader has not got past it, and will not |
| PadpExchange.SomethingToHear | libpconn/padp.c:313-841 | if none was, there is a packet under way for one of the two while the writer waits |
| PadpTwoParty.TransmitKeeps | libpconn/padp.c:666-700 | sending a fragment keeps the invariants of the two-party system |
| PadpTwoParty.ReaderHearsKeeps | libpconn/padp.c:384-597 | so does whatever the reader does with what it hears |
| PadpTwoParty.WriterHearsKeeps | libpconn/padp.c:700-833 | so does whatever the writer does with what it hears |
| PadpTwoParty.NextKeeps | libpconn/padp.c:313-841 | every move of the system keeps the invariant |
| PadpTwoParty.OwnMoveCosts | libpconn/padp.c:313-841 | every move of the two ends and the line makes a potential smaller; the bytes of others, tickles and timeouts add to it no more than is stated |
| PadpTwoParty.NotStuck | libpconn/padp.c:313-841 | without losses, and unless a fragment other than the last was sent twice, a move is possible until the writer is done |
| PadpTwoParty.OnlyTheMessage | libpconn/padp.c:313-841 | in every run, with lost packets, timeouts, tickles, and noise, damaged and foreign packets that leave the SLP receiver in step, the reader delivers nothing but the message, and padp_write does not return with success before padp_read has delivered it |
| PadpTwoParty.MessageArrives | libpconn/padp.c:313-841 | without losses and timeouts: if no fragment but the last was sent twice neither end has failed and one more move is possible until both have finished; if one was, they do not finish; the number of moves is bounded |
| PadpTwoParty.SpoiltForGood | libpconn/padp.c:313-841 | a fragment sent twice stays sent twice, so such a run never finishes |
| PadpTwoParty.ShortMessageArrives | libpconn/padp.c:313-841 | a message of at most 1024 bytes arrives in all of these runs, tickles or not |
| PadpTwoParty.NeverSpoiltIffShort | libpconn/padp.c:313-841 | and only for those is it so: for every longer message one tickle leads to a run that cannot finish |
| PadpTwoParty.UntickledMessageArrives | libpconn/padp.c:313-841 | and every message in those without tickles |
| Dlp.ArgRoundTrip | libpconn/dlp.c:335-369 | an argument of any of the three header sizes is read back with size and data, and its id modulo 64 |
| Dlp.RequestOnLine | libpconn/dlp.c:162-224 | a request byte by byte: the command, the number of arguments, and the arguments in their order |
| Dlp.ResponseOnLine | libpconn/dlp.c:548-616 | a response: the command with its high bit set, the number of arguments, the big-endian error code, and the arguments |
| Dlp.ArgOnLine | libpconn/dlp.c:168-224 | an argument: no high bit with sizes below 256, the upper one below 64 kB, both above; the size in one, two or four bytes, big-endian; and where it stands |
| Dlp.RequestRead | libpconn/dlp.c:405-470 | any message is received as a request if and only if the arguments that its second byte counts follow each other in it, sizes as their headers say; its first byte is the command |
| Dlp.ResponseRead | libpconn/dlp.c:274-369 | so is a response, if its first byte is the expected command with the high bit set; the error code is its third and fourth byte |
| Dlp.RequestRoundTrip | libpconn/dlp.c:96-474 | a request is parsed back into command, number of arguments, sizes and data, and ids modulo 64 |
| Dlp.ResponseRoundTrip | libpconn/dlp.c:249-373 | so is a response with its error code if its id is the one expected, and otherwise it is refused |
| Dlp.IdsRoundTrip | libpconn/dlp.c:340-341 | all ids come back if and only if they are all below 0x40 |
| Dlp.WholeIfShort | libpconn/dlp.c:226-240 | a request goes out whole if and only if it is shorter than 64 kB, so none with a long argument does; what goes out is always a beginning of it, shorter by a multiple of 65536 bytes |
| Dlp.NothingOf64K | libpconn/dlp.c:226-240 | of a request of exactly 64 kB nothing goes out |
| DlpIo.MessageLength | libpconn/dlp.c:115-147 | the sizing pass computes the number of bytes that the arguments take |
| DlpIo.PutArgs | libpconn/dlp.c:168-224 | the second pass writes exactly the bytes of the arguments, to the end of the buffer sized by the first |
| DlpIo.SendReq | libpconn/dlp.c:96-240 | sends the bytes of the request, or what of them fits in a 16-bit length |
| DlpIo.SendResp | libpconn/dlp.c:484-625 | the same for a response |
| DlpIo.GetArgs | libpconn/dlp.c:432-470 | the parsing loop fills argv with the arguments of the message, or would read past its end |
| DlpIo.RecvReq | libpconn/dlp.c:384-474 | what is received is what parsing the message gives |
| DlpIo.RecvResp | libpconn/dlp.c:249-373 | the same for a response, with the refusals of other ids and of what is no response |
| DlpIo.DlpcReq | libpconn/dlp.c:637-722 | the same request is sent up to five times, again only after a timeout; success is a response to it, -2 is the marker of a read past the end, five timeouts end in PALMERR_TIMEOUT and a lost connection, and every failure of a try was one of the line |
| DlpEndToEnd.RequestArrives | libpconn/dlp.c:96-474 | in every run of the layer below, a request shorter than 64 kB is received with its command, sizes and data or not at all, and the sender is not done before it is |
| DlpEndToEnd.ResponseArrives | libpconn/dlp.c:249-625 | so is a response |
| PdbFormat.AttributesKept | libpdb/pdb.c:96-137 | of flags and category survive what merge_attributes has room for, and merging again gives the same byte |
| PdbRoundTrip.ImageParts | libpdb/pdb.c:417-458 | each part of the file is at the offset that was computed for it |
| PdbRoundTrip.FrontRead | libpdb/pdb.c:1203-1322 | the headers are read back as they were written, without the OPEN bit |
| PdbRoundTrip.EntryRead | libpdb/pdb.c:1354-1500 | each entry of the index is read back with its normalised key and the offset of its data |
| PdbRoundTrip.LastLength | libpdb/pdb.c:1176-1197 | the length of the last item, computed in 16 bits from the truncated length of the file, is right for a file of any size |
| PdbRoundTrip.ItemLoads | libpdb/pdb.c:1733-2012 | each item is loaded with its own data, or not at all where malloc(0) gives NULL |
| PdbRoundTrip.BlockSpoilt | libpdb/pdb.c:1176-1197 | a block at the end of a file of 64 kB or more is not read back |
| PdbRoundTrip.BlocksLoad | libpdb/pdb.c:1510-1731 | both blocks are read back if and only if there are items or the file is shorter than 64 kB |
| PdbRoundTrip.RoundTrip | libpdb/pdb.c:400-674 | loading a saved database gives it back, normalised, if and only if it has fewer than 65536 items, the end of its last block is known and its empty resources can be allocated |
| PdbRoundTrip.NormalIsStable | libpdb/pdb.c:96-137 | normalising twice is normalising once |
| PdbRoundTrip.SavingIsStable | libpdb/pdb.c:400-674 | saving the normalised database gives the same bytes if and only if no block was present but empty |
| PdbRoundTrip.SavedLoadedSaved | libpdb/pdb.c:400-674 | saving, loading and saving again gives the same file |
| PdbLayout.HeaderOnFile | libpdb/pdb.c:421-478 | where each field of the headers is in a saved file, the OPEN bit cleared |
| PdbLayout.PartsOnFile | libpdb/pdb.c:417-650 | index, two zeros, blocks and data follow each other from byte 78 on, and the offsets of the blocks in the header are where they stand |
| PdbLayout.RecordOnFile | libpdb/pdb.c:553-562 | the index entry of record i, at 78 + 8 i: the offset where its data stands, the byte of flags and category, and the low three bytes of its id, big-endian |
| PdbLayout.ResourceOnFile | libpdb/pdb.c:491-530 | that of resource i, at 78 + 10 i: its type, its id, and the offset where its data stands |
| PdbLayout.ParsesExactly | libpdb/pdb.c:264-379 | any file is loaded as a database if and only if its headers and index are complete and every field, block, key and piece of data of the database stands in its place in it |
| PdbList.Pdb.FindRecordByID | libpdb/pdb.c:680-695 | finds the first record with the id, or none |
| PdbList.Pdb.FindRecordByIndex | libpdb/pdb.c:701-722 | finds the record at the index, or none |
| PdbList.Pdb.DeleteRecordByID | libpdb/pdb.c:741-786 | cuts the first record with the id out of the sequence, keeping list and count; refuses a resource database |
| PdbList.Pdb.AppendRecord | libpdb/pdb.c:793-824 | appends to the sequence, keeping list and count; refuses a resource database |
| PdbList.Pdb.AppendResource | libpdb/pdb.c:830-861 | appends to the sequence, keeping list and count; refuses a record database |
| PdbList.Pdb.InsertRecord | libpdb/pdb.c:869-897 | inserts after the given record, or first, keeping list and count; the database stays well-formed if and only if it is one of records, which is not tested |
| PdbList.Pdb.InsertResource | libpdb/pdb.c:905-933 | inserts after the given resource, or first, keeping list and count; the database stays well-formed if and only if it is one of resources, which is not tested |
| PdbList.DeletedIsGone | libpdb/pdb.c:741-786 | after a deletion no record has the id if and only if there were not two, and the others are found as before |
| PdbList.UniqueStays | libpdb/pdb.c:741-786 | unique ids stay unique, and a deleted one is not found again |
| PdbIo.BuildHeader | libpdb/pdb.c:421-458 | the header, with the offsets of the blocks, and the offset of the first item |
| PdbIo.WriteIndex | libpdb/pdb.c:491-582 | writes the index with the offsets of the data |
| PdbIo.OverlayAt | libpdb/pdb.c:400-674 | what a write leaves of a file, byte by byte |
| PdbIo.PdbWrite | libpdb/pdb.c:400-674 | puts the image of the database over what the file held from its position on, or only a beginning of it exactly when a write fails |
| PdbLoad.LoadIndex | libpdb/pdb.c:1328-1503 | the list is in the order of the file and has as many entries as the count says, although every append bumps it |
| PdbLoad.LoadAppBlock | libpdb/pdb.c:1510-1617 | reads the AppInfo block up to the next thing in the file, if it can |
| PdbLoad.LoadSortBlock | libpdb/pdb.c:1627-1731 | reads the sort block up to the first item, or to the end of the file, if it can |
| PdbLoad.LoadData | libpdb/pdb.c:1736-2012 | gives each entry the data between its offset and the next one |
| PdbLoad.PdbRead | libpdb/pdb.c:264-379 | returns what the description Parse makes of the file, and null only if that is nothing or a system call fails; every database it returns is valid |
| PdbLoad.ParsedIsValid | libpdb/pdb.c:264-379 | whatever file it comes from, a loaded database is well-formed and its count is right |
| Filename.MkFname | src/misc.c:199-241 | the strings one after the other, cut off at MAXPATHLEN characters |
| Filename.EscapeName | src/misc.c:277-300 | the escaping loop stays within a buffer of three characters for each of the name |
| Filename.MkPdbName | src/misc.c:252-314 | directory, escaped name and suffix, cut off at MAXPATHLEN characters |
| Filename.Fname2Dbname | src/misc.c:396-475 | the name that unescaping gives, or null for what is no backup file |
| Filename.NameOfPath | src/misc.c:199-475 | the name of the file of a database gives back the name of the database if and only if the path is not cut off, in any directory shorter than MAXPATHLEN |
| Filename.DirectoryFillsPath | src/misc.c:199-241 | in a longer directory all databases have the same path |
| Filename.RoomForAll | src/misc.c:258-265 | any directory that leaves room for three characters for each of the longest name has only paths that fit |
| Filename.PathsDiffer | src/misc.c:252-314 | different databases have different files |
| Filename.PathForm | src/misc.c:252-314 | a path is the directory, a slash, the escaped name, and .prc or .pdb for its kind |
| Filename.EscapeForm | src/misc.c:277-300 | a printable character other than slash and percent sign stands for itself, and any other one becomes a percent sign and its two upper-case hexadecimal digits |
| Filename.EscapedForm | src/misc.c:277-300 | an escaped name has nothing unprintable and no slash in it, and is the name itself if and only if that has neither, nor a percent sign |
| Filename.UnescapeForm | src/misc.c:434-466 | a percent sign takes two hexadecimal digits of either case with it, and anything else behind it is an error |
| Filename.ExtensionForm | src/misc.c:421-432 | the names that are read back are those that end in .prc or .pdb, in any case |
| Filename.NameParts | src/misc.c:414-466 | the name is what is behind the last slash and before the last dot, unescaped, of at most 32 characters, if the extension is right |
| Filename.NoName | src/misc.c:414-428 | without a dot behind the last slash there is none |
| Filename.CutPathMisleads | src/misc.c:226-227 | an input: the path of a.pdb, cut off, is taken for the file of another database |
| Conduit.CreaTypeMatchesLoop | src/conduit.c:2337-2417 | true if and only if some pair matches, zero being a wildcard |
| Conduit.FindConduitByName | src/conduit.c:2419-2449 | finds the built-in conduit of that name, if there is one |
| Conduit.AppliesExactly | src/conduit.c:1249-1290 | a block applies if and only if it is enabled, has one of the wanted flavors, and a pair for the creator and the type, zero being a wildcard, or the pair none if no database is asked for |
| Conduit.RefusedExactly | src/conduit.c:1310-1328 | [dummy] is refused if and only if at most initialising is wanted, and [generic] if and only if synchronising is not |
| Conduit.DefaultRefusedExactly | src/conduit.c:1366-1400 | the default is refused if and only if, for a real database, nothing but defaults applies and the last of these is refused |
| Conduit.RunIsMeant | src/conduit.c:1249-1409 | so no block is run for a database, or a flavor, that it is not for |
| Conduit.RunConduits | src/conduit.c:1207-1412 | runs what the policy says, in that order, up to the first conduit that is cancelled, each with its own path; negative if and only if one was or the default was refused |
| Conduit.ExecutedExactly | src/conduit.c:1249-1409 | a block is run if and only if it is runnable and comes after no runnable final one, or is the last default and nothing else matches a real database |
| Conduit.ExecutedAscend | src/conduit.c:1249-1409 | blocks are run in order, each once |
| Conduit.AppendedIgnored | src/conduit.c:1351-1359 | appending blocks never makes a difference if and only if there is a runnable final block |
| Conduit.RefusedFinalKeepsDefaultAway | src/conduit.c:1310-1328 | a built-in final block of the wrong flavor neither stops the search nor lets the default be run |
| Numerals.Conv10 | src/ap_snprintf.c:408-453 | the digits of the exact magnitude, for the most negative number too, no step of the computation leaving its type |
| Numerals.ConvP2 | src/ap_snprintf.c:648-666 | the digits in base 8 or 16 |
| Numerals.NumeralStands | src/ap_snprintf.c:443-452 | the digits stand for the number, without leading zeros |
| Numerals.DigitForm | src/ap_snprintf.c:651-666 | the digits are the ten figures and the first six letters, upper-case for %X |
| Numerals.NumeralCase | src/ap_snprintf.c:651-666 | a numeral has letters only in base 16, all of the one case |
| Snprintf.FixPrecision | src/ap_snprintf.c:373-379 | zeros before a number up to the precision, within the buffer |
| Snprintf.ScanSpec | src/ap_snprintf.c:747-843 | flags, width, precision and modifier of a directive |
| SnprintfDirectives.DirectiveRead | src/ap_snprintf.c:742-843 | a directive, written as flags, width, precision, size and conversion, with numbers or asterisks, is read as what it says, wherever it stands in a format |
| SnprintfLaws.TextPrinted | src/ap_snprintf.c:954-966 | %s prints the string cut to the precision, or (null) uncut, with blanks up to the width on the side that flags and sign of the width say |
| SnprintfLaws.CharPrinted | src/ap_snprintf.c:1017-1022 | %c prints the one character, aligned in the same way |
| SnprintfLaws.PercentPrinted | src/ap_snprintf.c:1025-1030 | %% prints a percent sign, and takes no argument |
| SnprintfLaws.SignedPrinted | src/ap_snprintf.c:876-901 | %d and %i print the sign (minus; else plus or blank if asked for, plus first), zeros up to the precision, and the only digits that stand for the number in the size asked for; where the padding goes, and of what it is, with each flag |
| SnprintfLaws.UnsignedPrinted | src/ap_snprintf.c:856-951 | so do %u, %o, %x and %X without a sign, in base 10, 8 and 16, letters in the case of the conversion; and the alternate form of %o has a zero in front |
| SnprintfLaws.UnknownPrinted | src/ap_snprintf.c:1128-1151 | a percent sign before what is no directive is printed with it, and one at the end is dropped |
| SnprintfLaws.PlainPrinted | src/ap_snprintf.c:742-745 | what is not a directive is printed as it stands |
| SnprintfLaws.PathFormat | src/conduit.c:1580-1580 | "%s/%s" gives the directory, a slash and the name |
| Snprintf.Convert | src/ap_snprintf.c:856-1158 | the characters that an argument is converted to |
| Snprintf.PutPadded | src/ap_snprintf.c:1160-1179 | pads to the width on the side and with the character that the flags say |
| Snprintf.VFormatter | src/ap_snprintf.c:694-1185 | writes the whole expansion of the format and returns its length, or what fits and -1 |
| Snprintf.Snprintf | src/ap_snprintf.c:1196-1214 | leaves the first characters of the whole output that fit, and a NUL; returns the length of the output, or the size of the buffer if it was cut off |
| Snprintf.DecimalReadsBack | src/ap_snprintf.c:876-1179 | what a decimal directive prints shows the number, whatever flags, width and precision, if and only if it is not padded with zeros on the right |

## Left out

- PadpIo.PadpRead: where C would read or copy past the end of a buffer the result is the marker -2 (`Overrun`); what C then does is undefined. The bytes of a message that its fragments left unset are arbitrary.
- PadpIo.ReadOthers: the two waits for the line that follow each other in the code (libpconn/padp.c:487 and in padp_rx_frag) are one; either ends the call in the same way.
- DlpIo.RecvReq: a read past the end of the message is the marker -2 as well; the stale bytes that C finds there are not modelled.
- DlpIo.DlpcReq: the io_complete callback is not modelled.
- PadpTwoParty.MessageArrives: that a message arrives is claimed for runs without losses and timeouts only; with them the two calls can fail, and what is then still true is `PadpTwoParty.OnlyTheMessage`. Data packets of a third party, and acknowledgements of one under the id of the call, do not occur in either.
- PadpTwoParty.OnlyTheMessage: bytes of others that put the SLP receiver out of step do not occur (for one packet behind such bytes see `SlpResync.ArrivesIffSkipped`).
- PdbLoad.PdbRead: the descriptor is at the beginning of the file; the code reads the headers and the index from where it is, but everything else from offsets counted from the beginning.
- PdbRoundTrip.SavingIsStable: databases of 65536 items and more, which do not survive saving and loading (`PdbRoundTrip.RoundTrip`), are outside its precondition.
- PdbRoundTrip.RoundTrip: a file of 4 GB or more, where 32-bit offsets wrap around, is outside its precondition.
- Snprintf.VFormatter: floating point, `%n`, `%p`, the quad modifier, and the `#` form of `%x` (which tests a variable left over from another directive) have no expansion, so formats with them are outside the precondition; so are widths, precisions and numbers for which C overflows an int or the 512-byte buffer for numbers.
- SnprintfLaws.SignedPrinted: numbers of more than 512 characters, for which C overflows its buffer, are outside its precondition, as they are for `SnprintfLaws.UnsignedPrinted`, and there the `#` form of `%x`.
- Snprintf.Snprintf: the same formats. The running count and the result are C `int`s; outputs and buffers of 2^31 characters and more, for which they overflow, are not told apart.
- PdbList.Pdb.InsertRecord: that `prev` is in the list, which the source documents as the caller's duty, is a precondition.
- PdbList.Pdb.InsertResource: the same.
- Filename.MkPdbName: `isprint` is that of the C locale, and a C character is unsigned.
- Records and resources, two C structures and a union, are one class `Entry` with a key of either kind; loaders and list functions that exist twice with the same body are one method where their difference is only that kind.
- The data of a record, the blocks and the arguments of a request are sequences assigned as a whole rather than buffers shared by reference; freeing memory is not modelled.
- `next_reclistID`, always written as zero and read back but never used.
- Results of functions that are static buffers in C are values here, so that a later call does not change an earlier result.
- A write to the line that takes nothing and does not fail, after which the loops of the code would go on.
- Failing `malloc`, other than `malloc(0)` for an empty resource, which is a parameter.
- Reads of a database file are whole unless the file ends or the call fails; writes can be short.
- The list of conduit blocks is a sequence, since nothing changes it; conduits themselves are an arbitrary ending; flavors are sets instead of bit masks.
- `udword` is 32 bits even where `unsigned long` has 64.
- NetSync (libpconn/netsync.c): packets of a header with a length and a body, after a ritual exchange of constant packets.
- The individual DLP commands, serial and network back ends, configuration, spawning of conduits and the SPC pipe, backup and install flows, tracing and messages.
