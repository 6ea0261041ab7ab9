# A model of a minimal TFTP-style file transfer

The repository implements a small read-only file transfer over UDP, in the
spirit of TFTP. A client sends a read request (tag 1, then the file name) to
port 69. The server starts a worker for each request. The worker cuts the file
into 512-byte blocks and sends them one at a time as DATA packets (tag 2,
then a signed one-byte block number, then the block). It waits for an ACK
(tag 3, then the number) after each full block, and resends a block up to
five times when the reply times out. A block shorter than 512 bytes ends the
transfer. When every block was full, the worker sends one last DATA packet
whose payload is a single zero byte. The client writes each full block whose
number follows the last one it wrote, acknowledges every full block, and
appends the final short payload before exiting.

The model has seven modules in six files:

- `Bytes` (`bytes.dfy`): Java's signed `byte` as the newtype `JByte`, and the
  `(byte)` cast as `Narrow`. The same file holds the module `Wrappers`, with
  `Option` and `Result`.
- `Network` (`network.dfy`): a `DatagramPacket` as a buffer plus a valid
  length. A receive into a fresh buffer becomes `ReceiveInto`. The outcomes of
  successive `receive` calls become a sequence of `Event`s (`Timeout` or a
  datagram with its source port). An exhausted sequence times out forever.
- `Codec` (`codec.dfy`): the `TftpPacket` constructor as the function
  `Decode`, including its two exceptions, and the block size 512 shared by
  both sides.
- `Worker` (`worker.dfy`): the two `MakeDataGramPacket` overloads, the
  constructor's request check (`Admit`), `GetBlocks` as a loop proved equal
  to the reference partition, and `sendBlocks` as a method. That method is
  proved equal to the recursive specification `SendFrom`, and its retry loop
  is a method of its own.
- `Client` (`client.dfy`): the client's static state as the class `Session`,
  with `WriteToFile`, `Acknowledge`, `handleClientPacket` and the receive loop
  of `main` (`Fetch`). Fetch is proved equal to the recursive specification
  `Listen`, built from the single-turn function `Step`.
- `Transfer` (`transfer.dfy`): both halves run against each other over a
  lossless link that hands each socket the datagrams addressed to its port
  (`Route`), and what the client's file ends up holding.

The source's numbering traps are kept as written:

- block numbers are signed bytes, and the worker numbers block `i` as
  `(byte)(i + 1)`;
- the client's `prevBlockNumber` starts at -1, and its sequence check compares
  as `int`;
- an ACK with an unexpected number moves the worker's cursor to that number
  plus one, and a negative cursor ends the session with an exception.

The client's in-sequence rule is a parameter (`Numbering`). `AsWritten` is the
source's rule, and `Fetch` uses it. `Corrected` is the rule the worker's
numbering calls for, and the findings below are stated against it.

The client's server port is a parameter too. `main` sets it to 69 before the
receive loop (TftpClient.java:86), so as written every acknowledgement goes to
the dispatcher's port rather than the worker's, and a file of 512 bytes or
more never gets past its first block (`Transfer.HardCodedPortStallsTransfer`,
finding 5). The whole-transfer lemmas that show blocks flowing assume a client
whose server port is unset, as its declaration at TftpClient.java:47 has it,
or already the worker's.

The model follows the code where it does something other than its own
comments say:

- The comment at TftpClient.java:189 reads the short-payload test as "all
  blocks received". In the code, `handleClientPacket` prints an ERROR packet's
  text (TftpClient.java:181-183) and then applies the same test to it
  (TftpClient.java:190-193): text shorter than 512 bytes is appended to the
  output file and the client exits (`Client.Step`).
- The comment and branch at TftpWorker.java:106-110 intend an ERROR reply to
  an ACK, and the message at line 112 intends a refusal of any other
  non-request tag. In the code neither happens (findings 3 and 4).

## Model

| member | source | states |
|---|---|---|
| Bytes.Narrow | TftpWorker.java:185 | the `(byte)` cast: the result differs from its argument by a multiple of 256, and it is the identity on values already in -128..127 |
| Bytes.NarrowPredecessor | TftpWorker.java:185 | subtracting one from the number `(byte)(k + 1)` and narrowing gives `(byte)k`, the previous block's number |
| Network.ReceiveInto | TftpClient.java:116-124 | a receive into a fresh buffer keeps at most the buffer's size of the datagram, sets the length to the bytes kept, and leaves the rest of the buffer zero |
| Network.NextEvent | TftpClient.java:123 | one `receive` call: the next outcome of the stream while any is left, a timeout once it is exhausted |
| Codec.Decode | TftpPacket.java:38-53 | decoding succeeds exactly when no index or range exception is raised. The tag is byte 0. DATA and ACK take byte 1 as block number, other tags keep 0. The data is absent exactly for ACK, and otherwise is the valid bytes from offset 2 (DATA) or 1 (others) |
| Codec.DecodeAcceptsEveryTag | TftpPacket.java:40 | no tag is rejected: any datagram with two or more valid bytes decodes, keeping byte 0 as its tag |
| Codec.DecodeIgnoresSlack | TftpPacket.java:49-51 | two datagrams with the same valid bytes decode alike, whatever lies past the length |
| Codec.DecodeReceived | TftpPacket.java:38-53 | a datagram received into a buffer at least as large as it decodes as the datagram sent |
| Worker.MakeDatagram | TftpWorker.java:346-354 | the encoded packet is the tag followed by the data |
| Worker.MakeBlockDatagram | TftpWorker.java:370-380 | the encoded packet is the tag, then the block number, then the data |
| Worker.DecodeMakeDatagram | TftpWorker.java:346-354 | decoding inverts the two-argument encoder for every tag without a block number |
| Worker.DecodeMakeBlockDatagram | TftpWorker.java:370-380 | decoding inverts the three-argument encoder for DATA: number and data come back |
| Worker.DecodeMakeAckDatagram | TftpPacket.java:42-51 | an encoded ACK decodes to its number with no data, whatever payload was attached |
| Worker.EncodeDecoded | TftpPacket.java:38-53 | re-encoding any decoded non-ACK packet gives back exactly the datagram's valid bytes |
| Worker.Admit | TftpWorker.java:90-116 | as written, the dispatcher serves a request exactly when it decodes with a tag other than ACK, serves it for the file named by its data, and never sends a refusal |
| Worker.AdmitCorrected | TftpWorker.java:106-114 | with the check as intended, only RRQ is served, and exactly the ACKs are answered, with ERROR `[8]` |
| Worker.AdmitDropsAck | TftpWorker.java:96-110 | an ACK sent to the server gets no reply as written, and the ERROR `[4, 8]` reply once corrected |
| Worker.AdmitServesAnyTag | TftpWorker.java:111-114 | as written, an ERROR packet starts a transfer of the file named by its text; once corrected it is refused without reply |
| Worker.Partition | TftpWorker.java:298-330 | the reference partition has ceil(L/512) blocks, each of 1 to 512 bytes |
| Worker.PartitionFlattens | TftpWorker.java:298-330 | concatenating the blocks gives back the file |
| Worker.PartitionAt | TftpWorker.java:314-326 | block `k` is the file from byte `512k` to `512(k+1)` or the end of the file |
| Worker.PartitionShape | TftpWorker.java:305-326 | every block but the last is full. The last holds `L mod 512` bytes, or 512 when that is 0. There are `L/512` blocks when 512 divides `L` and `L/512 + 1` otherwise |
| Worker.GetBlocks | TftpWorker.java:298-330 | the loop over start and end positions produces exactly the reference partition |
| Worker.DataPacket | TftpWorker.java:185-189 | block index `i` goes out as a datagram that decodes as DATA numbered `(byte)(i + 1)` carrying exactly block `i` |
| Worker.TerminalPacket | TftpWorker.java:243-246 | the closing packet is DATA numbered `(byte)(count + 1)` with the single payload byte 0 |
| Worker.Await | TftpWorker.java:205-227 | a reply comes after fewer than six timeouts and consumes at least one receive outcome |
| Worker.NextCursor | TftpWorker.java:238-240 | the block cursor after an ACK numbered `m` answers block `i`: one past `i` when `m` is `(byte)(i + 1)`; otherwise `m + 1`, the jump to `m` followed by the loop's increment, which lies in -127..128 |
| Worker.SendFrom | TftpWorker.java:183-255 | the reference definition of the sending session from cursor `i`: every datagram it sends is a DATA packet, and it sends nothing exactly when the cursor is negative, in which case it crashes at once |
| Worker.SendBlocks | TftpWorker.java:177-259 | the datagrams sent and the way the session ends are exactly those of the specification `SendFrom` from block 0 |
| Worker.AwaitAck | TftpWorker.java:200-240 | one full block's wait and cursor update: either the session ends as `SendFrom` says, or `SendFrom` continues from the returned cursor after the sends made |
| Worker.AwaitReply | TftpWorker.java:205-227 | the retry loop resends the block after each timeout but the sixth, and returns the first datagram or nothing after six timeouts |
| Worker.Run | TftpWorker.java:144-146 | once the file is read, the session sends what `SendFrom` says for the partition of its contents |
| Worker.AwaitSilence | TftpWorker.java:209-224 | only timeouts: the wait ends with no reply |
| Worker.AwaitAfterTimeouts | TftpWorker.java:209-227 | a datagram after `t < 6` timeouts is the reply, and what follows stays unread |
| Worker.SilentClientSixSends | TftpWorker.java:205-226 | a client that never answers receives a full block exactly six times, then the session gives up |
| Worker.ReplyAfterTimeouts | TftpWorker.java:229-240 | after `t` timeouts and a reply, the block went out `t + 1` times. A non-ACK ends the session. An ACK moves the cursor by one on a matching number and to the acked number plus one otherwise. A negative cursor crashes, and a cursor past the end sends the terminal packet |
| Worker.CompletedSendsTerminalOnce | TftpWorker.java:243-255 | a completed session sends the terminal packet last, and every earlier datagram carries a full block, so the terminal packet goes out once |
| Client.RequestMessage | TftpClient.java:99-103 | the request is the file name prefixed by tag 1, and it decodes as RRQ carrying that name |
| Client.AckMessage | TftpClient.java:218-220 | the acknowledgement decodes, from the worker's 2-byte buffer, as ACK with the acknowledged number |
| Client.InSequence | TftpClient.java:144 | as written, a full block is in sequence exactly when `prev` is not 127 and its number is `prev + 1`; under the corrected rule, exactly when its number is `(byte)(prev + 1)` |
| Client.Bind | TftpClient.java:127-129 | a set server port is kept, and an unset one (0) takes the datagram's source port |
| Client.InitialPrev | TftpClient.java:111 | the initial `prevBlockNumber`: as written (-1) the only full block in sequence at first is the one numbered 0; corrected, only the one numbered `(byte)1`, the worker's first number |
| Client.Start | TftpClient.java:98-111 | the state before the receive loop: the given server port and file contents, `prevBlockNumber` initialised, and one datagram appended to those sent, addressed to port 69 and decoding as RRQ for the file name |
| Client.Classify | TftpClient.java:175-202 | a packet without data fails. One with fewer than 512 bytes is final, with its data. Any other is a full block with its number and data |
| Client.Step | TftpClient.java:114-155 | one turn of the loop. A timeout ends the client untouched. A datagram binds the server port. An undecodable datagram or an ACK crashes the client. A short payload is appended and finishes it. A full block is appended only when in sequence (and then becomes `prev`), and is acknowledged once at the bound port either way |
| Client.Listen | TftpClient.java:114-156 | over the whole loop the output only grows, sent datagrams stay sent, and a bound server port is never rebound |
| Client.Session.constructor | TftpClient.java:86 | a session starts with the server port given, the existing file contents, and nothing sent |
| Client.Session.WriteToFile | TftpClient.java:259-280 | the data is appended to the file |
| Client.Session.Acknowledge | TftpClient.java:215-228 | exactly one ACK for the given number is sent, to the server port |
| Client.Session.HandleClientPacket | TftpClient.java:175-202 | the packet is classified as `Classify` says, and only a final packet's data is written |
| Client.Session.Fetch | TftpClient.java:96-156 | after sending the request, the loop ends in exactly the state and outcome `Listen` gives from the start state with `prevBlockNumber = -1` |
| Client.FirstFullBlockNeedsZero | TftpClient.java:110-146 | with `prevBlockNumber = -1`, a first full block is written if and only if it is numbered 0 |
| Client.DuplicateIgnored | TftpClient.java:144-155 | a full block delivered again right after being written is not written twice, but is acknowledged again with the same ACK |
| Client.BindsOnFirstContact | TftpClient.java:124-129 | with no server port set, the first datagram's source port becomes the server port for the rest of the session |
| Transfer.SenderLossless | TftpWorker.java:183-255 | when each full block is acknowledged at once, the worker sends each block once, in order. It completes with the terminal packet exactly when every block is full, and otherwise ends on the short block |
| Transfer.ReceiverLossless | TftpClient.java:114-156 | reading the worker's datagrams, the client finishes with the server port `Bind(serverPort, workerPort)` (the worker's port only if it was unset), sends one ACK per full block to that port, and appends exactly what `Written` says |
| Transfer.LosslessTransfer | TftpClient.java:114-156 | a whole transfer over a lossless link, for a client whose server port is unset or the worker's: the worker reads exactly the ACKs the client addresses to it, completes if and only if 512 divides the file's length, and the client finishes with one ACK per full block and `Written` appended |
| Transfer.CorrectedWritesAll | TftpClient.java:144-147 | under the corrected rule every block is written in order, followed by the terminal byte when all blocks are full |
| Transfer.AsWrittenWritesLastOnly | TftpClient.java:110-147 | under the as-written rule, with up to 255 blocks, no full block is ever in sequence, so only the last payload is written |
| Transfer.AsWrittenKeepsLastPayload | TftpClient.java:110-147 | with the numbering as written and the ACKs reaching the worker, a transfer of a file of up to 255 blocks leaves the client with only the bytes after the last full block, or `[0]` |
| Transfer.TwoBlockFileLost | TftpClient.java:110-147 | for a client started with its server port unset, a 1024-byte file is sent as DATA 1, DATA 2 and DATA 3 `[0]`. With the numbering as written the client ends with `[0]`, and with the corrected numbering with the file followed by `[0]` |
| Transfer.StuckAfter127 | TftpClient.java:144 | as written, no number is in sequence once `prevBlockNumber` is 127, while the worker's next number `(byte)128` is in sequence under the corrected rule |
| Transfer.CorrectedRoundTrip | TftpClient.java:144-147 | under the corrected rule, with the ACKs addressed to the worker, a lossless transfer appends the whole file, plus the terminal byte when 512 divides its length |
| Transfer.RepeatedBlockNotWritten | TftpClient.java:141-155 | a full block out of sequence, delivered `k` times, is acknowledged `k` times at the bound port and never written, and the client then times out |
| Transfer.HardCodedPortStallsTransfer | TftpClient.java:86 | as written (server port 69), for a file of at least 512 bytes: the client's ACKs all go to port 69, where each is dropped, so none reaches the worker; the worker sends DATA 1 six times and gives up; the client writes nothing and times out |
| Transfer.FixedClientFetchesFile | TftpClient.java:124-129 | with the server port left unset until the first response and the corrected numbering, the worker reads exactly the ACKs the client addresses to it, and the client finishes with the whole file, plus the terminal byte when 512 divides its length |

## Left out

- `TftpServer` is not part of this model. Its accept loop, threads and worker list are concurrency. `Admit` records only the one fact about it that matters: a worker whose constructor returns normally is started.
- `ReadFile` is not modelled. Reading the file is I/O: `Worker.Run` takes the contents. On a read failure, `ReadFile` sends ERROR "File note found", returns an empty array, and the session then sends the terminal packet for zero blocks. That path is not modelled.
- Real sockets, addresses and wall-clock timeouts are not modelled. Each `receive` is one element of a sequence of outcomes, and 30-second and 5-second timeouts alike are `Timeout`. Only ports are kept. The worker's datagrams all go to the requesting client, so they are recorded without a destination.
- Sends never fail in the model. `Respond` swallows send exceptions, and the model does not capture a dropped send.
- Console logging, and the printing of an ERROR packet's text, are not modelled. `System.exit(0)` is the outcome `Finished`.
- The client's hard-coded host, file name and save location are not modelled (TftpClient.java:73-88). `serverPort` is a constructor parameter; `main`'s value 69 is the one `HardCodedPortStallsTransfer` starts from. The output file's earlier contents are a constructor parameter.
- The static `repsonseBuffer` is not a field: `HandleClientPacket` returns the data it would have stored, and `Fetch` writes it.
- The catch in `handleClientPacket` that returns -1 is not modelled, because `new String` on a byte array never throws there.
- Worker.GetBlocks: does not model Java `int` overflow of `endPos` for files within 512 bytes of 2^31, because Java arrays of that size are out of reach of the transfer anyway.
- Transfer.AsWrittenKeepsLastPayload: stated only for files of at most 255 blocks. Beyond that, block numbers wrap and the as-written rule can accept block 256 (numbered 0), which the general statement would have to track.
- Transfer.LosslessTransfer: requires the client's server port to be unset or the worker's, so that its ACKs reach the worker. `main` as written never starts that way; what it does instead is `HardCodedPortStallsTransfer` (finding 5).
- Transfer.AsWrittenKeepsLastPayload, Transfer.TwoBlockFileLost and Transfer.CorrectedRoundTrip: the same requirement. They isolate the numbering findings 1 and 2 from finding 5.
- The dispatcher's handling of an ACK that reaches port 69 is modelled only as `Admit` on that one datagram; the dispatcher's further requests are not modelled.
- Retransmissions by the worker are covered for one block (`SilentClientSixSends`, `ReplyAfterTimeouts`). The whole-transfer lemmas assume a lossless link, and the model has no whole-transfer result for lossy runs.

## Findings

| source | as written | input that shows it | evidently intended | confidence | as-written member | corrected member |
|---|---|---|---|---|---|---|
| TftpClient.java:111 | `prevBlockNumber` starts at -1, while the worker numbers the first block 1, so none of the first 255 full blocks is in sequence | a 1024-byte file, with the server port left unset so that the ACKs reach the worker (finding 5): the client's output is the single byte 0 | start at 0, so that block 1 is in sequence | high, not executed | Transfer.TwoBlockFileLost | Transfer.CorrectedRoundTrip |
| TftpClient.java:144 | `responseBlockNumber - 1 == prevBlockNumber` compares in `int`, so after block 127 the worker's `(byte)128 = -128` is never in sequence | `prevBlockNumber` at 127 and the next full block, numbered `(byte)128 = -128`: it is not written, and neither is any later block | compare in wrapped byte arithmetic, matching the worker's `(byte)(i + 1)` | high, not executed | Transfer.StuckAfter127 | Transfer.CorrectedRoundTrip |
| TftpWorker.java:96 | the file name is read from `request.data` before the tag check, and an ACK has null data, so the constructor throws and the ERROR reply at line 110 is never sent | ACK `[3, 0]` sent to port 69 | reply with ERROR `[4, 8]` | high, not executed | Worker.AdmitDropsAck | Worker.AdmitCorrected |
| TftpWorker.java:111-114 | a non-request tag only returns from the constructor, and the dispatcher starts the worker anyway | ERROR `[4] + "a.txt"` sent to port 69: the file `a.txt` is sent back | refuse anything but RRQ | high, not executed | Worker.AdmitServesAnyTag | Worker.AdmitCorrected |
| TftpClient.java:86 | `main` sets `serverPort` to 69 before the receive loop, so the binding at lines 127-129 never fires and every ACK (lines 152-155) goes to the dispatcher's port, where `new TftpWorker` throws on it (TftpWorker.java:96) | any file of 512 bytes or more: the worker, on its own port, sends DATA 1 six times and gives up; the client writes nothing and times out | leave `serverPort` at 0 until the first response | high, not executed | Transfer.HardCodedPortStallsTransfer | Transfer.FixedClientFetchesFile |
