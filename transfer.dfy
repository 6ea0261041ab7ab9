/**
 * Both halves together over a lossless link, which hands each socket the
 * datagrams addressed to its port. When the client's acknowledgements are
 * addressed to the worker, the worker sends each block once, the client
 * acknowledges each full block once, and each side reads exactly what the
 * other sent to it; what ends up in the client's file then depends on the
 * client's block-numbering rule. With the server port `main` fixes, the
 * acknowledgements go to the dispatcher instead and the transfer stalls.
 */
module Transfer {
  import opened Bytes
  import opened Wrappers
  import opened Network
  import opened Codec
  import opened Worker
  import opened Client

  /** The shape `Partition` produces: no block empty or over 512 bytes, all but the last full. */
  predicate Framed(blocks: seq<seq<JByte>>)
  {
    && (forall k :: 0 <= k < |blocks| ==> 0 < |blocks[k]| <= BLOCK_SIZE)
    && (forall k :: 0 <= k < |blocks| - 1 ==> |blocks[k]| == BLOCK_SIZE)
  }

  lemma PartitionFramed(data: seq<JByte>)
    ensures Framed(Partition(data))
  {
    PartitionShape(data);
  }

  /** Every block from `i` on is full. */
  predicate AllFullFrom(blocks: seq<seq<JByte>>, i: nat)
  {
    forall k :: i <= k < |blocks| ==> |blocks[k]| >= BLOCK_SIZE
  }

  /** The datagrams the worker sends from block `i` on when every full block is acknowledged at once. */
  function DataStream(blocks: seq<seq<JByte>>, i: nat): seq<seq<JByte>>
    decreases |blocks| - i
  {
    if i >= |blocks| then [TerminalPacket(|blocks|)]
    else if |blocks[i]| < BLOCK_SIZE then [DataPacket(blocks, i)]
    else [DataPacket(blocks, i)] + DataStream(blocks, i + 1)
  }

  /** The acknowledgements for the full blocks from `i` up to the first short one, sent to `port`. */
  function AckStream(blocks: seq<seq<JByte>>, i: nat, port: int): (acks: seq<Outbound>)
    ensures forall k :: 0 <= k < |acks| ==> acks[k].toPort == port
    decreases |blocks| - i
  {
    if i >= |blocks| || |blocks[i]| < BLOCK_SIZE then []
    else [Outbound(AckMessage(Narrow(i + 1)), port)] + AckStream(blocks, i + 1, port)
  }

  function Payloads(outs: seq<Outbound>): (ps: seq<seq<JByte>>)
    ensures |ps| == |outs|
    ensures forall k :: 0 <= k < |ps| ==> ps[k] == outs[k].payload
  {
    if outs == [] then [] else [outs[0].payload] + Payloads(outs[1..])
  }

  /** What a lossless link hands to the socket bound at `port`: the payloads of the datagrams addressed to it, in order. */
  function Route(outs: seq<Outbound>, port: int): (ps: seq<seq<JByte>>)
    ensures |ps| <= |outs|
  {
    if outs == [] then []
    else (if outs[0].toPort == port then [outs[0].payload] else []) + Route(outs[1..], port)
  }

  lemma {:induction false} RouteAppend(a: seq<Outbound>, b: seq<Outbound>, port: int)
    ensures Route(a + b, port) == Route(a, port) + Route(b, port)
    decreases |a|
  {
    if a != [] {
      assert (a + b)[0] == a[0];
      assert (a + b)[1..] == a[1..] + b;
      RouteAppend(a[1..], b, port);
      var head := if a[0].toPort == port then [a[0].payload] else [];
      assert Route(a + b, port) == head + (Route(a[1..], port) + Route(b, port));
      assert Route(a, port) == head + Route(a[1..], port);
    } else {
      assert a + b == b;
    }
  }

  /** Datagrams all addressed to `port` reach it, every one, in order. */
  lemma {:induction false} RouteAddressed(outs: seq<Outbound>, port: int)
    requires forall k :: 0 <= k < |outs| ==> outs[k].toPort == port
    ensures Route(outs, port) == Payloads(outs)
    decreases |outs|
  {
    if outs != [] {
      RouteAddressed(outs[1..], port);
    }
  }

  /** Datagrams none of which is addressed to `port` never reach it. */
  lemma {:induction false} RouteMisses(outs: seq<Outbound>, port: int)
    requires forall k :: 0 <= k < |outs| ==> outs[k].toPort != port
    ensures Route(outs, port) == []
    decreases |outs|
  {
    if outs != [] {
      RouteMisses(outs[1..], port);
    }
  }

  /**
   * What the client appends, block by block, when it reads `DataStream(blocks, i)`
   * with `prev` as its last accepted number: a short block or the terminal
   * payload in full, a full block only when its number is in sequence.
   */
  function Written(rule: Numbering, blocks: seq<seq<JByte>>, i: nat, prev: JByte): seq<JByte>
    decreases |blocks| - i
  {
    if i >= |blocks| then [0]
    else if |blocks[i]| < BLOCK_SIZE then blocks[i]
    else if InSequence(rule, Narrow(i + 1), prev) then blocks[i] + Written(rule, blocks, i + 1, Narrow(i + 1))
    else Written(rule, blocks, i + 1, prev)
  }

  /** The worker's half: acknowledged at once, it sends each block once, then the terminal packet if every block was full. */
  lemma {:induction false} SenderLossless(blocks: seq<seq<JByte>>, i: nat, ackPort: int, clientPort: int)
    requires i <= |blocks|
    ensures SendFrom(blocks, i, Deliver(Payloads(AckStream(blocks, i, ackPort)), clientPort))
            == Trace(DataStream(blocks, i), if AllFullFrom(blocks, i) then Completed else LastBlockSent)
    decreases |blocks| - i, 1
  {
    if i < |blocks| && |blocks[i]| >= BLOCK_SIZE {
      SenderFull(blocks, i, ackPort, clientPort);
    } else if i < |blocks| {
      assert !AllFullFrom(blocks, i) by {
        assert |blocks[i]| < BLOCK_SIZE;
      }
    }
  }

  /** A full block is sent once, acknowledged, and the session goes on from the next block. */
  lemma {:induction false} SenderFull(blocks: seq<seq<JByte>>, i: nat, ackPort: int, clientPort: int)
    requires i < |blocks| && |blocks[i]| >= BLOCK_SIZE
    ensures SendFrom(blocks, i, Deliver(Payloads(AckStream(blocks, i, ackPort)), clientPort))
            == Trace(DataStream(blocks, i), if AllFullFrom(blocks, i) then Completed else LastBlockSent)
    decreases |blocks| - i, 0
  {
    var rest := Deliver(Payloads(AckStream(blocks, i + 1, ackPort)), clientPort);
    assert SendFrom(blocks, i, Deliver(Payloads(AckStream(blocks, i, ackPort)), clientPort))
           == Prepend([DataPacket(blocks, i)], SendFrom(blocks, i + 1, rest)) by {
      AcksAfterFull(blocks, i, ackPort, clientPort);
      assert Repeat(Timeout, 0) + [Received(AckMessage(Narrow(i + 1)), clientPort)] + rest
             == [Received(AckMessage(Narrow(i + 1)), clientPort)] + rest;
      ReplyAfterTimeouts(blocks, i, 0, AckMessage(Narrow(i + 1)), clientPort, rest);
      assert Repeat(DataPacket(blocks, i), 1) == [DataPacket(blocks, i)];
    }
    SenderLossless(blocks, i + 1, ackPort, clientPort);
    assert AllFullFrom(blocks, i) == AllFullFrom(blocks, i + 1);
  }

  /** Over a lossless link, a full block's acknowledgement comes first, then the rest. */
  lemma AcksAfterFull(blocks: seq<seq<JByte>>, i: nat, ackPort: int, clientPort: int)
    requires i < |blocks| && |blocks[i]| >= BLOCK_SIZE
    ensures Deliver(Payloads(AckStream(blocks, i, ackPort)), clientPort)
            == [Received(AckMessage(Narrow(i + 1)), clientPort)]
               + Deliver(Payloads(AckStream(blocks, i + 1, ackPort)), clientPort)
  {
    var ack := Outbound(AckMessage(Narrow(i + 1)), ackPort);
    var rest := AckStream(blocks, i + 1, ackPort);
    assert AckStream(blocks, i, ackPort) == [ack] + rest;
    PayloadsCons(ack, rest);
    DeliverCons(ack.payload, Payloads(rest), clientPort);
  }

  lemma PayloadsCons(out: Outbound, outs: seq<Outbound>)
    ensures Payloads([out] + outs) == [out.payload] + Payloads(outs)
  {
    assert ([out] + outs)[1..] == outs;
  }

  lemma DeliverCons(payload: seq<JByte>, payloads: seq<seq<JByte>>, from: int)
    ensures Deliver([payload] + payloads, from) == [Received(payload, from)] + Deliver(payloads, from)
  {
    assert ([payload] + payloads)[1..] == payloads;
  }

  /** A block datagram as the client decodes it. */
  lemma IncomingBlock(n: JByte, data: seq<JByte>)
    requires |data| <= BLOCK_SIZE
    ensures Incoming(MakeBlockDatagram(DATA, n, data)) == Success(Packet(DATA, n, Some(data)))
  {
    DecodeReceived(RECEIVE_BUFFER_SIZE, MakeBlockDatagram(DATA, n, data));
    DecodeMakeBlockDatagram(n, data);
  }

  /** One turn of the client's loop on a DATA datagram that fits a block. */
  lemma StepOnBlock(rule: Numbering, s: Receiver, n: JByte, data: seq<JByte>, from: int)
    requires |data| <= BLOCK_SIZE
    ensures var port := Bind(s.serverPort, from);
            var accept := InSequence(rule, n, s.prev);
            Step(rule, s, Received(MakeBlockDatagram(DATA, n, data), from))
            == if |data| < BLOCK_SIZE then Stop(s.(serverPort := port, output := s.output + data), Finished)
               else Continue(Receiver(port, if accept then n else s.prev,
                                      s.output + (if accept then data else []),
                                      s.sent + [Outbound(AckMessage(n), port)]))
  {
    IncomingBlock(n, data);
  }

  /** The client's state after a full block numbered `n`, received from `from`. */
  function AfterFull(rule: Numbering, s: Receiver, n: JByte, data: seq<JByte>, from: int): Receiver
  {
    var port := Bind(s.serverPort, from);
    var accept := InSequence(rule, n, s.prev);
    Receiver(port, if accept then n else s.prev, s.output + (if accept then data else []),
             s.sent + [Outbound(AckMessage(n), port)])
  }

  /** A full block at the head of the stream advances the receive loop by one turn. */
  lemma ListenOnFullBlock(rule: Numbering, s: Receiver, n: JByte, data: seq<JByte>, from: int, rest: seq<Event>)
    requires |data| == BLOCK_SIZE
    ensures Listen(rule, s, [Received(MakeBlockDatagram(DATA, n, data), from)] + rest)
            == Listen(rule, AfterFull(rule, s, n, data, from), rest)
  {
    var inbox := [Received(MakeBlockDatagram(DATA, n, data), from)] + rest;
    StepOnBlock(rule, s, n, data, from);
    assert inbox[0] == Received(MakeBlockDatagram(DATA, n, data), from);
    assert inbox[1..] == rest;
  }

  /** Over a lossless link, a full block's datagram comes first, then the rest of the stream. */
  lemma StreamAfterFull(blocks: seq<seq<JByte>>, i: nat, from: int)
    requires i < |blocks| && |blocks[i]| >= BLOCK_SIZE
    ensures Deliver(DataStream(blocks, i), from)
            == [Received(DataPacket(blocks, i), from)] + Deliver(DataStream(blocks, i + 1), from)
  {
  }

  /**
   * The client's half: reading the worker's datagrams it acknowledges each
   * full block once at the bound port, appends what `Written` says and
   * finishes on the short block or the terminal packet.
   */
  lemma {:induction false} ReceiverLossless(rule: Numbering, blocks: seq<seq<JByte>>, i: nat, s: Receiver, workerPort: int)
    requires Framed(blocks) && i <= |blocks| && workerPort != 0
    ensures var e := Listen(rule, s, Deliver(DataStream(blocks, i), workerPort));
            var port := Bind(s.serverPort, workerPort);
            && e.outcome == Finished
            && e.last.serverPort == port
            && e.last.sent == s.sent + AckStream(blocks, i, port)
            && e.last.output == s.output + Written(rule, blocks, i, s.prev)
    decreases |blocks| - i, 1
  {
    if i == |blocks| || |blocks[i]| < BLOCK_SIZE {
      ReceiverLast(rule, blocks, i, s, workerPort);
    } else {
      ReceiverFull(rule, blocks, i, s, workerPort);
    }
  }

  /** A full block: one turn of the loop, then the rest of the stream from the next block. */
  lemma {:induction false} ReceiverFull(rule: Numbering, blocks: seq<seq<JByte>>, i: nat, s: Receiver, workerPort: int)
    requires Framed(blocks) && i < |blocks| && |blocks[i]| >= BLOCK_SIZE && workerPort != 0
    ensures var e := Listen(rule, s, Deliver(DataStream(blocks, i), workerPort));
            var port := Bind(s.serverPort, workerPort);
            && e.outcome == Finished
            && e.last.serverPort == port
            && e.last.sent == s.sent + AckStream(blocks, i, port)
            && e.last.output == s.output + Written(rule, blocks, i, s.prev)
    decreases |blocks| - i, 0
  {
    var port := Bind(s.serverPort, workerPort);
    var n := Narrow(i + 1);
    var t := AfterFull(rule, s, n, blocks[i], workerPort);
    assert Listen(rule, s, Deliver(DataStream(blocks, i), workerPort))
           == Listen(rule, t, Deliver(DataStream(blocks, i + 1), workerPort)) by {
      StreamAfterFull(blocks, i, workerPort);
      ListenOnFullBlock(rule, s, n, blocks[i], workerPort, Deliver(DataStream(blocks, i + 1), workerPort));
    }
    ReceiverLossless(rule, blocks, i + 1, t, workerPort);
    FullBlockBookkeeping(rule, blocks, i, s, workerPort, Listen(rule, t, Deliver(DataStream(blocks, i + 1), workerPort)).last);
  }

  /** What one full block adds to the acknowledgements and to the output, composed with the rest. */
  lemma FullBlockBookkeeping(rule: Numbering, blocks: seq<seq<JByte>>, i: nat, s: Receiver, workerPort: int, last: Receiver)
    requires i < |blocks| && |blocks[i]| >= BLOCK_SIZE
    requires var t := AfterFull(rule, s, Narrow(i + 1), blocks[i], workerPort);
             && last.sent == t.sent + AckStream(blocks, i + 1, t.serverPort)
             && last.output == t.output + Written(rule, blocks, i + 1, t.prev)
    ensures var port := Bind(s.serverPort, workerPort);
            && last.sent == s.sent + AckStream(blocks, i, port)
            && last.output == s.output + Written(rule, blocks, i, s.prev)
  {
    var port := Bind(s.serverPort, workerPort);
    var n := Narrow(i + 1);
    var t := AfterFull(rule, s, n, blocks[i], workerPort);
    var ack := Outbound(AckMessage(n), port);
    assert AckStream(blocks, i, port) == [ack] + AckStream(blocks, i + 1, port);
    AppendAssoc(s.sent, [ack], AckStream(blocks, i + 1, port));
    WrittenAfterFull(rule, blocks, i, s.prev);
    var kept := if InSequence(rule, n, s.prev) then blocks[i] else [];
    AppendAssoc(s.output, kept, Written(rule, blocks, i + 1, t.prev));
  }

  lemma AppendAssoc<T>(a: seq<T>, b: seq<T>, c: seq<T>)
    ensures (a + b) + c == a + (b + c)
  {
  }

  lemma WrittenAfterFull(rule: Numbering, blocks: seq<seq<JByte>>, i: nat, prev: JByte)
    requires i < |blocks| && |blocks[i]| >= BLOCK_SIZE
    ensures var accept := InSequence(rule, Narrow(i + 1), prev);
            Written(rule, blocks, i, prev)
            == (if accept then blocks[i] else []) + Written(rule, blocks, i + 1, if accept then Narrow(i + 1) else prev)
  {
  }

  /** The last datagram of the stream, short block or terminal packet, is written and ends the client. */
  lemma ReceiverLast(rule: Numbering, blocks: seq<seq<JByte>>, i: nat, s: Receiver, workerPort: int)
    requires Framed(blocks) && i <= |blocks| && workerPort != 0
    requires i == |blocks| || |blocks[i]| < BLOCK_SIZE
    ensures var e := Listen(rule, s, Deliver(DataStream(blocks, i), workerPort));
            && e.outcome == Finished
            && e.last.serverPort == Bind(s.serverPort, workerPort)
            && e.last.sent == s.sent + AckStream(blocks, i, Bind(s.serverPort, workerPort))
            && e.last.output == s.output + Written(rule, blocks, i, s.prev)
  {
    var payload := if i == |blocks| then [0] else blocks[i];
    StepOnBlock(rule, s, Narrow(i + 1), payload, workerPort);
    assert DataStream(blocks, i) == [MakeBlockDatagram(DATA, Narrow(i + 1), payload)];
  }

  /**
   * A whole transfer of `file` over a lossless link, with the client's server
   * port unset or already the worker's, so that its acknowledgements are
   * addressed to the worker. The worker reads exactly the acknowledgements the
   * client sends it, the client reads exactly the datagrams the worker sends,
   * both finish, and the worker completes (with the terminal packet) exactly
   * when 512 divides the file's length.
   */
  lemma LosslessTransfer(rule: Numbering, file: seq<JByte>, s: Receiver, workerPort: int, clientPort: int)
    requires workerPort != 0 && Bind(s.serverPort, workerPort) == workerPort
    ensures var blocks := Partition(file);
            var acks := AckStream(blocks, 0, workerPort);
            var server := SendFrom(blocks, 0, Deliver(Route(acks, workerPort), clientPort));
            var client := Listen(rule, s, Deliver(server.sent, workerPort));
            && server.outcome == (if |file| % BLOCK_SIZE == 0 then Completed else LastBlockSent)
            && client.outcome == Finished
            && client.last.sent == s.sent + acks
            && Route(client.last.sent, workerPort) == Route(s.sent, workerPort) + Route(acks, workerPort)
            && client.last.output == s.output + Written(rule, blocks, 0, s.prev)
  {
    var blocks := Partition(file);
    var acks := AckStream(blocks, 0, workerPort);
    PartitionShape(file);
    PartitionFramed(file);
    RouteAddressed(acks, workerPort);
    SenderLossless(blocks, 0, workerPort, clientPort);
    ReceiverLossless(rule, blocks, 0, s, workerPort);
    RouteAppend(s.sent, acks, workerPort);
    if |file| % BLOCK_SIZE != 0 {
      assert !AllFullFrom(blocks, 0) by {
        assert |blocks[|blocks| - 1]| < BLOCK_SIZE;
      }
    }
  }

  /** With the corrected rule every block is written, in order: the file, plus the terminal byte when 512 divides its length. */
  lemma {:induction false} CorrectedWritesAll(blocks: seq<seq<JByte>>, i: nat)
    requires Framed(blocks) && i <= |blocks|
    ensures Written(Corrected, blocks, i, Narrow(i))
            == Flatten(blocks[i..]) + (if AllFullFrom(blocks, i) then [0] else [])
    decreases |blocks| - i
  {
    if i < |blocks| {
      if |blocks[i]| < BLOCK_SIZE {
        assert i == |blocks| - 1;
        assert blocks[i..][1..] == [];
      } else {
        NarrowPredecessor(i);
        CorrectedWritesAll(blocks, i + 1);
        assert blocks[i..][1..] == blocks[i + 1..];
      }
    }
  }

  /** With the as-written rule and at most 255 blocks, no full block is ever in sequence: only the last payload is written. */
  lemma {:induction false} AsWrittenWritesLastOnly(blocks: seq<seq<JByte>>, i: nat)
    requires Framed(blocks) && i <= |blocks| <= 255
    ensures Written(AsWritten, blocks, i, InitialPrev(AsWritten))
            == if AllFullFrom(blocks, i) then [0] else blocks[|blocks| - 1]
    decreases |blocks| - i
  {
    if i < |blocks| && |blocks[i]| >= BLOCK_SIZE {
      assert Narrow(i + 1) != 0 by {
        assert (Narrow(i + 1) as int - (i + 1)) % 256 == 0;
      }
      AsWrittenWritesLastOnly(blocks, i + 1);
    }
  }

  /** The bytes after the last full block, or the terminal payload `[0]` when 512 divides the length. */
  function LastPayload(file: seq<JByte>): seq<JByte>
  {
    if |file| % BLOCK_SIZE == 0 then [0]
    else file[BLOCK_SIZE * (|file| / BLOCK_SIZE)..]
  }

  /**
   * The numbering as written, once the acknowledgements reach the worker: a
   * client starting from `prevBlockNumber = -1` against a worker numbering
   * from 1 writes none of the full blocks of a file of up to 255 blocks, only
   * the final short payload.
   */
  lemma AsWrittenKeepsLastPayload(file: seq<JByte>, s: Receiver, workerPort: int, clientPort: int)
    requires workerPort != 0 && Bind(s.serverPort, workerPort) == workerPort
    requires s.prev == InitialPrev(AsWritten)
    requires |file| <= 255 * BLOCK_SIZE
    ensures var blocks := Partition(file);
            var server := SendFrom(blocks, 0, Deliver(Route(AckStream(blocks, 0, workerPort), workerPort), clientPort));
            Listen(AsWritten, s, Deliver(server.sent, workerPort)).last.output == s.output + LastPayload(file)
  {
    var blocks := Partition(file);
    LosslessTransfer(AsWritten, file, s, workerPort, clientPort);
    PartitionShape(file);
    PartitionFramed(file);
    AsWrittenWritesLastOnly(blocks, 0);
    LastBlockPayload(file);
  }

  /** The payload that ends a transfer of `file`: its short last block, or the terminal `[0]`. */
  lemma LastBlockPayload(file: seq<JByte>)
    ensures var blocks := Partition(file);
            LastPayload(file) == if AllFullFrom(blocks, 0) then [0] else blocks[|blocks| - 1]
  {
    var blocks := Partition(file);
    PartitionShape(file);
    if |file| % BLOCK_SIZE != 0 {
      var last := |blocks| - 1;
      PartitionAt(file, last);
      assert !AllFullFrom(blocks, 0) by {
        assert |blocks[last]| < BLOCK_SIZE;
      }
    }
  }

  /** A file of two full blocks is sent as DATA 1, DATA 2, then the terminal DATA 3 `[0]`. */
  lemma TwoBlockStream(file: seq<JByte>)
    requires |file| == 2 * BLOCK_SIZE
    ensures DataStream(Partition(file), 0)
            == [MakeBlockDatagram(DATA, 1, file[..512]), MakeBlockDatagram(DATA, 2, file[512..]),
                MakeBlockDatagram(DATA, 3, [0])]
  {
    var blocks := Partition(file);
    PartitionShape(file);
    PartitionAt(file, 0);
    PartitionAt(file, 1);
    assert blocks == [file[..512], file[512..]];
    assert Narrow(1) == 1 && Narrow(2) == 2 && Narrow(3) == 3;
    assert DataStream(blocks, 1) == [DataPacket(blocks, 1)] + DataStream(blocks, 2);
  }

  /**
   * A concrete case: a file of two full blocks, requested by a client whose
   * server port is left unset so that its acknowledgements reach the worker.
   * The worker sends DATA 1, DATA 2 and the terminal DATA 3 `[0]`; the client
   * with the numbering as written ends up with the single byte 0 instead of
   * the 1024 bytes sent, while the corrected client writes the whole file and
   * the terminal byte.
   */
  lemma TwoBlockFileLost(file: seq<JByte>, name: seq<JByte>, workerPort: int, clientPort: int)
    requires |file| == 2 * BLOCK_SIZE && workerPort != 0
    ensures var blocks := Partition(file);
            var server := SendFrom(blocks, 0, Deliver(Route(AckStream(blocks, 0, workerPort), workerPort), clientPort));
            && server.sent == [MakeBlockDatagram(DATA, 1, file[..512]), MakeBlockDatagram(DATA, 2, file[512..]),
                               MakeBlockDatagram(DATA, 3, [0])]
            && Listen(AsWritten, Start(AsWritten, 0, [], [], name), Deliver(server.sent, workerPort)).last.output
               == [0]
            && Listen(Corrected, Start(Corrected, 0, [], [], name), Deliver(server.sent, workerPort)).last.output
               == file + [0]
  {
    var blocks := Partition(file);
    var server := SendFrom(blocks, 0, Deliver(Route(AckStream(blocks, 0, workerPort), workerPort), clientPort));
    assert server.sent == DataStream(blocks, 0) by {
      RouteAddressed(AckStream(blocks, 0, workerPort), workerPort);
      SenderLossless(blocks, 0, workerPort, clientPort);
    }
    TwoBlockStream(file);
    assert Listen(AsWritten, Start(AsWritten, 0, [], [], name), Deliver(server.sent, workerPort)).last.output == [0] by {
      AsWrittenKeepsLastPayload(file, Start(AsWritten, 0, [], [], name), workerPort, clientPort);
      assert LastPayload(file) == [0];
    }
    assert Listen(Corrected, Start(Corrected, 0, [], [], name), Deliver(server.sent, workerPort)).last.output
           == file + [0] by {
      CorrectedRoundTrip(file, Start(Corrected, 0, [], [], name), workerPort, clientPort);
    }
  }

  /**
   * As written, once `prevBlockNumber` is 127 no number is ever in sequence
   * again, since `n - 1` never reaches 127 for a signed byte `n`; the worker's
   * next number, `(byte) 128`, is in sequence under the corrected rule.
   */
  lemma StuckAfter127()
    ensures forall n: JByte :: !InSequence(AsWritten, n, 127)
    ensures InSequence(Corrected, Narrow(128), 127)
  {
  }

  /**
   * With the corrected rule, and the acknowledgements addressed to the
   * worker, a lossless transfer reproduces the file, followed by the terminal
   * byte when 512 divides its length.
   */
  lemma CorrectedRoundTrip(file: seq<JByte>, s: Receiver, workerPort: int, clientPort: int)
    requires workerPort != 0 && Bind(s.serverPort, workerPort) == workerPort
    requires s.prev == InitialPrev(Corrected)
    ensures var blocks := Partition(file);
            var server := SendFrom(blocks, 0, Deliver(Route(AckStream(blocks, 0, workerPort), workerPort), clientPort));
            Listen(Corrected, s, Deliver(server.sent, workerPort)).last.output
            == s.output + file + (if |file| % BLOCK_SIZE == 0 then [0] else [])
  {
    var blocks := Partition(file);
    LosslessTransfer(Corrected, file, s, workerPort, clientPort);
    PartitionShape(file);
    PartitionFramed(file);
    PartitionFlattens(file);
    assert Narrow(0) == 0;
    CorrectedWritesAll(blocks, 0);
    assert blocks[0..] == blocks;
    if |file| % BLOCK_SIZE != 0 {
      assert !AllFullFrom(blocks, 0) by {
        assert |blocks[|blocks| - 1]| < BLOCK_SIZE;
      }
    }
  }

  /**
   * A full block that is not in sequence, delivered `k` times, is acknowledged
   * `k` times at the bound port and never written; then the stream runs dry
   * and the client times out.
   */
  lemma {:induction false} RepeatedBlockNotWritten(rule: Numbering, s: Receiver, n: JByte, data: seq<JByte>, from: int, k: nat)
    requires |data| == BLOCK_SIZE && !InSequence(rule, n, s.prev) && s.serverPort != 0
    ensures Listen(rule, s, Deliver(Repeat(MakeBlockDatagram(DATA, n, data), k), from))
            == Ending(s.(sent := s.sent + Repeat(Outbound(AckMessage(n), s.serverPort), k)), TimedOut)
    decreases k
  {
    var packet := MakeBlockDatagram(DATA, n, data);
    var ack := Outbound(AckMessage(n), s.serverPort);
    if k == 0 {
      assert Repeat(packet, 0) == [] && Repeat(ack, 0) == [];
      assert s.sent + [] == s.sent;
    } else {
      var t := AfterFull(rule, s, n, data, from);
      assert t == s.(sent := s.sent + [ack]);
      assert Repeat(packet, k) == [packet] + Repeat(packet, k - 1);
      DeliverCons(packet, Repeat(packet, k - 1), from);
      ListenOnFullBlock(rule, s, n, data, from, Deliver(Repeat(packet, k - 1), from));
      RepeatedBlockNotWritten(rule, t, n, data, from, k - 1);
      assert Repeat(ack, k) == [ack] + Repeat(ack, k - 1);
      AppendAssoc(s.sent, [ack], Repeat(ack, k - 1));
    }
  }

  /**
   * The program as written. `main` sets the server port to 69 before its
   * receive loop, so the first response never rebinds it and every
   * acknowledgement goes to the dispatcher's port, where it is dropped. For a
   * file of at least one full block, the worker (whose own port is not 69)
   * receives nothing, sends DATA 1 six times and gives up; the client
   * acknowledges each copy to port 69, writes nothing and times out.
   */
  lemma HardCodedPortStallsTransfer(file: seq<JByte>, name: seq<JByte>, workerPort: int, clientPort: int)
    requires |file| >= BLOCK_SIZE && workerPort != WELL_KNOWN_PORT
    ensures var blocks := Partition(file);
            var s := Start(AsWritten, WELL_KNOWN_PORT, [], [], name);
            var server := SendFrom(blocks, 0, []);
            var client := Listen(AsWritten, s, Deliver(server.sent, workerPort));
            && server == Trace(Repeat(MakeBlockDatagram(DATA, 1, file[..BLOCK_SIZE]), MAX_SENDS), GaveUp)
            && client.outcome == TimedOut
            && client.last.output == []
            && client.last.sent == s.sent + Repeat(Outbound(AckMessage(1), WELL_KNOWN_PORT), MAX_SENDS)
            && Route(client.last.sent, workerPort) == []
            && Admit(Outgoing(AckMessage(1))) == Refuse(None)
  {
    var blocks := Partition(file);
    var s := Start(AsWritten, WELL_KNOWN_PORT, [], [], name);
    PartitionAt(file, 0);
    assert blocks[0] == file[..BLOCK_SIZE];
    assert Narrow(1) == 1;
    SilentClientSixSends(blocks, 0, []);
    RepeatedBlockNotWritten(AsWritten, s, 1, blocks[0], workerPort, MAX_SENDS);
    var sent := s.sent + Repeat(Outbound(AckMessage(1), WELL_KNOWN_PORT), MAX_SENDS);
    assert forall k :: 0 <= k < |sent| ==> sent[k].toPort == WELL_KNOWN_PORT;
    RouteMisses(sent, workerPort);
    AdmitDropsAck(1);
    assert MakeBlockDatagram(ACK, 1, []) == AckMessage(1);
  }

  /**
   * The program with both corrections: the server port left at 0 until the
   * first response, and the corrected numbering. The worker reads exactly the
   * acknowledgements the client addresses to it, and the client ends with the
   * whole file (and the terminal byte when 512 divides its length).
   */
  lemma FixedClientFetchesFile(file: seq<JByte>, name: seq<JByte>, workerPort: int, clientPort: int)
    requires workerPort != 0 && workerPort != WELL_KNOWN_PORT
    ensures var blocks := Partition(file);
            var s := Start(Corrected, 0, [], [], name);
            var acks := AckStream(blocks, 0, workerPort);
            var server := SendFrom(blocks, 0, Deliver(Route(acks, workerPort), clientPort));
            var client := Listen(Corrected, s, Deliver(server.sent, workerPort));
            && Route(client.last.sent, workerPort) == Route(acks, workerPort)
            && server.outcome == (if |file| % BLOCK_SIZE == 0 then Completed else LastBlockSent)
            && client.outcome == Finished
            && client.last.output == file + (if |file| % BLOCK_SIZE == 0 then [0] else [])
  {
    var s := Start(Corrected, 0, [], [], name);
    LosslessTransfer(Corrected, file, s, workerPort, clientPort);
    CorrectedRoundTrip(file, s, workerPort, clientPort);
    RouteMisses(s.sent, workerPort);
    assert [] + file == file;
  }
}
