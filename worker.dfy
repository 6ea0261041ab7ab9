/**
 * The server-side transfer session (`TftpWorker`): admitting a request,
 * framing packets, cutting the file into 512-byte blocks and the
 * stop-and-wait loop that sends them.
 *
 * The worker's socket is modelled by what it sends (a sequence of datagram
 * payloads, all addressed to the requesting client) and by the sequence of
 * outcomes its `receive` calls produce.
 */
module Worker {
  import opened Bytes
  import opened Wrappers
  import opened Network
  import opened Codec

  /** One initial send and five resends per block. */
  const MAX_SENDS := 6
  /** The buffer the worker receives an ACK into. */
  const ACK_BUFFER_SIZE := 2

  function Repeat<T>(x: T, n: nat): (s: seq<T>)
    ensures |s| == n
    ensures forall k :: 0 <= k < n ==> s[k] == x
  {
    seq(n, _ => x)
  }

  // ---------------------------------------------------------------------
  // Framing: the two `MakeDataGramPacket` overloads
  // ---------------------------------------------------------------------

  /** A packet without a block number: the tag, then the data. */
  function MakeDatagram(ptype: JByte, data: seq<JByte>): (p: seq<JByte>)
    ensures |p| == |data| + 1 && p[0] == ptype && p[1..] == data
  {
    [ptype] + data
  }

  /** A packet with a block number: the tag, the number, then the data. */
  function MakeBlockDatagram(ptype: JByte, block: JByte, data: seq<JByte>): (p: seq<JByte>)
    ensures |p| == |data| + 2 && p[0] == ptype && p[1] == block && p[2..] == data
  {
    [ptype, block] + data
  }

  /** Decoding undoes the two-argument encoder for every tag that carries no block number. */
  lemma DecodeMakeDatagram(t: JByte, data: seq<JByte>)
    requires !Numbered(t)
    ensures Decode(Outgoing(MakeDatagram(t, data))) == Success(Packet(t, 0, Some(data)))
  {
    var p := MakeDatagram(t, data);
    assert p[1..|p|] == data;
  }

  /** Decoding undoes the three-argument encoder for DATA. */
  lemma DecodeMakeBlockDatagram(n: JByte, data: seq<JByte>)
    ensures Decode(Outgoing(MakeBlockDatagram(DATA, n, data))) == Success(Packet(DATA, n, Some(data)))
  {
    var p := MakeBlockDatagram(DATA, n, data);
    assert p[2..|p|] == data;
  }

  /** For an ACK the number survives and the payload is dropped. */
  lemma DecodeMakeAckDatagram(n: JByte, data: seq<JByte>)
    ensures Decode(Outgoing(MakeBlockDatagram(ACK, n, data))) == Success(Packet(ACK, n, None))
  {
  }

  /** The converse: re-encoding any decoded non-ACK packet gives back the valid bytes of the datagram. */
  lemma EncodeDecoded(d: Datagram)
    requires d.Valid() && Decode(d).Success? && Decode(d).value.ptype != ACK
    ensures var p := Decode(d).value;
            (if Numbered(p.ptype) then MakeBlockDatagram(p.ptype, p.blockNumber, p.data.value)
             else MakeDatagram(p.ptype, p.data.value))
            == d.buffer[..d.length]
  {
    var p := Decode(d).value;
    var o := Offset(p.ptype);
    assert p.data.value == d.buffer[o..d.length];
    if Numbered(p.ptype) {
      assert d.buffer[..d.length] == [d.buffer[0], d.buffer[1]] + d.buffer[2..d.length];
    } else {
      assert d.buffer[..d.length] == [d.buffer[0]] + d.buffer[1..d.length];
    }
  }

  // ---------------------------------------------------------------------
  // Admission: the constructor's request check
  // ---------------------------------------------------------------------

  /** Whether the dispatcher ends up running a transfer for a request, and what it replies. */
  datatype Admission = Serve(filename: seq<JByte>) | Refuse(reply: Option<seq<JByte>>)

  /**
   * The constructor as written. The filename is read from `request.data`
   * before the tag is looked at, so an ACK (whose data is null) throws and no
   * worker is created; the ERROR reply meant for it is never sent. Any other
   * tag only logs and returns from the constructor, and the dispatcher starts
   * the worker regardless.
   */
  function Admit(req: Datagram): (a: Admission)
    requires req.Valid()
    ensures a.Serve? <==> Decode(req).Success? && Decode(req).value.ptype != ACK
    ensures a.Serve? ==> Decode(req).value.data == Some(a.filename)
    ensures a.Refuse? ==> a.reply.None?
  {
    match Decode(req)
    case Failure(_) => Refuse(None)
    case Success(p) =>
      match p.data
      case None => Refuse(None)
      case Some(name) => Serve(name)
  }

  /** The check as its branches intend: RRQ is served, ACK is answered with ERROR [8], anything else is dropped. */
  function AdmitCorrected(req: Datagram): (a: Admission)
    requires req.Valid()
    ensures a.Serve? <==> Decode(req).Success? && Decode(req).value.ptype == RRQ
    ensures a.Serve? ==> Decode(req).value.data == Some(a.filename)
    ensures a.Refuse? && a.reply.Some? <==> Decode(req).Success? && Decode(req).value.ptype == ACK
    ensures a.Refuse? && a.reply.Some? ==> a.reply.value == MakeDatagram(ERROR, [8])
  {
    match Decode(req)
    case Failure(_) => Refuse(None)
    case Success(p) =>
      if p.ptype == ACK then Refuse(Some(MakeDatagram(ERROR, [8])))
      else if p.ptype != RRQ then Refuse(None)
      else Serve(p.data.value)
  }

  /** As written, an ACK sent to the well-known port gets no reply at all. */
  lemma AdmitDropsAck(n: JByte)
    ensures Admit(Outgoing(MakeBlockDatagram(ACK, n, []))) == Refuse(None)
    ensures AdmitCorrected(Outgoing(MakeBlockDatagram(ACK, n, []))) == Refuse(Some([ERROR, 8]))
  {
    DecodeMakeAckDatagram(n, []);
    assert MakeDatagram(ERROR, [8]) == [ERROR, 8];
  }

  /** As written, an ERROR packet is taken as a request for the file named by its text. */
  lemma AdmitServesAnyTag(text: seq<JByte>)
    ensures Admit(Outgoing(MakeDatagram(ERROR, text))) == Serve(text)
    ensures AdmitCorrected(Outgoing(MakeDatagram(ERROR, text))) == Refuse(None)
  {
    DecodeMakeDatagram(ERROR, text);
  }

  // ---------------------------------------------------------------------
  // Blocks: `GetBlocks`
  // ---------------------------------------------------------------------

  function Flatten(blocks: seq<seq<JByte>>): (s: seq<JByte>)
  {
    if blocks == [] then [] else blocks[0] + Flatten(blocks[1..])
  }

  function Min(a: int, b: int): int { if a <= b then a else b }

  /** The reference partition: 512-byte blocks, the last one possibly shorter, none empty. */
  function Partition(data: seq<JByte>): (blocks: seq<seq<JByte>>)
    ensures |blocks| == (|data| + BLOCK_SIZE - 1) / BLOCK_SIZE
    ensures forall k :: 0 <= k < |blocks| ==> 0 < |blocks[k]| <= BLOCK_SIZE
    decreases |data|
  {
    if |data| == 0 then []
    else if |data| <= BLOCK_SIZE then [data]
    else [data[..BLOCK_SIZE]] + Partition(data[BLOCK_SIZE..])
  }

  /** Concatenating the blocks gives the file back. */
  lemma {:induction false} PartitionFlattens(data: seq<JByte>)
    ensures Flatten(Partition(data)) == data
    decreases |data|
  {
    if |data| > BLOCK_SIZE {
      PartitionFlattens(data[BLOCK_SIZE..]);
      assert Partition(data)[1..] == Partition(data[BLOCK_SIZE..]);
      assert data == data[..BLOCK_SIZE] + data[BLOCK_SIZE..];
    }
  }

  /** Block `k` is the file's bytes from `512 k` up to `512 (k + 1)` or the end of the file. */
  lemma {:induction false} PartitionAt(data: seq<JByte>, k: nat)
    requires k < |Partition(data)|
    ensures BLOCK_SIZE * k < |data|
    ensures Partition(data)[k] == data[BLOCK_SIZE * k .. Min(BLOCK_SIZE * (k + 1), |data|)]
    decreases |data|
  {
    if k > 0 {
      var tail := data[BLOCK_SIZE..];
      PartitionAt(tail, k - 1);
      assert Partition(data)[k] == Partition(tail)[k - 1];
      assert tail[BLOCK_SIZE * (k - 1) .. Min(BLOCK_SIZE * k, |tail|)]
          == data[BLOCK_SIZE * k .. Min(BLOCK_SIZE * (k + 1), |data|)];
    }
  }

  /**
   * Every block but the last is full; the last holds `L mod 512` bytes when
   * that is nonzero and 512 otherwise; there are `L / 512` blocks when 512
   * divides `L` (none for an empty file) and `L / 512 + 1` otherwise.
   */
  lemma {:induction false} PartitionShape(data: seq<JByte>)
    ensures var blocks, L := Partition(data), |data|;
            && |blocks| == (if L % BLOCK_SIZE == 0 then L / BLOCK_SIZE else L / BLOCK_SIZE + 1)
            && (forall k :: 0 <= k < |blocks| - 1 ==> |blocks[k]| == BLOCK_SIZE)
            && (blocks != [] ==>
                  |blocks[|blocks| - 1]| == (if L % BLOCK_SIZE == 0 then BLOCK_SIZE else L % BLOCK_SIZE))
    decreases |data|
  {
    if |data| > BLOCK_SIZE {
      var tail := data[BLOCK_SIZE..];
      PartitionShape(tail);
      assert Partition(data) == [data[..BLOCK_SIZE]] + Partition(tail);
    }
  }

  /** `GetBlocks`: whole blocks while the end position stays inside the file, then the remainder if any. */
  method GetBlocks(data: seq<JByte>) returns (blocks: seq<seq<JByte>>)
    ensures blocks == Partition(data)
  {
    blocks := [];
    var dataLength := |data|;
    var amountOfFullBlocks := dataLength / BLOCK_SIZE;
    var startPos := 0;
    var endPos := BLOCK_SIZE;
    while endPos / BLOCK_SIZE != amountOfFullBlocks + 1
      invariant |blocks| <= amountOfFullBlocks
      invariant startPos == BLOCK_SIZE * |blocks| && endPos == startPos + BLOCK_SIZE
      invariant forall k :: 0 <= k < |blocks| ==>
                  blocks[k] == data[BLOCK_SIZE * k .. BLOCK_SIZE * (k + 1)]
      decreases amountOfFullBlocks - |blocks|
    {
      blocks := blocks + [data[startPos..endPos]];
      startPos := startPos + BLOCK_SIZE;
      endPos := endPos + BLOCK_SIZE;
    }
    if startPos != dataLength {
      blocks := blocks + [data[startPos..dataLength]];
    }
    assert |blocks| == |Partition(data)|;
    forall k | 0 <= k < |blocks|
      ensures blocks[k] == Partition(data)[k]
    {
      PartitionAt(data, k);
    }
  }

  // ---------------------------------------------------------------------
  // Sending: `sendBlocks`
  // ---------------------------------------------------------------------

  /** How a sending session ends. */
  datatype Outcome =
    | Completed      // the loop ran out: terminal packet sent, socket closed
    | LastBlockSent  // a block shorter than 512 bytes went out; no ACK is awaited
    | GaveUp         // six sends of one block met six timeouts
    | BadReply       // the reply to a block was not tagged ACK
    | Crashed        // an exception, caught at the end of `sendBlocks`, ended the session

  /** The datagrams a session sends, in order, and how it ends. */
  datatype Trace = Trace(sent: seq<seq<JByte>>, outcome: Outcome)

  function Prepend(sends: seq<seq<JByte>>, t: Trace): Trace
  {
    Trace(sends + t.sent, t.outcome)
  }

  lemma PrependTwice(a: seq<seq<JByte>>, b: seq<seq<JByte>>, t: Trace)
    ensures Prepend(a + b, t) == Prepend(a, Prepend(b, t))
  {
    assert (a + b) + t.sent == a + (b + t.sent);
  }

  /** Block index `i` goes out as DATA numbered `(byte)(i + 1)`. */
  function DataPacket(blocks: seq<seq<JByte>>, i: nat): (p: seq<JByte>)
    requires i < |blocks|
    ensures Decode(Outgoing(p)) == Success(Packet(DATA, Narrow(i + 1), Some(blocks[i])))
  {
    DecodeMakeBlockDatagram(Narrow(i + 1), blocks[i]);
    MakeBlockDatagram(DATA, Narrow(i + 1), blocks[i])
  }

  /** The packet sent once the loop runs out: DATA, numbered `(byte)(blocks.size() + 1)`, payload one zero byte. */
  function TerminalPacket(count: nat): (p: seq<JByte>)
    ensures p == MakeBlockDatagram(DATA, Narrow(count + 1), [0])
  {
    [DATA, Narrow(count + 1), 0]
  }

  /** The end of the wait for one block's reply. */
  datatype Wait =
    | Reply(timeouts: nat, payload: seq<JByte>, rest: seq<Event>)  // a datagram after `timeouts` timeouts
    | NoReply                                                      // the sixth timeout

  /**
   * The retry loop after a block's first send, with `timeouts` timeouts
   * already counted: each timeout is followed by a resend, except the sixth,
   * which ends the wait.
   */
  function Await(inbox: seq<Event>, timeouts: nat): (w: Wait)
    requires timeouts < MAX_SENDS
    ensures w.Reply? ==> timeouts <= w.timeouts < MAX_SENDS && |w.rest| < |inbox|
    decreases MAX_SENDS - timeouts
  {
    if |inbox| > 0 && inbox[0].Received? then Reply(timeouts, inbox[0].payload, inbox[1..])
    else if timeouts + 1 == MAX_SENDS then NoReply
    else Await(if |inbox| > 0 then inbox[1..] else [], timeouts + 1)
  }

  /**
   * The cursor after an ACK numbered `m` answers block `i`: a matching number
   * moves on by one; any other number sets the cursor to `m`, which the
   * loop's increment then moves to `m + 1`.
   */
  function NextCursor(i: int, m: JByte): (next: int)
    ensures next == i + 1 || next == m as int + 1
    ensures m == Narrow(i + 1) ==> next == i + 1
    ensures m != Narrow(i + 1) ==> next == m as int + 1
    ensures next != i + 1 ==> -127 <= next <= 128
  {
    if m != Narrow(i + 1) then m as int + 1 else i + 1
  }

  /** The session from block cursor `i` on, against the remaining receive outcomes. */
  function SendFrom(blocks: seq<seq<JByte>>, i: int, inbox: seq<Event>): (t: Trace)
    ensures forall k :: 0 <= k < |t.sent| ==> |t.sent[k]| >= 2 && t.sent[k][0] == DATA
    ensures t.sent == [] <==> i < 0
    ensures t.sent == [] ==> t.outcome == Crashed
    decreases |inbox|
  {
    if i >= |blocks| then Trace([TerminalPacket(|blocks|)], Completed)
    else if i < 0 then Trace([], Crashed)
    else if |blocks[i]| < BLOCK_SIZE then Trace([DataPacket(blocks, i)], LastBlockSent)
    else
      match Await(inbox, 0)
      case NoReply => Trace(Repeat(DataPacket(blocks, i), MAX_SENDS), GaveUp)
      case Reply(t, payload, rest) =>
        var sends := Repeat(DataPacket(blocks, i), t + 1);
        match Decode(ReceiveInto(ACK_BUFFER_SIZE, payload))
        case Failure(_) => Trace(sends, Crashed)
        case Success(ack) =>
          if ack.ptype != ACK then Trace(sends, BadReply)
          else Prepend(sends, SendFrom(blocks, NextCursor(i, ack.blockNumber), rest))
  }

  /** `sendBlocks`: the lockstep loop, its retry loop and the terminal packet. */
  method SendBlocks(blocks: seq<seq<JByte>>, inbox: seq<Event>) returns (sent: seq<seq<JByte>>, outcome: Outcome)
    ensures Trace(sent, outcome) == SendFrom(blocks, 0, inbox)
  {
    sent := [];
    var pos := 0;
    var i := 0;
    while i < |blocks|
      invariant pos <= |inbox|
      invariant Prepend(sent, SendFrom(blocks, i, inbox[pos..])) == SendFrom(blocks, 0, inbox)
      decreases |inbox| - pos
    {
      var blockNumber := Narrow(i + 1);
      if i < 0 {
        // blocks.get(i) throws
        outcome := Crashed;
        return;
      }
      var block := blocks[i];
      var packet := MakeBlockDatagram(DATA, blockNumber, block);
      if |block| < BLOCK_SIZE {
        sent := sent + [packet];
        outcome := LastBlockSent;
        return;
      }
      ghost var start := pos;
      var sends, next;
      sends, pos, next := AwaitAck(blocks, i, packet, inbox, pos);
      PrependTwice(sent, sends, SendFrom(blocks, if next.Success? then next.value else 0, inbox[pos..]));
      sent := sent + sends;
      if next.Failure? {
        outcome := next.error;
        return;
      }
      i := next.value;
    }
    sent := sent + [TerminalPacket(|blocks|)];
    outcome := Completed;
  }

  /**
   * The rest of the loop body for a full block whose first send is out: the
   * retry loop, then the reply read as an ACK and the cursor moved. The sends
   * include the first one; `next` is the new cursor, or how the session ends.
   */
  method AwaitAck(blocks: seq<seq<JByte>>, i: nat, packet: seq<JByte>, inbox: seq<Event>, start: nat)
    returns (sends: seq<seq<JByte>>, pos: nat, next: Result<int, Outcome>)
    requires i < |blocks| && |blocks[i]| >= BLOCK_SIZE && packet == DataPacket(blocks, i)
    requires start <= |inbox|
    ensures start <= pos <= |inbox|
    ensures next.Failure? ==> SendFrom(blocks, i, inbox[start..]) == Trace(sends, next.error)
    ensures next.Success? ==> start < pos
    ensures next.Success? ==>
              SendFrom(blocks, i, inbox[start..]) == Prepend(sends, SendFrom(blocks, next.value, inbox[pos..]))
  {
    var reply, resends;
    reply, pos, resends := AwaitReply(inbox, start, packet);
    sends := [packet] + resends;
    SendFromFull(blocks, i, inbox[start..]);
    if reply.None? {
      assert sends == Repeat(packet, MAX_SENDS);
      next := Failure(GaveUp);
      return;
    }
    assert sends == Repeat(packet, Await(inbox[start..], 0).timeouts + 1);
    var ack := Decode(ReceiveInto(ACK_BUFFER_SIZE, reply.value));
    if ack.Failure? {
      next := Failure(Crashed);
      return;
    }
    if ack.value.ptype != ACK {
      next := Failure(BadReply);
      return;
    }
    var cursor := i;
    if ack.value.blockNumber != Narrow(i + 1) {
      cursor := ack.value.blockNumber as int;
    }
    cursor := cursor + 1;
    next := Success(cursor);
  }

  /**
   * The retry loop after a block's first send: wait for a datagram, resending
   * the block after each timeout but the sixth. Returns the reply (none after
   * six timeouts), the new read position and the resends made.
   */
  method AwaitReply(inbox: seq<Event>, start: nat, packet: seq<JByte>)
    returns (reply: Option<seq<JByte>>, pos: nat, resends: seq<seq<JByte>>)
    requires start <= |inbox|
    ensures start <= pos <= |inbox|
    ensures Await(inbox[start..], 0).NoReply? ==>
              reply == None && resends == Repeat(packet, MAX_SENDS - 1)
    ensures Await(inbox[start..], 0).Reply? ==>
              && reply == Some(Await(inbox[start..], 0).payload)
              && resends == Repeat(packet, Await(inbox[start..], 0).timeouts)
              && inbox[pos..] == Await(inbox[start..], 0).rest
  {
    pos := start;
    resends := [];
    var acksTimeOut := 0;
    while true
      invariant start <= pos <= |inbox|
      invariant 0 <= acksTimeOut < MAX_SENDS
      invariant Await(inbox[pos..], acksTimeOut) == Await(inbox[start..], 0)
      invariant resends == Repeat(packet, acksTimeOut)
      decreases MAX_SENDS - acksTimeOut
    {
      var next := NextEvent(inbox, pos);
      assert pos < |inbox| ==> inbox[pos..][1..] == inbox[pos + 1..];
      pos := next.1;
      if next.0.Received? {
        reply := Some(next.0.payload);
        return;
      }
      acksTimeOut := acksTimeOut + 1;
      if acksTimeOut == MAX_SENDS {
        reply := None;
        return;
      }
      resends := resends + [packet];
    }
  }

  /** `SendFrom` at a full block, once the wait for its reply is known. */
  lemma SendFromFull(blocks: seq<seq<JByte>>, i: nat, inbox: seq<Event>)
    requires i < |blocks| && |blocks[i]| >= BLOCK_SIZE
    ensures Await(inbox, 0).NoReply? ==>
              SendFrom(blocks, i, inbox) == Trace(Repeat(DataPacket(blocks, i), MAX_SENDS), GaveUp)
    ensures Await(inbox, 0).Reply? ==>
              var w := Await(inbox, 0);
              var sends := Repeat(DataPacket(blocks, i), w.timeouts + 1);
              var ack := Decode(ReceiveInto(ACK_BUFFER_SIZE, w.payload));
              SendFrom(blocks, i, inbox) ==
                if ack.Failure? then Trace(sends, Crashed)
                else if ack.value.ptype != ACK then Trace(sends, BadReply)
                else Prepend(sends, SendFrom(blocks, NextCursor(i, ack.value.blockNumber), w.rest))
  {
  }

  /** `run` after the file is read: cut the contents into blocks and send them. */
  method Run(fileData: seq<JByte>, inbox: seq<Event>) returns (sent: seq<seq<JByte>>, outcome: Outcome)
    ensures Trace(sent, outcome) == SendFrom(Partition(fileData), 0, inbox)
  {
    var blocks := GetBlocks(fileData);
    sent, outcome := SendBlocks(blocks, inbox);
  }

  // ---------------------------------------------------------------------
  // Properties of the sending session
  // ---------------------------------------------------------------------

  /** Nothing but timeouts: the wait ends with the sixth. */
  lemma {:induction false} AwaitSilence(inbox: seq<Event>, timeouts: nat)
    requires timeouts < MAX_SENDS
    requires forall k :: 0 <= k < |inbox| ==> inbox[k] == Timeout
    ensures Await(inbox, timeouts) == NoReply
    decreases MAX_SENDS - timeouts
  {
    if timeouts + 1 < MAX_SENDS {
      AwaitSilence(if |inbox| > 0 then inbox[1..] else [], timeouts + 1);
    }
  }

  /** A datagram after `t` timeouts (`t < 6`) is the reply, and what follows it is left unread. */
  lemma {:induction false} AwaitAfterTimeouts(t: nat, counted: nat, payload: seq<JByte>, from: int, rest: seq<Event>)
    requires counted <= t < MAX_SENDS
    ensures Await(Repeat(Timeout, t - counted) + [Received(payload, from)] + rest, counted)
            == Reply(t, payload, rest)
    decreases t - counted
  {
    var inbox := Repeat(Timeout, t - counted) + [Received(payload, from)] + rest;
    if counted < t {
      assert inbox[1..] == Repeat(Timeout, t - (counted + 1)) + [Received(payload, from)] + rest;
      AwaitAfterTimeouts(t, counted + 1, payload, from, rest);
    } else {
      assert inbox[1..] == rest;
    }
  }

  /** If no reply ever arrives, a full block is sent exactly six times and the session gives up. */
  lemma SilentClientSixSends(blocks: seq<seq<JByte>>, i: nat, inbox: seq<Event>)
    requires i < |blocks| && |blocks[i]| >= BLOCK_SIZE
    requires forall k :: 0 <= k < |inbox| ==> inbox[k] == Timeout
    ensures SendFrom(blocks, i, inbox) == Trace(Repeat(DataPacket(blocks, i), MAX_SENDS), GaveUp)
  {
    AwaitSilence(inbox, 0);
  }

  /**
   * A full block answered after `t < 6` timeouts: it has gone out `t + 1`
   * times. A reply that is not an ACK ends the session; an ACK moves the
   * cursor (by one on a match, to the acked number plus one otherwise), and a
   * cursor below zero ends the session while one past the last block sends
   * the terminal packet.
   */
  lemma ReplyAfterTimeouts(blocks: seq<seq<JByte>>, i: nat, t: nat, payload: seq<JByte>, from: int, rest: seq<Event>)
    requires i < |blocks| && |blocks[i]| >= BLOCK_SIZE && t < MAX_SENDS
    ensures var trace := SendFrom(blocks, i, Repeat(Timeout, t) + [Received(payload, from)] + rest);
            var sends := Repeat(DataPacket(blocks, i), t + 1);
            var ack := Decode(ReceiveInto(ACK_BUFFER_SIZE, payload));
            && (!(ack.Success? && ack.value.ptype == ACK) ==>
                  trace.sent == sends && trace.outcome in {BadReply, Crashed})
            && (ack.Success? && ack.value.ptype == ACK ==>
                  var next := if ack.value.blockNumber == Narrow(i + 1) then i + 1
                              else ack.value.blockNumber as int + 1;
                  && trace == Prepend(sends, SendFrom(blocks, next, rest))
                  && (next < 0 ==> trace == Trace(sends, Crashed))
                  && (next >= |blocks| ==> trace == Trace(sends + [TerminalPacket(|blocks|)], Completed)))
  {
    AwaitAfterTimeouts(t, 0, payload, from, rest);
  }

  /** The terminal packet is last, and every datagram before it carries a full block. */
  predicate EndsWithTerminal(sent: seq<seq<JByte>>, count: nat)
  {
    && |sent| > 0 && sent[|sent| - 1] == TerminalPacket(count)
    && forall k :: 0 <= k < |sent| - 1 ==> |sent[k]| >= BLOCK_SIZE + 2
  }

  lemma FullSendsThenTerminal(sends: seq<seq<JByte>>, tail: seq<seq<JByte>>, count: nat)
    requires forall k :: 0 <= k < |sends| ==> |sends[k]| >= BLOCK_SIZE + 2
    requires EndsWithTerminal(tail, count)
    ensures EndsWithTerminal(sends + tail, count)
  {
    var s := sends + tail;
    assert forall k :: |sends| <= k < |s| ==> s[k] == tail[k - |sends|];
  }

  /**
   * A session that completes sends the terminal packet last and nothing like
   * it before: every earlier datagram carries a full block, so the 3-byte
   * terminal packet goes out exactly once.
   */
  lemma {:induction false} CompletedSendsTerminalOnce(blocks: seq<seq<JByte>>, i: int, inbox: seq<Event>)
    requires SendFrom(blocks, i, inbox).outcome == Completed
    ensures EndsWithTerminal(SendFrom(blocks, i, inbox).sent, |blocks|)
    decreases |inbox|
  {
    if 0 <= i < |blocks| && |blocks[i]| >= BLOCK_SIZE {
      SendFromFull(blocks, i, inbox);
      var w := Await(inbox, 0);
      var ack := Decode(ReceiveInto(ACK_BUFFER_SIZE, w.payload));
      var next := NextCursor(i, ack.value.blockNumber);
      CompletedSendsTerminalOnce(blocks, next, w.rest);
      FullSendsThenTerminal(Repeat(DataPacket(blocks, i), w.timeouts + 1), SendFrom(blocks, next, w.rest).sent, |blocks|);
    }
  }
}
