/**
 * The client (`TftpClient`): the read request, the receive loop and what it
 * does with each datagram (`handleClientPacket`), the acknowledgements and
 * the append-only output file.
 *
 * The client's static fields become the fields of a `Session` object; the
 * socket is modelled by the datagrams sent (with their destination port) and
 * by the sequence of outcomes its `receive` calls produce.
 */
module Client {
  import opened Bytes
  import opened Wrappers
  import opened Network
  import opened Codec

  /** The static `port`: where the request goes. */
  const WELL_KNOWN_PORT := 69
  /** Each receive goes into a fresh buffer of this many bytes. */
  const RECEIVE_BUFFER_SIZE := 1472

  /** A datagram the client sent, with its destination port. */
  datatype Outbound = Outbound(payload: seq<JByte>, toPort: int)

  /** The read request: tag 1, then the filename's bytes. */
  function RequestMessage(filename: seq<JByte>): (m: seq<JByte>)
    ensures |m| == |filename| + 1
    ensures Decode(Outgoing(m)) == Success(Packet(RRQ, 0, Some(filename)))
  {
    var m := [RRQ] + filename;
    assert m[1..|m|] == filename;
    m
  }

  /** The acknowledgement `Acknowledge` builds for block number `n`: tag 3, then the number. */
  function AckMessage(n: JByte): (m: seq<JByte>)
    ensures Decode(ReceiveInto(2, m)) == Success(Packet(ACK, n, None))
  {
    [ACK, n]
  }

  /**
   * The rule deciding whether a full block is written. `AsWritten` is the
   * source's; `Corrected` is the rule its server's numbering calls for.
   */
  datatype Numbering = AsWritten | Corrected

  /**
   * The initial `prevBlockNumber`: as written, the first full block accepted
   * is the one numbered 0; corrected, the one numbered `(byte)1`, which is
   * the number the worker gives its first block.
   */
  function InitialPrev(rule: Numbering): (p: JByte)
    ensures forall n: JByte :: InSequence(rule, n, p) <==> n == (if rule == AsWritten then 0 else Narrow(0 + 1))
  {
    match rule
    case AsWritten => -1
    case Corrected => 0
  }

  /**
   * Whether a full block numbered `n` follows the last one written. As
   * written this is `responseBlockNumber - 1 == prevBlockNumber` in int
   * arithmetic on the signed bytes; corrected, the subtraction wraps like
   * the server's numbering does.
   */
  function InSequence(rule: Numbering, n: JByte, prev: JByte): (ok: bool)
    ensures rule == Corrected ==> (ok <==> n == Narrow(prev as int + 1))
    ensures rule == AsWritten ==> (ok <==> prev != 127 && n as int == prev as int + 1)
  {
    NarrowSuccessor(n, prev);
    match rule
    case AsWritten => n as int - 1 == prev as int
    case Corrected => Narrow(n as int - 1) == prev
  }

  /** What `handleClientPacket` makes of a packet. */
  datatype Handled =
    | NoData                                        // `p.data` is null: the length test throws
    | Final(data: seq<JByte>)                       // shorter than a block: written, then the client exits
    | Full(blockNumber: JByte, data: seq<JByte>)    // a full block, passed back for the sequence check

  function Classify(p: Packet): (h: Handled)
    ensures h.NoData? <==> p.data.None?
    ensures h.Final? <==> p.data.Some? && |p.data.value| < BLOCK_SIZE
    ensures h.Final? ==> h.data == p.data.value
    ensures h.Full? ==> h.blockNumber == p.blockNumber && h.data == p.data.value
  {
    match p.data
    case None => NoData
    case Some(data) => if |data| < BLOCK_SIZE then Final(data) else Full(p.blockNumber, data)
  }

  /** A datagram as the client's receive loop decodes it. */
  function Incoming(payload: seq<JByte>): Result<Packet, DecodeError>
  {
    Decode(ReceiveInto(RECEIVE_BUFFER_SIZE, payload))
  }

  /** The session's state: the static `serverPort`, `prevBlockNumber`, the output file and the datagrams sent. */
  datatype Receiver = Receiver(serverPort: int, prev: JByte, output: seq<JByte>, sent: seq<Outbound>)

  /** How the client ends. */
  datatype Outcome =
    | Finished  // a short packet was written and the client exited
    | TimedOut  // thirty seconds without a datagram
    | Crashed   // an exception reached `main`'s handler

  datatype Progress = Continue(next: Receiver) | Stop(last: Receiver, outcome: Outcome)
  {
    function State(): Receiver { if Continue? then next else last }
  }

  /** `serverPort` is taken from the first response's source port only while it is 0. */
  function Bind(serverPort: int, from: int): (port: int)
    ensures serverPort != 0 ==> port == serverPort
    ensures serverPort == 0 ==> port == from
  {
    if serverPort == 0 then from else serverPort
  }

  /**
   * One turn of the receive loop. A timeout ends the client untouched. A
   * datagram binds the server port, then: one that does not decode or has no
   * data ends the client; one with fewer than 512 bytes of data is appended
   * in full and ends it; a full one is appended only if its number follows
   * `prev` (which then becomes that number), and is acknowledged either way,
   * exactly once, at the bound port.
   */
  function Step(rule: Numbering, s: Receiver, e: Event): (r: Progress)
    ensures e.Timeout? ==> r == Stop(s, TimedOut)
    ensures e.Received? ==>
              var d, port := Incoming(e.payload), Bind(s.serverPort, e.fromPort);
              && (d.Failure? || d.value.data.None? ==> r == Stop(s.(serverPort := port), Crashed))
              && (d.Success? && d.value.data.Some? && |d.value.data.value| < BLOCK_SIZE ==>
                    r == Stop(s.(serverPort := port, output := s.output + d.value.data.value), Finished))
              && (d.Success? && d.value.data.Some? && |d.value.data.value| >= BLOCK_SIZE ==>
                    var n := d.value.blockNumber;
                    var accept := InSequence(rule, n, s.prev);
                    r == Continue(Receiver(
                           port,
                           if accept then n else s.prev,
                           s.output + (if accept then d.value.data.value else []),
                           s.sent + [Outbound(AckMessage(n), port)])))
  {
    match e
    case Timeout => Stop(s, TimedOut)
    case Received(payload, from) =>
      var bound := s.(serverPort := Bind(s.serverPort, from));
      match Incoming(payload)
      case Failure(_) => Stop(bound, Crashed)
      case Success(p) =>
        match Classify(p)
        case NoData => Stop(bound, Crashed)
        case Final(data) => Stop(bound.(output := bound.output + data), Finished)
        case Full(n, data) =>
          var kept := if InSequence(rule, n, s.prev) then bound.(output := bound.output + data, prev := n) else bound;
          Continue(kept.(sent := kept.sent + [Outbound(AckMessage(n), bound.serverPort)]))
  }

  datatype Ending = Ending(last: Receiver, outcome: Outcome)

  /**
   * The receive loop run over the remaining receive outcomes (an exhausted
   * stream times out). The output file only grows, what was sent stays sent,
   * and a bound server port is never rebound.
   */
  function Listen(rule: Numbering, s: Receiver, inbox: seq<Event>): (e: Ending)
    ensures s.output <= e.last.output
    ensures s.sent <= e.last.sent
    ensures s.serverPort != 0 ==> e.last.serverPort == s.serverPort
    decreases |inbox|
  {
    if |inbox| == 0 then Ending(s, TimedOut)
    else
      match Step(rule, s, inbox[0])
      case Stop(t, o) => Ending(t, o)
      case Continue(t) => Listen(rule, t, inbox[1..])
  }

  /** The state `main` sets up before its receive loop: the request is out and `prevBlockNumber` is initialised. */
  function Start(rule: Numbering, serverPort: int, output: seq<JByte>, sent: seq<Outbound>, filename: seq<JByte>): (r: Receiver)
    ensures r.serverPort == serverPort && r.output == output && r.prev == InitialPrev(rule)
    ensures |r.sent| == |sent| + 1 && r.sent[..|sent|] == sent
    ensures r.sent[|sent|].toPort == WELL_KNOWN_PORT
    ensures Decode(Outgoing(r.sent[|sent|].payload)) == Success(Packet(RRQ, 0, Some(filename)))
  {
    Receiver(serverPort, InitialPrev(rule), output, sent + [Outbound(RequestMessage(filename), WELL_KNOWN_PORT)])
  }

  /** The client's static state and the body of `main` from the socket's creation on. */
  class Session {
    var serverPort: int
    /** The contents of the file at the save location. */
    var output: seq<JByte>
    /** The datagrams sent on the client's socket, in order. */
    var sent: seq<Outbound>

    constructor (serverPort: int, existing: seq<JByte>)
      ensures this.serverPort == serverPort && output == existing && sent == []
    {
      this.serverPort := serverPort;
      output := existing;
      sent := [];
    }

    /** `WriteToFile`: opens the file for appending and writes `data` at its end. */
    method WriteToFile(data: seq<JByte>)
      modifies this`output
      ensures output == old(output) + data
    {
      output := output + data;
    }

    /** `Acknowledge`: sends `[3, n]` to the server's port. */
    method Acknowledge(n: JByte)
      modifies this`sent
      ensures sent == old(sent) + [Outbound(AckMessage(n), serverPort)]
    {
      sent := sent + [Outbound(AckMessage(n), serverPort)];
    }

    /** `handleClientPacket`: a short packet is written before the client exits. */
    method HandleClientPacket(p: Packet) returns (h: Handled)
      modifies this`output
      ensures h == Classify(p)
      ensures output == old(output) + (if h.Final? then h.data else [])
    {
      // an ERROR packet's text is only printed here
      if p.data.None? {
        return NoData;
      }
      var data := p.data.value;
      if |data| < BLOCK_SIZE {
        WriteToFile(data);
        return Final(data);
      }
      return Full(p.blockNumber, data);
    }

    /** Send the request for `filename`, then run the receive loop until the client stops. */
    method Fetch(filename: seq<JByte>, inbox: seq<Event>) returns (outcome: Outcome)
      modifies this
      ensures var e := Listen(AsWritten, Start(AsWritten, old(serverPort), old(output), old(sent), filename), inbox);
              serverPort == e.last.serverPort && output == e.last.output && sent == e.last.sent
              && outcome == e.outcome
    {
      sent := sent + [Outbound(RequestMessage(filename), WELL_KNOWN_PORT)];
      var responseBlockNumber: JByte := 0;
      var prevBlockNumber: JByte := -1;
      ghost var start := Receiver(serverPort, prevBlockNumber, output, sent);
      var pos := 0;
      while true
        invariant pos <= |inbox|
        invariant Listen(AsWritten, Receiver(serverPort, prevBlockNumber, output, sent), inbox[pos..])
                  == Listen(AsWritten, start, inbox)
        decreases |inbox| - pos
      {
        ghost var before := Receiver(serverPort, prevBlockNumber, output, sent);
        var next := NextEvent(inbox, pos);
        if next.0.Timeout? {
          outcome := TimedOut;
          return;
        }
        ghost var rest := inbox[pos..];
        assert rest[0] == next.0 && rest[1..] == inbox[pos + 1..];
        pos := next.1;
        if serverPort == 0 {
          serverPort := next.0.fromPort;
        }
        var handledPacket := Decode(ReceiveInto(RECEIVE_BUFFER_SIZE, next.0.payload));
        if handledPacket.Failure? {
          outcome := Crashed;
          return;
        }
        var handled := HandleClientPacket(handledPacket.value);
        if handled.NoData? {
          outcome := Crashed;
          return;
        }
        if handled.Final? {
          // System.exit(0)
          outcome := Finished;
          return;
        }
        assert output == before.output;
        responseBlockNumber := handled.blockNumber;
        if responseBlockNumber as int - 1 == prevBlockNumber as int {
          WriteToFile(handled.data);
          prevBlockNumber := responseBlockNumber;
        }
        Acknowledge(responseBlockNumber);
        ghost var after := Receiver(serverPort, prevBlockNumber, output, sent);
        assert Step(AsWritten, before, rest[0]) == Continue(after) by {
          StepOnFull(AsWritten, before, next.0, handledPacket.value);
        }
        ListenContinues(AsWritten, before, rest, after);
      }
    }
  }

  /** The turn of the loop on a full block, with the decoded packet named. */
  lemma StepOnFull(rule: Numbering, s: Receiver, e: Event, p: Packet)
    requires e.Received? && Incoming(e.payload) == Success(p)
    requires p.data.Some? && |p.data.value| >= BLOCK_SIZE
    ensures var port := Bind(s.serverPort, e.fromPort);
            var accept := InSequence(rule, p.blockNumber, s.prev);
            Step(rule, s, e) == Continue(Receiver(port, if accept then p.blockNumber else s.prev,
                                                  s.output + (if accept then p.data.value else []),
                                                  s.sent + [Outbound(AckMessage(p.blockNumber), port)]))
  {
  }

  lemma ListenContinues(rule: Numbering, s: Receiver, inbox: seq<Event>, t: Receiver)
    requires |inbox| > 0 && Step(rule, s, inbox[0]) == Continue(t)
    ensures Listen(rule, s, inbox) == Listen(rule, t, inbox[1..])
  {
  }

  // ---------------------------------------------------------------------
  // Properties of the receiving session
  // ---------------------------------------------------------------------

  /** With `prevBlockNumber` at -1, a first full block is written only if it is numbered 0. */
  lemma FirstFullBlockNeedsZero(s: Receiver, payload: seq<JByte>, from: int)
    requires s.prev == InitialPrev(AsWritten)
    requires Incoming(payload).Success? && Incoming(payload).value.data.Some?
    requires |Incoming(payload).value.data.value| >= BLOCK_SIZE
    ensures var t := Step(AsWritten, s, Received(payload, from)).State();
            t.output != s.output <==> Incoming(payload).value.blockNumber == 0
  {
  }

  /**
   * A full block delivered again right after it was written is not written a
   * second time, but it is acknowledged again.
   */
  lemma DuplicateIgnored(rule: Numbering, s: Receiver, payload: seq<JByte>, from: int)
    requires Step(rule, s, Received(payload, from)).Continue?
    requires Step(rule, s, Received(payload, from)).next.output != s.output
    ensures var t := Step(rule, s, Received(payload, from)).next;
            var u := Step(rule, t, Received(payload, from));
            && u.Continue?
            && u.next.output == t.output
            && u.next.sent == t.sent + [t.sent[|t.sent| - 1]]
  {
    var n := Incoming(payload).value.blockNumber;
    if rule == Corrected {
      assert Narrow(n as int - 1) != n by {
        assert (Narrow(n as int - 1) as int - (n as int - 1)) % 256 == 0;
      }
    }
  }

  /** The first datagram fixes the server port when none is set, and it is never rebound. */
  lemma BindsOnFirstContact(rule: Numbering, s: Receiver, inbox: seq<Event>)
    requires s.serverPort == 0 && |inbox| > 0 && inbox[0].Received? && inbox[0].fromPort != 0
    ensures Listen(rule, s, inbox).last.serverPort == inbox[0].fromPort
  {
    var r := Step(rule, s, inbox[0]);
    if r.Continue? {
      assert Listen(rule, s, inbox) == Listen(rule, r.next, inbox[1..]);
    }
  }
}
