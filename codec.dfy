/**
 * Decoding a datagram into a TFTP-style packet (the `TftpPacket` constructor).
 *
 * The layout is the repository's own: one tag byte, then a one-byte block
 * number for DATA (2) and ACK (3) only, then the payload. Tags are never
 * checked against the known set; an ACK's payload is never extracted.
 */
module Codec {
  import opened Bytes
  import opened Wrappers
  import opened Network

  const RRQ: JByte := 1
  const DATA: JByte := 2
  const ACK: JByte := 3
  const ERROR: JByte := 4

  /** The data a full DATA packet carries; anything shorter ends a transfer. */
  const BLOCK_SIZE := 512

  /**
   * The three public fields of a `TftpPacket`. `data` is `None` where the
   * Java field stays null; `blockNumber` keeps its default 0 where it is not read.
   */
  datatype Packet = Packet(ptype: JByte, blockNumber: JByte, data: Option<seq<JByte>>)

  /** The Java exceptions decoding can raise. */
  datatype DecodeError =
    | IndexOutOfBounds  // `getData()[0]` or `getData()[1]` past the end of the buffer
    | IllegalRange      // `Arrays.copyOfRange` with a start beyond the packet's length

  /** Tags whose second byte is a block number. */
  predicate Numbered(t: JByte) { t == DATA || t == ACK }

  /** Where the payload starts for a packet with tag `t`. */
  function Offset(t: JByte): nat { if Numbered(t) then 2 else 1 }

  /** The conditions under which the constructor raises no exception. */
  predicate Decodable(d: Datagram)
  {
    && |d.buffer| > 0
    && (Numbered(d.buffer[0]) ==> |d.buffer| >= 2)
    && (d.buffer[0] != ACK ==> Offset(d.buffer[0]) <= d.length)
  }

  /** `new TftpPacket(p)`. */
  function Decode(d: Datagram): (r: Result<Packet, DecodeError>)
    requires d.Valid()
    ensures r.Success? <==> Decodable(d)
    ensures r.Success? ==> r.value.ptype == d.buffer[0]
    ensures r.Success? && Numbered(r.value.ptype) ==> r.value.blockNumber == d.buffer[1]
    ensures r.Success? && !Numbered(r.value.ptype) ==> r.value.blockNumber == 0
    ensures r.Success? ==> (r.value.data.None? <==> r.value.ptype == ACK)
    ensures r.Success? && r.value.data.Some? ==>
              |r.value.data.value| == d.length - Offset(r.value.ptype)
    ensures r.Success? && r.value.data.Some? ==>
              forall k :: 0 <= k < |r.value.data.value| ==>
                r.value.data.value[k] == d.buffer[Offset(r.value.ptype) + k]
  {
    if |d.buffer| == 0 then Failure(IndexOutOfBounds)
    else
      var t := d.buffer[0];
      if Numbered(t) && |d.buffer| < 2 then Failure(IndexOutOfBounds)
      else
        var n := if Numbered(t) then d.buffer[1] else 0;
        if t == ACK then Success(Packet(t, n, None))
        else if Offset(t) > d.length then Failure(IllegalRange)
        else Success(Packet(t, n, Some(d.buffer[Offset(t)..d.length])))
  }

  /** No tag is rejected: any datagram of at least two valid bytes decodes, keeping its tag. */
  lemma DecodeAcceptsEveryTag(d: Datagram)
    requires d.Valid() && d.length >= 2
    ensures Decode(d).Success? && Decode(d).value.ptype == d.buffer[0]
  {
  }

  /** Only the first `length` bytes matter once the packet holds two or more of them. */
  lemma DecodeIgnoresSlack(d: Datagram, e: Datagram)
    requires d.Valid() && e.Valid() && d.length == e.length >= 2
    requires d.buffer[..d.length] == e.buffer[..e.length]
    ensures Decode(d) == Decode(e)
  {
    assert d.buffer[0] == d.buffer[..d.length][0];
    assert e.buffer[0] == e.buffer[..e.length][0];
    assert d.buffer[1] == d.buffer[..d.length][1];
    assert e.buffer[1] == e.buffer[..e.length][1];
    var o := Offset(d.buffer[0]);
    assert d.buffer[o..d.length] == d.buffer[..d.length][o..];
    assert e.buffer[o..e.length] == e.buffer[..e.length][o..];
  }

  /** A datagram received into a buffer large enough for it decodes as the datagram that was sent. */
  lemma DecodeReceived(size: nat, payload: seq<JByte>)
    requires 2 <= |payload| <= size
    ensures Decode(ReceiveInto(size, payload)) == Decode(Outgoing(payload))
  {
    DecodeIgnoresSlack(ReceiveInto(size, payload), Outgoing(payload));
  }
}
