/**
 * The UDP endpoint as the transfer code sees it. A `DatagramPacket` is a
 * buffer together with the number of bytes that are valid in it; receiving
 * is replaced by an abstract stream of outcomes, one per `receive` call.
 */
module Network {
  import opened Bytes

  /** A `DatagramPacket`: `getData()` is `buffer`, `getLength()` is `length`. */
  datatype Datagram = Datagram(buffer: seq<JByte>, length: nat)
  {
    /** Java refuses a packet whose length exceeds its buffer. */
    predicate Valid() { length <= |buffer| }
  }

  /** A packet built for sending: the whole array, from offset 0, is the datagram. */
  function Outgoing(payload: seq<JByte>): (d: Datagram)
    ensures d.Valid() && d.length == |payload|
  {
    Datagram(payload, |payload|)
  }

  /**
   * What one `receive` call yields: the socket timeout fired, or a datagram
   * with `payload` arrived from UDP port `fromPort`.
   */
  datatype Event = Timeout | Received(payload: seq<JByte>, fromPort: int)

  /**
   * `receive` into a freshly allocated buffer of `size` bytes: at most `size`
   * bytes of the payload are kept (the rest of the datagram is discarded), the
   * remainder of the buffer keeps its zero initialisation, and the packet's
   * length becomes the number of bytes kept.
   */
  function ReceiveInto(size: nat, payload: seq<JByte>): (d: Datagram)
    ensures d.Valid() && |d.buffer| == size
    ensures d.length == if |payload| < size then |payload| else size
    ensures d.buffer[..d.length] == payload[..d.length]
    ensures forall k :: d.length <= k < size ==> d.buffer[k] == 0
  {
    var n := if |payload| < size then |payload| else size;
    Datagram(payload[..n] + Zeros(size - n), n)
  }

  /**
   * The next outcome of `receive` when the first `pos` outcomes of `inbox`
   * are used up. Once the stream is exhausted every further call times out,
   * so an empty stream is a peer that never answers.
   */
  function NextEvent(inbox: seq<Event>, pos: nat): (r: (Event, nat))
    requires pos <= |inbox|
    ensures r.1 <= |inbox|
    ensures pos < |inbox| ==> r == (inbox[pos], pos + 1)
    ensures pos == |inbox| ==> r == (Timeout, pos)
  {
    if pos < |inbox| then (inbox[pos], pos + 1) else (Timeout, pos)
  }

  /** A lossless link: each sent payload arrives, in order, from port `from`. */
  function Deliver(payloads: seq<seq<JByte>>, from: int): (es: seq<Event>)
    ensures |es| == |payloads|
    ensures forall k :: 0 <= k < |es| ==> es[k] == Received(payloads[k], from)
  {
    if payloads == [] then [] else [Received(payloads[0], from)] + Deliver(payloads[1..], from)
  }
}
