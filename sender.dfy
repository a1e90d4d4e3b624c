/** The UDP relay's accumulator: the stream kind it is buffering, if any, and
    the bytes buffered for it. Only its initial state and `tick` have bodies in
    the program; each `send_data` call is recorded as one datagram in a ghost log. */
module UdpSender {
  import opened Prelude
  import opened Net
  import opened Communicator

  /** Capacity reserved for every fresh accumulation buffer. */
  const ACCUMULATOR_CAPACITY: nat := DATA_BUFFER_SIZE * 4

  /** One `send_data(addr, kind, data)` call. */
  datatype Datagram = SendData(addr: SocketAddr, kind: StreamKind, data: seq<u8>)

  class Accumulator {
    var addr: SocketAddr
    var lastStream: Option<StreamKind>
    var streamData: seq<u8>
    /** Capacity reserved by the `Vec` currently held in `streamData`. */
    var capacity: nat
    /** Every `send_data` call made so far, oldest first. */
    ghost var sent: seq<Datagram>

    /** With no stream kind recorded there is nothing buffered. The
        constructor establishes this and `Tick` preserves it; `push`, the only
        other writer of these fields, has no body in the program. */
    ghost predicate Valid()
      reads this
    {
      lastStream.None? ==> streamData == []
    }

    /** The accumulator `start_sender` builds for `addr`. */
    constructor (addr: SocketAddr)
      ensures Valid()
      ensures this.addr == addr
      ensures lastStream == None && streamData == []
      ensures capacity == ACCUMULATOR_CAPACITY
      ensures sent == []
    {
      this.addr := addr;
      lastStream := None;
      streamData := [];
      capacity := ACCUMULATOR_CAPACITY;
      sent := [];
    }

    /** `tick`: when a stream kind is recorded, send the buffered bytes tagged
        with it, forget the kind and start a new empty buffer; otherwise do
        nothing. */
    method Tick()
      modifies this
      ensures addr == old(addr)
      ensures lastStream == None
      ensures old(lastStream).None? ==>
        streamData == old(streamData) && capacity == old(capacity) && sent == old(sent)
      ensures old(lastStream).Some? ==>
        && streamData == []
        && capacity == ACCUMULATOR_CAPACITY
        && sent == old(sent) + [SendData(old(addr), old(lastStream).value, old(streamData))]
      ensures old(Valid()) ==> Valid()
    {
      var kind;
      match lastStream {
        case Some(k) => kind := k;
        case None => return;
      }
      lastStream := None;
      var data := streamData;
      streamData, capacity := [], ACCUMULATOR_CAPACITY;
      SendDataTo(kind, data);
    }

    /** `send_data`, recorded in the log; its body is not part of the program. */
    method SendDataTo(kind: StreamKind, data: seq<u8>)
      modifies this`sent
      ensures sent == old(sent) + [SendData(addr, kind, data)]
    {
      sent := sent + [SendData(addr, kind, data)];
    }
  }

  /** Two ticks with no push between them send at most one datagram, and the
      second one sends nothing. */
  method TickTwice(acc: Accumulator)
    modifies acc
    ensures |old(acc.sent)| <= |acc.sent| <= |old(acc.sent)| + 1
    ensures acc.sent[..|old(acc.sent)|] == old(acc.sent)
    ensures acc.lastStream == None && acc.addr == old(acc.addr)
  {
    acc.Tick();
    ghost var afterFirst := acc.sent;
    acc.Tick();
    assert acc.sent == afterFirst;
  }
}
