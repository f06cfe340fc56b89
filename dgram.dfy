/**
 * A UDP socket as the relay sees it: every call to `send` is recorded, in call
 * order, in a ghost log. Delivery, the asynchronous completion callback and
 * the error it may carry are not part of the model.
 */
module Dgram {
  import opened Wrappers
  import opened NodeBuffer

  /** One `send(buffer, port, address)` call, with the arguments as passed. */
  datatype Datagram = Datagram(buffer: seq<byte>, port: Option<int>, address: Option<string>)

  class UdpSocket {
    ghost var sent: seq<Datagram>

    /** `dgram.createSocket('udp4')`: a socket that has sent nothing. */
    constructor ()
      ensures sent == []
    {
      sent := [];
    }

    /** `client.send(buffer, port, address, callback)`: one more datagram in the log. */
    method Send(buffer: seq<byte>, port: Option<int>, address: Option<string>)
      modifies this
      ensures sent == old(sent) + [Datagram(buffer, port, address)]
    {
      sent := sent + [Datagram(buffer, port, address)];
    }
  }
}
