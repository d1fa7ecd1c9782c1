/**
 * The UDP side of the transport, reduced to what the endpoints observe.
 * A datagram socket is not modelled; instead each endpoint is given the
 * datagrams it will receive (the sender's acknowledgement socket can also
 * time out) and keeps a log of the frames it sends.
 */
module Channel {
  import opened Inet

  /** One call of receive on a socket with a timeout: it times out or yields a datagram. */
  datatype Response = Timeout | Bytes(data: string)

  /** The address both endpoints bind their sockets to. */
  const LOCAL_IP: Address := Address(172, 17, 152, 46)

  const DATA_TRANSMIT_PORT: int := 2015
  const ACK_RECEIVE_PORT: int := 2016
  const DATA_RECEIVE_PORT: int := 2017
  const ACK_SEND_PORT: int := 2018

  /**
   * The byte array handed to DatagramSocket.receive after a datagram
   * arrives: the first `capacity` bytes of the datagram, and zero bytes in
   * the rest of the freshly allocated array.
   */
  function ReceiveBuffer(capacity: nat, data: string): (r: string)
    ensures |r| == capacity
  {
    var n := if |data| < capacity then |data| else capacity;
    data[..n] + seq(capacity - n, _ => 0 as char)
  }

  /** A datagram that fits is at the front of the buffer, followed by zero bytes only. */
  lemma ReceiveFits(capacity: nat, data: string)
    requires |data| <= capacity
    ensures ReceiveBuffer(capacity, data) == data + seq(capacity - |data|, _ => 0 as char)
  {
    assert data[..|data|] == data;
  }
}
