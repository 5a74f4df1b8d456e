/**
  Abstract outcomes of the socket calls made by both programs. The calls
  themselves (`connect`, `send`, `recv`, `accept`, `select`, …) are
  operating-system I/O; the model receives what they returned.
*/
module Sockets {
  import opened Utils

  /** The `errno` values the programs tell apart; every other value is `OtherErrno`. */
  datatype Errno = EWOULDBLOCK | ECONNREFUSED | EINPROGRESS | ECONNRESET | EPIPE | OtherErrno(code: int)

  /** An IPv4 address as the 32-bit `s_addr` of a `sockaddr_in`. */
  type IPv4 = x: int | 0 <= x < 0x1_0000_0000

  /** A `sockaddr_in`: address and port (kept in host order). */
  datatype Addr = Addr(ip: IPv4, port: UShort)

  /** What one `send` of a 4-byte message returned. */
  datatype SendResult = Sent | SendFailed(err: Errno)

  /**
    What one `recv` of a 4-byte message with `MSG_WAITALL` returned: the
    whole message, zero bytes (the peer closed), or an error.
  */
  datatype RecvResult = Received(value: int) | RecvClosed | RecvFailed(err: Errno)
}
