/** The socket exchange both clients run, reduced to what each attempt of
    their three-try loops ran into; the socket calls themselves are not
    part of this model. */
module Transport {
  import opened Format

  /** The send or receive raised a socket error, the receive timed out, or
      a datagram came. */
  datatype Attempt = SocketFailed | TimedOut | Reply(datagram: seq<byte>)

  /** Both clients try three times. */
  const Attempts := 3
}
