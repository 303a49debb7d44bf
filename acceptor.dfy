/** The accept loop's timeout policy: a busy server gives each new
    connection a shorter idle-read timeout. */
module Acceptor {

  const MaxConcurrentConnections := 10
  /** Milliseconds a connection may stay idle while the server is not busy. */
  const IdleConnectionTimeout := 60000
  /** Milliseconds a connection may stay idle while the server is busy. */
  const BusyConnectionTimeout := 15000

  /** The idle-read timeout for a connection accepted while
      `activeConnections` handlers are counted as running. */
  function ConnectionTimeout(activeConnections: int): (timeout: int)
    ensures timeout == BusyConnectionTimeout <==> activeConnections >= MaxConcurrentConnections
    ensures timeout == IdleConnectionTimeout <==> activeConnections < MaxConcurrentConnections
  {
    if activeConnections >= MaxConcurrentConnections then BusyConnectionTimeout else IdleConnectionTimeout
  }

  /** More load never lengthens the timeout, and every timeout is positive. */
  lemma TimeoutNonIncreasing(fewer: int, more: int)
    requires fewer <= more
    ensures 0 < ConnectionTimeout(more) <= ConnectionTimeout(fewer)
  {
  }
}
