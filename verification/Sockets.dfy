/** What a client or a server sees of a socket. */
module Sockets {
  /** What one call of a socket's send comes to. */
  datatype Kernel = Took(n: nat) | Busy | Broken

  /** How far a client's connection has got. */
  datatype Link = Unconnected | Connecting | Connected
}
