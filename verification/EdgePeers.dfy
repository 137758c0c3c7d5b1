/** The identity every part of the overlay uses for a peer, and small shared datatypes. */
module EdgePeers {

  datatype EdgePeer = EdgePeer(peerAddr: string)

  datatype Option<+T> = None | Some(value: T)

  /** Clock readings and durations, in an arbitrary fixed unit. */
  type Time = int
}
