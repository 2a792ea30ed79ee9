/** What became of a write a service put on the wire: the ledger takes it up at
    most once, at any later moment or never, and only then can its reply say so. */
module RemoteWrite {
  datatype Wire = NotSent | InFlight | Landed(tx: nat) | Dropped
}
