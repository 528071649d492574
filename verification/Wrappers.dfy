/** Datatypes shared by the other modules. */
module Wrappers {

  datatype Option<+T> = None | Some(value: T)

  /** What a cluster node is and how it fares. */
  datatype Flag = Myself | Master | Slave | PFail | Fail | Handshake | NoAddr

  const U64: nat := 0x1_0000_0000_0000_0000

  type Uint64 = x: nat | x < U64
}
