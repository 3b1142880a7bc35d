module Wrappers {
  datatype Option<T> = None | Some(value: T)
}

/** Identifiers and instants of the discovery protocol; instants count nanoseconds. */
module DiscoveryTypes {
  type NodeId = nat
  type Endpoint = nat
  type Instant = int

  /** A captured interface registration. */
  type Lease = nat

  const SECOND: int := 1_000_000_000
}
