/** The values exchanged with Ursulas (the network's worker nodes). */
module Network {

  newtype uint8 = x: int | 0 <= x < 256

  type Bytes = seq<uint8>

  /** An Ursula's checksum address. */
  type Address = string

  /** A known node, identified by its checksum address; `stamp` is its verifying key. */
  datatype Ursula = Ursula(checksumAddress: Address, stamp: Bytes)

  /** An HTTP response from a node. */
  datatype Response = Response(statusCode: int, content: Bytes)

  const OK: int := 200
  const CREATED: int := 201
  const PAYMENT_REQUIRED: int := 402

  /** `known_nodes` is indexed by each node's own checksum address. */
  ghost predicate KeyedByAddress(knownNodes: map<Address, Ursula>)
  {
    forall a :: a in knownNodes ==> knownNodes[a].checksumAddress == a
  }
}
