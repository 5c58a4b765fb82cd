/**
  Identifiers and peer records: util.go and the PeerInfo type of bucket.go.
 */
module Peers {
  import opened XorKeySpace

  /** peer.ID, a string of bytes. */
  type PeerID = Bytes

  /** A SHA-256 digest: the identifier of a peer in the DHT key space. */
  type Digest = d: Bytes | |d| == 32 witness seq(32, i => 0)

  const DIGEST_BITS := 256

  /** The zero time is the absence of a time. */
  type Time = nat
  const NEVER: Time := 0

  type Clock = t: nat | t > NEVER witness 1

  /** The value of a PeerInfo at one moment. */
  datatype Peer = Peer(
    id: PeerID,
    lastUsefulAt: Time,
    lastQueryAt: Time,
    addedAt: Time,
    dhtId: Digest,
    isReplaceable: bool)

  type BucketSize = n: nat | n >= 1 witness 1

  /** What never changes in a routing table: ConvertPeerID, the local identifier, the bucket size. */
  datatype Config = Config(hash: PeerID -> Digest, local: Digest, bucketSize: BucketSize)

  /** CommonPrefixLen with the local identifier. */
  function Cpl(c: Config, d: Digest): (z: nat)
    ensures z <= DIGEST_BITS
  {
    SharedBits(d, c.local)
  }

  /** ID.less */
  predicate IdLess(a: Bytes, b: Bytes) {
    BytesLess(a, b)
  }

  /** Closer: is `a` nearer than `b` to the hash of `key`? */
  predicate Closer(c: Config, a: PeerID, b: PeerID, key: PeerID) {
    IdLess(Xored(c.hash(a), c.hash(key)), Xored(c.hash(b), c.hash(key)))
  }
}
