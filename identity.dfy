/**
 * Identifiers and key material that the key book stores, and the checks the
 * identity library performs on them. The key book never looks inside a key;
 * it only compares peers against keys through `Checks`.
 */
module Identity {
  import opened Wrappers

  type Bytes = seq<bv8>

  /** A replicated log group. */
  datatype ThreadID = ThreadID(bytes: Bytes)

  /** A log within a thread; derivable from, and verifiable against, a key. */
  datatype PeerID = PeerID(bytes: Bytes)

  /** Asymmetric key material, in its marshalled form. */
  datatype PubKey = PubKey(bytes: Bytes)
  datatype PrivKey = PrivKey(bytes: Bytes)

  /**
   * The identity library's view of how peers and keys belong together.
   * `matchesPublicKey(p, pk)` and `matchesPrivateKey(p, sk)` say whether `p`
   * is the identifier derived from the key; `extractPublicKey(p)` is the
   * public key embedded in `p`, or `None` when the library reports an error.
   * Key derivation itself is not modelled: any functions may be supplied.
   */
  datatype Checks = Checks(
    matchesPublicKey: (PeerID, PubKey) -> bool,
    matchesPrivateKey: (PeerID, PrivKey) -> bool,
    extractPublicKey: PeerID -> Option<PubKey>)
}
