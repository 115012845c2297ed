/** The ideal hash. A digest is the term of the hash call that produced it, so hashing is
    injective and two calls with different domain tags never agree. Byte strings are
    represented by the value they encode: JCS is an injective encoding of receipts, and a
    32-byte key is its own 256 bits. */
module Digests {

  /** A receipt committing one action to the log. */
  datatype Receipt = Receipt(
    chainDigest: Digest,
    actionDigest: Digest,
    nonce: Digest,
    prevRoot: Digest)

  /** What can follow the leaf tag: nothing (the empty log), a receipt's canonical bytes
      or a revocation-map key. */
  datatype LeafData =
    | NoData
    | ReceiptData(receipt: Receipt)
    | KeyData(bits: seq<bool>)

  datatype Digest =
    | Raw(bytes: nat)                            // 32 bytes nobody obtained by hashing
    | LeafHash(data: LeafData)                   // hash of 0x00 and the data
    | NodeHash(left: Digest, right: Digest)      // hash of 0x01 and two digests
    | TaggedHash(domain: string, words: seq<nat>, parts: seq<Digest>)
                                                 // hash of an ASCII domain and fixed-width fields

  function HashReceipt(receipt: Receipt): Digest {
    LeafHash(ReceiptData(receipt))
  }

  /** The leaf hash of every receipt of a log, in order. */
  function LeafHashes(receipts: seq<Receipt>): (hashes: seq<Digest>)
    ensures |hashes| == |receipts|
  {
    seq(|receipts|, i requires 0 <= i < |receipts| => HashReceipt(receipts[i]))
  }

  /** Leaf hashing loses nothing: a prefix of the hashes is a prefix of the receipts. */
  lemma LeafHashesPrefix(a: seq<Receipt>, b: seq<Receipt>)
    requires |a| <= |b|
    ensures LeafHashes(a) == LeafHashes(b)[..|a|] <==> a == b[..|a|]
  {
    if LeafHashes(a) == LeafHashes(b)[..|a|] {
      forall i | 0 <= i < |a| ensures a[i] == b[i] {
        assert LeafHashes(a)[i] == LeafHashes(b)[..|a|][i];
        assert HashReceipt(a[i]) == HashReceipt(b[i]);
      }
    }
  }
}
