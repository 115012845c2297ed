/** Reconciling two signed tree heads of one log. */
module Gossip {
  import opened Wrappers
  import opened Digests
  import opened MerkleTree
  import opened Consistency
  import opened Signatures
  import opened WitnessLog

  datatype EquivocationError =
    | InvalidSignedHead
    | ForkedRoot(size: nat)
    | Inconsistent(oldSize: nat, newSize: nat)

  function ReconcileHeads(schemes: Schemes<TreeHead>, a: SignedTreeHead, b: SignedTreeHead, logKey: PublicKey,
                          proof: Option<seq<Digest>>): Result<(), EquivocationError> {
    if !VerifySignedHead(schemes, a, logKey) || !VerifySignedHead(schemes, b, logKey) then Err(InvalidSignedHead)
    else if a.head.treeSize == b.head.treeSize then
      if a.head.root == b.head.root then Ok(()) else Err(ForkedRoot(a.head.treeSize))
    else
      var (small, large) := if a.head.treeSize < b.head.treeSize then (a.head, b.head) else (b.head, a.head);
      match proof
      case None => Err(Inconsistent(small.treeSize, large.treeSize))
      case Some(nodes) =>
        if Accepts(small.root, large.root, nodes, small.treeSize, large.treeSize) then Ok(())
        else Err(Inconsistent(small.treeSize, large.treeSize))
  }

  /** The proof that lets two logs be reconciled: none at equal sizes, the empty one from the
      empty log, otherwise the generated one. */
  ghost predicate ReconcilingProof(small: seq<Receipt>, large: seq<Receipt>, proof: Option<seq<Digest>>)
    requires |small| <= |large|
  {
    |small| == |large| || proof == Some(ProofNodes(|small|, LeafHashes(large)))
  }

  /** A head is refused exactly when one of the two signatures does not verify, whatever the heads
      and the proof say. */
  lemma SignaturesDecide(schemes: Schemes<TreeHead>, a: SignedTreeHead, b: SignedTreeHead, logKey: PublicKey,
                         proof: Option<seq<Digest>>)
    ensures ReconcileHeads(schemes, a, b, logKey, proof) == Err(InvalidSignedHead) <==>
            !(VerifySignature(schemes, a.head, a.signature, logKey) == Ok(true)
              && VerifySignature(schemes, b.head, b.signature, logKey) == Ok(true))
  {}

  /** For the heads of two real logs, in either order: where both signatures hold, it succeeds
      exactly when the smaller log is a prefix of the larger and the genuine proof comes with
      it, a forked root is reported exactly when two equally long logs differ, and every other
      case is reported as inconsistent. */
  lemma ReconcileExact(schemes: Schemes<TreeHead>, a: SignedTreeHead, b: SignedTreeHead, logKey: PublicKey,
                       proof: Option<seq<Digest>>, small: seq<Receipt>, large: seq<Receipt>)
    requires |small| <= |large|
    requires a.head == TreeHead(|small|, Mth(LeafHashes(small))) && b.head == TreeHead(|large|, Mth(LeafHashes(large)))
    ensures ReconcileHeads(schemes, b, a, logKey, proof) == ReconcileHeads(schemes, a, b, logKey, proof)
    ensures ReconcileHeads(schemes, a, b, logKey, proof) ==
            if !(VerifySignature(schemes, a.head, a.signature, logKey) == Ok(true)
                 && VerifySignature(schemes, b.head, b.signature, logKey) == Ok(true)) then Err(InvalidSignedHead)
            else if small == large[..|small|] && ReconcilingProof(small, large, proof) then Ok(())
            else if |small| == |large| then Err(ForkedRoot(|small|))
            else Err(Inconsistent(|small|, |large|))
  {
    var leaves, whole := LeafHashes(small), LeafHashes(large);
    if |small| == |large| {
      MthInjective(leaves, whole);
      LeafHashesPrefix(small, large);
      assert whole[..|small|] == whole && large[..|small|] == large;
    } else if |small| > 0 && proof.Some? {
      ConsistencyExact(Mth(leaves), proof.value, |small|, whole);
      MthInjective(leaves, whole[..|small|]);
      LeafHashesPrefix(small, large);
    } else {
      assert |small| == 0 ==> small == large[..0];
    }
  }
}
