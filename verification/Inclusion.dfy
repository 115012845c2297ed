/** Audit paths of section 2.1.1 of RFC 6962 and the fold that checks them. */
module Inclusion {
  import opened Digests
  import opened MerkleTree

  datatype PathStep = PathStep(sibling: Digest, siblingIsLeft: bool)

  datatype InclusionProof = InclusionProof(leafIndex: nat, treeSize: nat, path: seq<PathStep>)

  /** Longest path the checker is willing to fold. */
  const MAX_PROOF_PATH: nat := 64

  /** The audit path of a leaf, from the leaf up. */
  function AuditPath(hashes: seq<Digest>, index: nat): seq<PathStep>
    requires index < |hashes|
    decreases |hashes|, 1
  {
    if |hashes| == 1 then [] else AuditPathAt(hashes, Split(|hashes|), index)
  }

  /** The path into the half that holds the leaf, then the root of the other half. */
  function AuditPathAt(hashes: seq<Digest>, k: nat, index: nat): seq<PathStep>
    requires index < |hashes| && 0 < k < |hashes|
    decreases |hashes|, 0
  {
    if index < k then
      AuditPath(hashes[..k], index) + [PathStep(Mth(hashes[k..]), false)]
    else
      AuditPath(hashes[k..], index - k) + [PathStep(Mth(hashes[..k]), true)]
  }

  function Step(acc: Digest, step: PathStep): Digest {
    if step.siblingIsLeft then NodeHash(step.sibling, acc) else NodeHash(acc, step.sibling)
  }

  function Fold(leaf: Digest, path: seq<PathStep>): Digest {
    if path == [] then leaf else Step(Fold(leaf, path[..|path| - 1]), path[|path| - 1])
  }

  /** The verdict of `verify_inclusion`. */
  predicate AcceptsInclusion(receipt: Receipt, proof: InclusionProof, root: Digest) {
    && proof.leafIndex < proof.treeSize
    && |proof.path| <= MAX_PROOF_PATH
    && Fold(HashReceipt(receipt), proof.path) == root
  }

  lemma FoldSnoc(leaf: Digest, path: seq<PathStep>, step: PathStep)
    ensures Fold(leaf, path + [step]) == Step(Fold(leaf, path), step)
  {
    assert (path + [step])[..|path|] == path;
  }

  lemma {:induction false} AuditPathFolds(hashes: seq<Digest>, index: nat)
    requires index < |hashes|
    ensures Fold(hashes[index], AuditPath(hashes, index)) == Mth(hashes)
    decreases |hashes|
  {
    if |hashes| > 1 {
      var k := Split(|hashes|);
      if index < k {
        AuditPathFolds(hashes[..k], index);
        FoldSnoc(hashes[index], AuditPath(hashes[..k], index), PathStep(Mth(hashes[k..]), false));
      } else {
        AuditPathFolds(hashes[k..], index - k);
        FoldSnoc(hashes[index], AuditPath(hashes[k..], index - k), PathStep(Mth(hashes[..k]), true));
      }
    }
  }

  /** A path is as long as the tree is deep. */
  lemma {:induction false} AuditPathShort(hashes: seq<Digest>, index: nat)
    requires index < |hashes|
    ensures |AuditPath(hashes, index)| <= CeilLog2(|hashes|)
    decreases |hashes|
  {
    if |hashes| > 1 {
      var k := Split(|hashes|);
      CeilLog2Split(|hashes|);
      if index < k {
        AuditPathShort(hashes[..k], index);
      } else {
        AuditPathShort(hashes[k..], index - k);
        CeilLog2Monotone(|hashes| - k, k);
      }
    }
  }

  /** A log whose size fits in a machine word is no deeper than the path bound. */
  lemma PathFits(n: nat)
    requires n <= WORD
    ensures CeilLog2(n) <= MAX_PROOF_PATH
  {
    Pow2Word();
    CeilLog2Bound(n, 64);
  }

  /** A leaf hash that folds to the root of a list of leaf hashes is one of them, reached by
      its genuine audit path. */
  lemma {:induction false} FoldExact(data: LeafData, path: seq<PathStep>, hashes: seq<Digest>)
      returns (index: nat)
    requires 1 <= |hashes| && forall i :: 0 <= i < |hashes| ==> hashes[i].LeafHash?
    requires Fold(LeafHash(data), path) == Mth(hashes)
    ensures index < |hashes| && hashes[index] == LeafHash(data) && path == AuditPath(hashes, index)
    decreases |hashes|
  {
    if |hashes| == 1 {
      index := 0;
    } else {
      var k, last := Split(|hashes|), path[|path| - 1];
      assert path == path[..|path| - 1] + [last];
      if last.siblingIsLeft {
        var rest := FoldExact(data, path[..|path| - 1], hashes[k..]);
        index := k + rest;
      } else {
        index := FoldExact(data, path[..|path| - 1], hashes[..k]);
      }
    }
  }

  /** MAIN RESULT. Against the root of any log whose size fits in a machine word, a proof is accepted
      exactly when it carries the genuine audit path of some leaf holding the receipt and its
      index is below its own tree size. Nothing ties that index to the path. */
  lemma InclusionExact(receipt: Receipt, proof: InclusionProof, log: seq<Receipt>)
    requires |log| <= WORD
    ensures AcceptsInclusion(receipt, proof, Mth(LeafHashes(log))) <==>
            && proof.leafIndex < proof.treeSize
            && exists i :: 0 <= i < |log| && log[i] == receipt && proof.path == AuditPath(LeafHashes(log), i)
  {
    var hashes := LeafHashes(log);
    assert Fold(HashReceipt(receipt), proof.path) != EmptyRoot();
    if AcceptsInclusion(receipt, proof, Mth(hashes)) {
      var i := FoldExact(ReceiptData(receipt), proof.path, hashes);
      assert HashReceipt(log[i]) == HashReceipt(receipt);
    }
    forall i | 0 <= i < |log| && log[i] == receipt && proof.path == AuditPath(hashes, i)
      ensures Fold(HashReceipt(receipt), proof.path) == Mth(hashes) && |proof.path| <= MAX_PROOF_PATH
    {
      AuditPathFolds(hashes, i);
      AuditPathShort(hashes, i);
      PathFits(|log|);
    }
  }

  /** Under any root whatever: a path of more than 64 steps is refused, as is an index that is not
      below the claimed size, and the fold joins each sibling from its own side. */
  lemma RefusedPaths(receipt: Receipt, proof: InclusionProof, root: Digest)
    ensures |proof.path| > 64 || proof.leafIndex >= proof.treeSize ==> !AcceptsInclusion(receipt, proof, root)
    ensures proof.path == [] && proof.leafIndex < proof.treeSize ==>
              (AcceptsInclusion(receipt, proof, root) <==> root == LeafHash(ReceiptData(receipt)))
  {}

  /** Omission is detectable: a receipt the log does not hold has no accepted proof. */
  lemma OmissionDetected(receipt: Receipt, proof: InclusionProof, log: seq<Receipt>)
    requires |log| <= WORD && receipt !in log
    ensures !AcceptsInclusion(receipt, proof, Mth(LeafHashes(log)))
  {
    InclusionExact(receipt, proof, log);
  }

  /** An accepted proof stays accepted under any other index and size with index below size:
      the accepted index is not evidence of the position in the log. */
  lemma LeafIndexUnbound(receipt: Receipt, proof: InclusionProof, root: Digest, index: nat, size: nat)
    requires AcceptsInclusion(receipt, proof, root)
    ensures AcceptsInclusion(receipt, proof.(leafIndex := index, treeSize := size), root) <==> index < size
  {}

  // Position

  /** Which way a path to this index turns at each step, from the leaf up: a sibling on the left
      wherever the leaf lies in the right half. */
  function SidesOf(index: nat, n: nat): (sides: seq<bool>)
    requires index < n
    decreases n
  {
    if n == 1 then []
    else if index < Split(n) then SidesOf(index, Split(n)) + [false]
    else SidesOf(index - Split(n), n - Split(n)) + [true]
  }

  function Sides(path: seq<PathStep>): (sides: seq<bool>)
    ensures |sides| == |path|
  {
    seq(|path|, i requires 0 <= i < |path| => path[i].siblingIsLeft)
  }

  lemma SidesSnoc(path: seq<PathStep>, step: PathStep)
    ensures Sides(path + [step]) == Sides(path) + [step.siblingIsLeft]
  {}

  /** The genuine path of a leaf turns as its index and the size dictate. */
  lemma {:induction false} AuditPathSides(hashes: seq<Digest>, index: nat)
    requires index < |hashes|
    ensures Sides(AuditPath(hashes, index)) == SidesOf(index, |hashes|)
    decreases |hashes|
  {
    if |hashes| > 1 {
      var k := Split(|hashes|);
      if index < k {
        AuditPathSides(hashes[..k], index);
        SidesSnoc(AuditPath(hashes[..k], index), PathStep(Mth(hashes[k..]), false));
      } else {
        AuditPathSides(hashes[k..], index - k);
        SidesSnoc(AuditPath(hashes[k..], index - k), PathStep(Mth(hashes[..k]), true));
      }
    }
  }

  /** No two indices of one size turn alike. */
  lemma {:induction false} SidesInjective(i: nat, j: nat, n: nat)
    requires i < n && j < n
    ensures SidesOf(i, n) == SidesOf(j, n) <==> i == j
    decreases n
  {
    if n > 1 && SidesOf(i, n) == SidesOf(j, n) {
      var k, sides := Split(n), SidesOf(i, n);
      var last := |sides| - 1;
      assert sides[last] == SidesOf(j, n)[last];
      if i < k {
        assert sides[..last] == SidesOf(i, k) && SidesOf(j, n)[..last] == SidesOf(j, k);
        SidesInjective(i, j, k);
      } else {
        assert sides[..last] == SidesOf(i - k, n - k) && SidesOf(j, n)[..last] == SidesOf(j - k, n - k);
        SidesInjective(i - k, j - k, n - k);
      }
    }
  }

  /** MAIN RESULT. An accepted index is the receipt's own exactly when the path turns the way that
      index and the size of the log dictate. The code leaves this comparison to its caller. */
  lemma LeafIndexExact(receipt: Receipt, proof: InclusionProof, log: seq<Receipt>)
    requires |log| <= WORD && proof.leafIndex < |log|
    requires AcceptsInclusion(receipt, proof, Mth(LeafHashes(log)))
    ensures Sides(proof.path) == SidesOf(proof.leafIndex, |log|) <==>
            proof.path == AuditPath(LeafHashes(log), proof.leafIndex)
    ensures Sides(proof.path) == SidesOf(proof.leafIndex, |log|) ==> log[proof.leafIndex] == receipt
  {
    var hashes := LeafHashes(log);
    InclusionExact(receipt, proof, log);
    var i :| 0 <= i < |log| && log[i] == receipt && proof.path == AuditPath(hashes, i);
    AuditPathSides(hashes, i);
    AuditPathSides(hashes, proof.leafIndex);
    SidesInjective(i, proof.leafIndex, |log|);
  }

  /** A log of two leaves, and the second one accepted under the index of the first. */
  lemma WrongIndexAccepted(first: Receipt, second: Receipt)
    requires first != second
    ensures var log := [first, second];
            var proof := InclusionProof(0, 2, AuditPath(LeafHashes(log), 1));
            && AcceptsInclusion(second, proof, Mth(LeafHashes(log))) && log[proof.leafIndex] != second
            && Sides(proof.path) != SidesOf(proof.leafIndex, |log|)
  {
    var log := [first, second];
    var proof := InclusionProof(0, 2, AuditPath(LeafHashes(log), 1));
    assert log[1] == second;
    InclusionExact(second, proof, log);
    AuditPathSides(LeafHashes(log), 1);
    SidesInjective(0, 1, 2);
  }
}
