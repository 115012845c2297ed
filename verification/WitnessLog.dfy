/** The append-only transparency log with its memo table, and the loops that check its proofs. */
module WitnessLog {
  import opened Wrappers
  import opened Digests
  import opened MerkleTree
  import opened Consistency
  import opened Inclusion
  import opened Signatures

  /** A vector of 32-byte digests may not exceed the largest allocation, 2^63 - 1 bytes. */
  const MAX_LEAVES: nat := 0x03FF_FFFF_FFFF_FFFF

  /** A word shifted left by one: the top bit is lost. */
  function ShiftLeft(k: nat): nat
    requires k < WORD
  {
    if 2 * k < WORD then 2 * k else 2 * k - WORD
  }

  /** Doubles `k` until one more doubling would reach `n`, in machine-word arithmetic. */
  method SplitPoint(n: nat) returns (k: nat)
    requires 2 <= n && 2 * n <= WORD
    ensures k == Split(n)
  {
    k := 1;
    while ShiftLeft(k) < n
      invariant IsPow2(k) && k < n
      decreases n - k
    {
      k := ShiftLeft(k);
    }
    SplitUnique(n, k);
  }

  /** The leaf hashes of one subtree. */
  function Range(hashes: seq<Digest>, start: nat, len: nat): (range: seq<Digest>)
    requires start + len <= |hashes|
    ensures |range| == len
  {
    hashes[start..start + len]
  }

  lemma RangeHalves(hashes: seq<Digest>, start: nat, len: nat, k: nat)
    requires start + len <= |hashes| && k <= len
    ensures Range(hashes, start, len)[..k] == Range(hashes, start, k)
    ensures Range(hashes, start, len)[k..] == Range(hashes, start + k, len - k)
  {}

  lemma {:induction false} RangeMth(hashes: seq<Digest>, start: nat, len: nat, k: nat)
    requires start + len <= |hashes| && 2 <= len && k == Split(len)
    ensures Mth(Range(hashes, start, len)) ==
            NodeHash(Mth(Range(hashes, start, k)), Mth(Range(hashes, start + k, len - k)))
  {
    RangeHalves(hashes, start, len, k);
  }

  lemma {:induction false} PathIntoLeft(hashes: seq<Digest>, start: nat, len: nat, k: nat, index: nat)
    requires start + len <= |hashes| && 2 <= len && k == Split(len) && index < k
    ensures AuditPath(Range(hashes, start, len), index) ==
            AuditPath(Range(hashes, start, k), index) + [PathStep(Mth(Range(hashes, start + k, len - k)), false)]
  {
    RangeHalves(hashes, start, len, k);
  }

  lemma {:induction false} PathIntoRight(hashes: seq<Digest>, start: nat, len: nat, k: nat, index: nat)
    requires start + len <= |hashes| && 2 <= len && k == Split(len) && k <= index < len
    ensures AuditPath(Range(hashes, start, len), index) ==
            AuditPath(Range(hashes, start + k, len - k), index - k) + [PathStep(Mth(Range(hashes, start, k)), true)]
  {
    RangeHalves(hashes, start, len, k);
  }

  lemma {:induction false} PushIntoLeft(out: seq<Digest>, hashes: seq<Digest>, start: nat, len: nat, k: nat, m: nat,
                                        b: bool)
    requires start + len <= |hashes| && 2 <= len && k == Split(len) && 0 < m <= k
    ensures out + Subproof(m, Range(hashes, start, len), b) ==
            out + Subproof(m, Range(hashes, start, k), b) + [Mth(Range(hashes, start + k, len - k))]
  {
    RangeHalves(hashes, start, len, k);
  }

  lemma {:induction false} PushIntoRight(out: seq<Digest>, hashes: seq<Digest>, start: nat, len: nat, k: nat, m: nat,
                                         b: bool)
    requires start + len <= |hashes| && 2 <= len && k == Split(len) && k < m < len
    ensures out + Subproof(m, Range(hashes, start, len), b) ==
            out + Subproof(m - k, Range(hashes, start + k, len - k), false) + [Mth(Range(hashes, start, k))]
  {
    RangeHalves(hashes, start, len, k);
  }

  /** What a log operator signs: a size and a root. JCS encodes the pair injectively. */
  datatype TreeHead = TreeHead(treeSize: nat, root: Digest)

  datatype SignedTreeHead = SignedTreeHead(head: TreeHead, signature: Signature)

  predicate VerifySignedHead(schemes: Schemes<TreeHead>, sth: SignedTreeHead, logKey: PublicKey) {
    VerifySignature(schemes, sth.head, sth.signature, logKey) == Ok(true)
  }

  /** The head of a log with these leaf hashes. */
  function HeadOf(hashes: seq<Digest>): TreeHead {
    TreeHead(|hashes|, Mth(hashes))
  }

  class Witness {
    var leafHashes: seq<Digest>
    var subtreeCache: map<(nat, nat), Digest>

    /** Every memoized root is the root of its leaf range. */
    ghost predicate Valid()
      reads this
    {
      && |leafHashes| <= MAX_LEAVES
      && forall key :: key in subtreeCache ==> CacheEntrySound(leafHashes, key, subtreeCache[key])
    }

    constructor ()
      ensures Valid() && leafHashes == [] && subtreeCache == map[]
    {
      leafHashes, subtreeCache := [], map[];
    }

    method Append(receipt: Receipt) returns (index: nat)
      requires Valid() && |leafHashes| < MAX_LEAVES
      modifies this`leafHashes
      ensures Valid()
      ensures leafHashes == old(leafHashes) + [HashReceipt(receipt)]
      ensures index == |old(leafHashes)|
    {
      index := |leafHashes|;
      leafHashes := leafHashes + [HashReceipt(receipt)];
      forall key | key in subtreeCache ensures CacheEntrySound(leafHashes, key, subtreeCache[key]) {
        CacheEntryGrows(old(leafHashes), key, subtreeCache[key], HashReceipt(receipt));
      }
    }

    /** The root of a leaf range, filling the memo table on the way. */
    method Subtree(start: nat, len: nat) returns (root: Digest)
      requires Valid() && start + len <= |leafHashes|
      modifies this`subtreeCache
      ensures Valid()
      ensures root == Mth(Range(leafHashes, start, len))
      decreases len
    {
      if len == 0 { return EmptyRoot(); }
      if len == 1 { return leafHashes[start]; }
      var perfect := IsPow2(len) && start % len == 0;
      if perfect && (start, len) in subtreeCache {
        return subtreeCache[(start, len)];
      }
      var k := SplitPoint(len);
      var left := Subtree(start, k);
      var right := Subtree(start + k, len - k);
      root := NodeHash(left, right);
      RangeMth(leafHashes, start, len, k);
      if perfect {
        subtreeCache := subtreeCache[(start, len) := root];
      }
    }

    method Root() returns (root: Digest)
      requires Valid()
      modifies this`subtreeCache
      ensures Valid()
      ensures root == Mth(leafHashes)
    {
      root := Subtree(0, |leafHashes|);
      assert Range(leafHashes, 0, |leafHashes|) == leafHashes;
    }

    method SubtreePath(start: nat, len: nat, index: nat) returns (path: seq<PathStep>)
      requires Valid() && start + len <= |leafHashes| && index < len
      modifies this`subtreeCache
      ensures Valid()
      ensures path == AuditPath(Range(leafHashes, start, len), index)
      decreases len
    {
      if len <= 1 { return []; }
      var k := SplitPoint(len);
      if index < k {
        path := SubtreePath(start, k, index);
        var sibling := Subtree(start + k, len - k);
        path := path + [PathStep(sibling, false)];
        PathIntoLeft(leafHashes, start, len, k, index);
      } else {
        path := SubtreePath(start + k, len - k, index - k);
        var sibling := Subtree(start, k);
        path := path + [PathStep(sibling, true)];
        PathIntoRight(leafHashes, start, len, k, index);
      }
    }

    /** Pushes SUBPROOF of a leaf range onto the nodes collected so far. */
    method PushSubproof(m: nat, start: nat, len: nat, b: bool, out: seq<Digest>) returns (nodes: seq<Digest>)
      requires Valid() && start + len <= |leafHashes| && 0 < m <= len
      modifies this`subtreeCache
      ensures Valid()
      ensures nodes == out + Subproof(m, Range(leafHashes, start, len), b)
      decreases len
    {
      nodes := out;
      if m == len {
        if !b {
          var root := Subtree(start, len);
          nodes := nodes + [root];
        }
        return;
      }
      var k := SplitPoint(len);
      if m <= k {
        nodes := PushSubproof(m, start, k, b, nodes);
        var root := Subtree(start + k, len - k);
        nodes := nodes + [root];
        PushIntoLeft(out, leafHashes, start, len, k, m, b);
      } else {
        nodes := PushSubproof(m - k, start + k, len - k, false, nodes);
        var root := Subtree(start, k);
        nodes := nodes + [root];
        PushIntoRight(out, leafHashes, start, len, k, m, b);
      }
    }

    method ProveInclusion(index: nat) returns (proof: Option<InclusionProof>)
      requires Valid()
      modifies this`subtreeCache
      ensures Valid()
      ensures proof ==
              if index < |leafHashes| then Some(InclusionProof(index, |leafHashes|, AuditPath(leafHashes, index)))
              else None
    {
      if index >= |leafHashes| { return None; }
      var path := SubtreePath(0, |leafHashes|, index);
      assert Range(leafHashes, 0, |leafHashes|) == leafHashes;
      proof := Some(InclusionProof(index, |leafHashes|, path));
    }

    /** Signs the current head; a signer that fails on it is outside the model. */
    method SignedHead(signer: Signer<TreeHead>) returns (sth: SignedTreeHead)
      requires Valid() && signer.sign(HeadOf(leafHashes)).Ok?
      modifies this`subtreeCache
      ensures Valid()
      ensures sth.head == HeadOf(leafHashes) && signer.sign(sth.head) == Ok(sth.signature)
    {
      var root := Root();
      var head := TreeHead(|leafHashes|, root);
      sth := SignedTreeHead(head, signer.sign(head).value);
    }

    method ProveConsistency(oldSize: nat, newSize: nat) returns (proof: Option<seq<Digest>>)
      requires Valid()
      modifies this`subtreeCache
      ensures Valid()
      ensures proof ==
              if newSize == |leafHashes| && oldSize <= newSize then Some(ProofNodes(oldSize, leafHashes)) else None
    {
      if newSize != |leafHashes| || oldSize > newSize { return None; }
      var nodes: seq<Digest> := [];
      if oldSize != 0 && oldSize != newSize {
        nodes := PushSubproof(oldSize, 0, newSize, true, nodes);
        assert Range(leafHashes, 0, |leafHashes|) == leafHashes;
      }
      assert nodes == ProofNodes(oldSize, leafHashes);
      proof := Some(nodes);
    }
  }

  ghost predicate CacheEntrySound(hashes: seq<Digest>, key: (nat, nat), root: Digest) {
    key.0 + key.1 <= |hashes| && root == Mth(Range(hashes, key.0, key.1))
  }

  /** Appending never invalidates a memoized root. */
  lemma CacheEntryGrows(hashes: seq<Digest>, key: (nat, nat), root: Digest, leaf: Digest)
    requires CacheEntrySound(hashes, key, root)
    ensures CacheEntrySound(hashes + [leaf], key, root)
  {
    assert Range(hashes + [leaf], key.0, key.1) == Range(hashes, key.0, key.1);
  }

  /** The bit-walk over the two sizes. */
  method VerifyConsistency(oldRoot: Digest, newRoot: Digest, proof: seq<Digest>, oldSize: nat, newSize: nat)
      returns (ok: bool)
    ensures ok == Accepts(oldRoot, newRoot, proof, oldSize, newSize)
  {
    if oldSize > newSize { return false; }
    if oldSize == newSize { return proof == [] && oldRoot == newRoot; }
    if oldSize == 0 { return proof == []; }

    var node: nat, last: nat := oldSize - 1, newSize - 1;
    while node % 2 == 1
      invariant node < last && Strip(node, last) == Strip(oldSize - 1, newSize - 1)
      decreases node
    {
      node, last := node / 2, last / 2;
    }

    var pos: nat, oldHash, newHash := 0, oldRoot, oldRoot;
    if node > 0 {
      if proof == [] { return false; }
      pos, oldHash, newHash := 1, proof[0], proof[0];
    }
    ghost var verdict := Climb(node, last, oldHash, newHash, proof, pos);
    assert Accepts(oldRoot, newRoot, proof, oldSize, newSize) <==> verdict == Some((oldRoot, newRoot));

    while node > 0
      invariant node <= last && pos <= |proof|
      invariant Climb(node, last, oldHash, newHash, proof, pos) == verdict
    {
      if node % 2 == 1 {
        if pos == |proof| { return false; }
        oldHash, newHash, pos := NodeHash(proof[pos], oldHash), NodeHash(proof[pos], newHash), pos + 1;
      } else if node < last {
        if pos == |proof| { return false; }
        newHash, pos := NodeHash(newHash, proof[pos]), pos + 1;
      }
      node, last := node / 2, last / 2;
    }

    while last > 0
      invariant pos <= |proof|
      invariant Climb(0, last, oldHash, newHash, proof, pos) == verdict
    {
      if pos == |proof| { return false; }
      newHash, pos := NodeHash(newHash, proof[pos]), pos + 1;
      last := last / 2;
    }

    ok := pos == |proof| && newHash == newRoot && oldHash == oldRoot;
  }

  method VerifyInclusion(receipt: Receipt, proof: InclusionProof, root: Digest) returns (ok: bool)
    ensures ok == AcceptsInclusion(receipt, proof, root)
  {
    if proof.leafIndex >= proof.treeSize || |proof.path| > MAX_PROOF_PATH { return false; }
    var acc := HashReceipt(receipt);
    for i := 0 to |proof.path|
      invariant acc == Fold(HashReceipt(receipt), proof.path[..i])
    {
      FoldSnoc(HashReceipt(receipt), proof.path[..i], proof.path[i]);
      assert proof.path[..i + 1] == proof.path[..i] + [proof.path[i]];
      acc := Step(acc, proof.path[i]);
    }
    assert proof.path[..|proof.path|] == proof.path;
    ok := acc == root;
  }
}
