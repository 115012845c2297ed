/** The sparse Merkle map as a mathematical object: the dense tree over every key of a given
    bit width, its siblings, and the fold that checks a path. */
module MapTree {
  import opened Digests

  /** Hash of the empty-leaf domain string. */
  function EmptyLeaf(): Digest {
    TaggedHash("indexone-revmap/empty-leaf/v1", [], [])
  }

  /** Leaf of a revoked key. */
  function KeyLeaf(bits: seq<bool>): Digest {
    LeafHash(KeyData(bits))
  }

  /** The dense reference tree: one leaf for every bit string of length `depth`, present or
      empty, and a node over every pair. No default is ever used. */
  ghost function Dense(revoked: set<seq<bool>>, prefix: seq<bool>, depth: nat): Digest
    requires |prefix| <= depth
    decreases depth - |prefix|
  {
    if |prefix| == depth then
      if prefix in revoked then KeyLeaf(prefix) else EmptyLeaf()
    else
      NodeHash(Dense(revoked, prefix + [false], depth), Dense(revoked, prefix + [true], depth))
  }

  /** The leaves and the sides: a key in the set is the leaf hash of the key, any other the empty
      leaf, and the keys that start with 0 are on the left. */
  lemma TreeOfTwo(revoked: set<seq<bool>>)
    ensures Dense(revoked, [], 1) ==
            NodeHash(if [false] in revoked then LeafHash(KeyData([false]))
                     else TaggedHash("indexone-revmap/empty-leaf/v1", [], []),
                     if [true] in revoked then LeafHash(KeyData([true]))
                     else TaggedHash("indexone-revmap/empty-leaf/v1", [], []))
  {
    assert [] + [false] == [false] && [] + [true] == [true];
  }

  /** Root of a fully empty subtree of the given height. */
  function Default(height: nat): Digest {
    if height == 0 then EmptyLeaf() else NodeHash(Default(height - 1), Default(height - 1))
  }

  lemma ShorterPrefix(prefix: seq<bool>, b: bool, bits: seq<bool>)
    ensures prefix + [b] <= bits ==> prefix <= bits
  {
    assert (prefix + [b])[..|prefix|] == prefix;
  }

  /** The trick that makes the sparse tree possible: a region without keys has the default root. */
  lemma {:induction false} DenseEmpty(revoked: set<seq<bool>>, prefix: seq<bool>, depth: nat)
    requires |prefix| <= depth
    requires forall bits :: bits in revoked && |bits| == depth ==> !(prefix <= bits)
    ensures Dense(revoked, prefix, depth) == Default(depth - |prefix|)
    decreases depth - |prefix|
  {
    if |prefix| < depth {
      forall bits | bits in revoked && |bits| == depth ensures !(prefix + [false] <= bits) &&
             !(prefix + [true] <= bits) {
        ShorterPrefix(prefix, false, bits);
        ShorterPrefix(prefix, true, bits);
      }
      DenseEmpty(revoked, prefix + [false], depth);
      DenseEmpty(revoked, prefix + [true], depth);
    }
  }

  /** Number of nodes on the left spine above the first non-node. */
  function Spine(d: Digest): nat {
    if d.NodeHash? then 1 + Spine(d.left) else 0
  }

  lemma {:induction false} SpineOfDense(revoked: set<seq<bool>>, prefix: seq<bool>, depth: nat)
    requires |prefix| <= depth
    ensures Spine(Dense(revoked, prefix, depth)) == depth - |prefix|
    decreases depth - |prefix|
  {
    if |prefix| < depth { SpineOfDense(revoked, prefix + [false], depth); }
  }

  lemma {:induction false} SpineOfDefault(height: nat)
    ensures Spine(Default(height)) == height
  {
    if height > 0 { SpineOfDefault(height - 1); }
  }

  /** The sibling of the path to `bits` at each depth. */
  ghost function SiblingAt(revoked: set<seq<bool>>, bits: seq<bool>, d: nat): Digest
    requires d < |bits|
  {
    Dense(revoked, bits[..d] + [!bits[d]], |bits|)
  }

  ghost function PathSiblings(revoked: set<seq<bool>>, bits: seq<bool>): (siblings: seq<Digest>)
    ensures |siblings| == |bits|
  {
    seq(|bits|, d requires 0 <= d < |bits| => SiblingAt(revoked, bits, d))
  }

  /** No sibling equals the default of its parent's height, so the comparison that decides
      what a proof leaves out never succeeds. */
  lemma SiblingNeverElided(revoked: set<seq<bool>>, bits: seq<bool>, d: nat)
    requires d < |bits|
    ensures SiblingAt(revoked, bits, d) != Default(|bits| - d)
  {
    SpineOfDense(revoked, bits[..d] + [!bits[d]], |bits|);
    SpineOfDefault(|bits| - d);
  }

  /** The root recomputed from a claimed leaf and a full list of siblings, from `depth` down. */
  function FoldKey(bits: seq<bool>, leaf: Digest, siblings: seq<Digest>, depth: nat): Digest
    requires |siblings| == |bits| && depth <= |bits|
    decreases |bits| - depth
  {
    if depth == |bits| then leaf
    else
      var below := FoldKey(bits, leaf, siblings, depth + 1);
      if bits[depth] then NodeHash(siblings[depth], below) else NodeHash(below, siblings[depth])
  }

  /** Two folds of one key agree only on equal leaves and equal siblings. */
  lemma {:induction false} FoldInjective(bits: seq<bool>, leaf0: Digest, siblings0: seq<Digest>,
                                         leaf1: Digest, siblings1: seq<Digest>, depth: nat)
    requires |siblings0| == |siblings1| == |bits| && depth <= |bits|
    ensures FoldKey(bits, leaf0, siblings0, depth) == FoldKey(bits, leaf1, siblings1, depth) <==>
            leaf0 == leaf1 && siblings0[depth..] == siblings1[depth..]
    decreases |bits| - depth
  {
    if depth < |bits| {
      FoldInjective(bits, leaf0, siblings0, leaf1, siblings1, depth + 1);
      assert siblings0[depth..] == [siblings0[depth]] + siblings0[depth + 1..];
      assert siblings1[depth..] == [siblings1[depth]] + siblings1[depth + 1..];
      if siblings0[depth..] == siblings1[depth..] {
        assert siblings0[depth..][0] == siblings1[depth..][0] && siblings0[depth..][1..] == siblings1[depth..][1..];
      }
    }
  }

  /** The leaf the dense tree holds for a key. */
  ghost function LeafFor(revoked: set<seq<bool>>, bits: seq<bool>): Digest {
    if bits in revoked then KeyLeaf(bits) else EmptyLeaf()
  }

  lemma {:induction false} DenseIsFold(revoked: set<seq<bool>>, bits: seq<bool>, depth: nat)
    requires depth <= |bits|
    ensures FoldKey(bits, LeafFor(revoked, bits), PathSiblings(revoked, bits), depth) ==
            Dense(revoked, bits[..depth], |bits|)
    decreases |bits| - depth
  {
    if depth == |bits| {
      assert bits[..depth] == bits;
    } else {
      DenseIsFold(revoked, bits, depth + 1);
      assert bits[..depth + 1] == bits[..depth] + [bits[depth]];
    }
  }

  /** Against the root of a real map, a path folds to the root exactly when it claims the leaf
      the map holds and carries the map's own siblings. */
  lemma FoldExact(revoked: set<seq<bool>>, bits: seq<bool>, leaf: Digest, siblings: seq<Digest>)
    requires |siblings| == |bits|
    ensures FoldKey(bits, leaf, siblings, 0) == Dense(revoked, [], |bits|) <==>
            leaf == LeafFor(revoked, bits) && siblings == PathSiblings(revoked, bits)
  {
    DenseIsFold(revoked, bits, 0);
    FoldInjective(bits, leaf, siblings, LeafFor(revoked, bits), PathSiblings(revoked, bits), 0);
    assert bits[..0] == [] && siblings[0..] == siblings;
    assert PathSiblings(revoked, bits)[0..] == PathSiblings(revoked, bits);
  }

  /** The root determines the revoked set. */
  lemma DenseInjective(a: set<seq<bool>>, b: set<seq<bool>>, depth: nat)
    requires forall bits :: bits in a + b ==> |bits| == depth
    ensures Dense(a, [], depth) == Dense(b, [], depth) <==> a == b
  {
    if Dense(a, [], depth) == Dense(b, [], depth) {
      forall bits | bits in a + b ensures bits in a && bits in b {
        DenseIsFold(a, bits, 0);
        assert bits[..0] == [];
        FoldExact(b, bits, LeafFor(a, bits), PathSiblings(a, bits));
      }
    }
  }
}
