/** Consistency proofs: the generator of section 2.1.2 of RFC 6962 splits from the top, the
    checker walks the bits of the two sizes from the bottom. */
module Consistency {
  import opened Wrappers
  import opened Digests
  import opened MerkleTree

  /** SUBPROOF(m, D, b) of section 2.1.2 of RFC 6962. */
  function Subproof(m: nat, hashes: seq<Digest>, b: bool): seq<Digest>
    requires 0 < m <= |hashes|
    decreases |hashes|, 1
  {
    if m == |hashes| then
      if b then [] else [Mth(hashes)]
    else SubproofAt(m, hashes, Split(|hashes|), b)
  }

  /** Into the half that holds the cut, and the root of the other half. */
  function SubproofAt(m: nat, hashes: seq<Digest>, k: nat, b: bool): seq<Digest>
    requires 0 < m <= |hashes| && 0 < k < |hashes|
    decreases |hashes|, 0
  {
    if m <= k then
      Subproof(m, hashes[..k], b) + [Mth(hashes[k..])]
    else
      Subproof(m - k, hashes[k..], false) + [Mth(hashes[..k])]
  }

  /** The nodes of the proof that the first `m` leaves are a prefix. */
  function ProofNodes(m: nat, hashes: seq<Digest>): seq<Digest>
    requires m <= |hashes|
  {
    if m == 0 || m == |hashes| then [] else Subproof(m, hashes, true)
  }

  /** The checker's climb from index `node` of a level whose last index is `last`, reading
      the proof from `pos`: what it makes of the old and the new running hash once both
      indices are 0 and every proof node is used; `None` when nodes run out or are left over. */
  function Climb(node: nat, last: nat, oldHash: Digest, newHash: Digest, proof: seq<Digest>,
                 pos: nat): Option<(Digest, Digest)>
    requires node <= last && pos <= |proof|
    decreases last, 1
  {
    if last == 0 then
      if pos == |proof| then Some((oldHash, newHash)) else None
    else ClimbStep(node, last, oldHash, newHash, proof, pos)
  }

  /** One step of the climb: a node of the proof joins from the left of an odd index, from the
      right of an even one, and not at all where the last node of a level is promoted. */
  function ClimbStep(node: nat, last: nat, oldHash: Digest, newHash: Digest, proof: seq<Digest>,
                     pos: nat): Option<(Digest, Digest)>
    requires node <= last && 0 < last && pos <= |proof|
    decreases last, 0
  {
    if node % 2 == 1 then
      if pos == |proof| then None
      else Climb(node / 2, last / 2, NodeHash(proof[pos], oldHash), NodeHash(proof[pos], newHash), proof, pos + 1)
    else if node < last then
      if pos == |proof| then None
      else Climb(node / 2, last / 2, oldHash, NodeHash(newHash, proof[pos]), proof, pos + 1)
    else
      Climb(node / 2, last / 2, oldHash, newHash, proof, pos)
  }

  /** Drops the common right edge: halves both indices while `node` is odd. */
  function Strip(node: nat, last: nat): (r: (nat, nat))
    requires node <= last
    ensures r.0 <= r.1 <= last && r.0 % 2 == 0 && (node < last ==> r.0 < r.1)
  {
    if node % 2 == 1 then Strip(node / 2, last / 2) else (node, last)
  }

  /** The verdict on the climb once the right edge is dropped. */
  predicate AcceptsFrom(oldRoot: Digest, newRoot: Digest, proof: seq<Digest>, node: nat, last: nat)
    requires node <= last
  {
    if node > 0 then
      proof != [] && Climb(node, last, proof[0], proof[0], proof, 1) == Some((oldRoot, newRoot))
    else
      Climb(node, last, oldRoot, oldRoot, proof, 0) == Some((oldRoot, newRoot))
  }

  /** The verdict of `verify_consistency`. */
  predicate Accepts(oldRoot: Digest, newRoot: Digest, proof: seq<Digest>, oldSize: nat, newSize: nat) {
    if oldSize > newSize then false
    else if oldSize == newSize then proof == [] && oldRoot == newRoot
    else if oldSize == 0 then proof == []
    else
      var (node, last) := Strip(oldSize - 1, newSize - 1);
      AcceptsFrom(oldRoot, newRoot, proof, node, last)
  }

  /** The sibling of one node of a level; a promoted node has none. */
  function Sibling(node: nat, nodes: seq<Digest>): seq<Digest>
    requires node < |nodes|
  {
    if node % 2 == 1 then [nodes[node - 1]]
    else if node + 1 < |nodes| then [nodes[node + 1]]
    else []
  }

  /** The siblings on the way up from index `node` of a level. */
  function Siblings(node: nat, nodes: seq<Digest>): seq<Digest>
    requires node < |nodes|
    decreases |nodes|, 1
  {
    if |nodes| == 1 then [] else SiblingsAbove(node, nodes)
  }

  /** The sibling of the node itself, then those of its parent. */
  function SiblingsAbove(node: nat, nodes: seq<Digest>): seq<Digest>
    requires node < |nodes| && 1 < |nodes|
    decreases |nodes|, 0
  {
    Sibling(node, nodes) + Siblings(node / 2, Level(nodes))
  }

  lemma LevelReplaceLast(nodes: seq<Digest>, node: nat, oldHash: Digest)
    requires node < |nodes|
    ensures Level(nodes[..node] + [oldHash]) ==
            Level(nodes)[..node / 2] + [if node % 2 == 1 then NodeHash(nodes[node - 1], oldHash) else oldHash]
  {
    var left := Level(nodes[..node] + [oldHash]);
    var right := Level(nodes)[..node / 2] + [if node % 2 == 1 then NodeHash(nodes[node - 1], oldHash) else oldHash];
    forall i | 0 <= i < |left| ensures left[i] == right[i] {
      if i < node / 2 { assert right[i] == Level(nodes)[i]; }
    }
  }

  lemma SiblingsStep(node: nat, nodes: seq<Digest>)
    requires node < |nodes|
    ensures Siblings(node, nodes) == Sibling(node, nodes) + Siblings(node / 2, Level(nodes))
  {
    if |nodes| > 1 { assert Siblings(node, nodes) == SiblingsAbove(node, nodes); }
  }

  /** Whether the proof, read from `pos`, holds the siblings of `node` and nothing else. */
  ghost predicate Feeds(proof: seq<Digest>, pos: nat, node: nat, nodes: seq<Digest>)
    requires node < |nodes| && pos <= |proof|
    decreases |nodes|
  {
    if |nodes| == 1 then pos == |proof|
    else if Sibling(node, nodes) == [] then Feeds(proof, pos, node / 2, Level(nodes))
    else pos < |proof| && proof[pos] == Sibling(node, nodes)[0] && Feeds(proof, pos + 1, node / 2, Level(nodes))
  }

  lemma {:induction false} FeedsSiblings(proof: seq<Digest>, pos: nat, node: nat, nodes: seq<Digest>)
    requires node < |nodes| && pos <= |proof|
    ensures Feeds(proof, pos, node, nodes) <==> proof[pos..] == Siblings(node, nodes)
    decreases |nodes|
  {
    if |nodes| > 1 {
      var here, above := Sibling(node, nodes), Siblings(node / 2, Level(nodes));
      assert Siblings(node, nodes) == here + above;
      if here == [] {
        FeedsSiblings(proof, pos, node / 2, Level(nodes));
        assert here + above == above;
      } else if pos < |proof| {
        FeedsSiblings(proof, pos + 1, node / 2, Level(nodes));
        assert here == [here[0]] && proof[pos..] == [proof[pos]] + proof[pos + 1..];
        if proof[pos..] == here + above {
          assert proof[pos..][0] == (here + above)[0];
          assert proof[pos..][1..] == (here + above)[1..];
        }
      }
    }
  }

  /** Whether, from this state, the climb reaches the tree's root exactly when it stands at
      the right node and is fed that node's siblings. */
  ghost predicate ReachesRoot(node: nat, oldHash: Digest, newHash: Digest, proof: seq<Digest>, pos: nat,
                              nodes: seq<Digest>)
    requires node < |nodes| && pos <= |proof|
  {
    var r := Climb(node, |nodes| - 1, oldHash, newHash, proof, pos);
    (r.Some? && r.value.1 == Mth(nodes)) <==> (newHash == nodes[node] && Feeds(proof, pos, node, nodes))
  }

  lemma {:induction false} ReachesFromRight(node: nat, half: nat, oldHash: Digest, newHash: Digest,
                                            proof: seq<Digest>, pos: nat, nodes: seq<Digest>)
    requires node == 2 * half + 1 && node < |nodes| && pos < |proof|
    requires ReachesRoot(half, NodeHash(proof[pos], oldHash), NodeHash(proof[pos], newHash), proof, pos + 1,
                         Level(nodes))
    ensures ReachesRoot(node, oldHash, newHash, proof, pos, nodes)
  {
    var up := Level(nodes);
    assert Climb(node, |nodes| - 1, oldHash, newHash, proof, pos) ==
           Climb(half, |up| - 1, NodeHash(proof[pos], oldHash), NodeHash(proof[pos], newHash), proof, pos + 1);
    assert up[half] == Parent(nodes, half) == NodeHash(nodes[node - 1], nodes[node]);
    assert Mth(up) == Mth(nodes) by { MthLevel(nodes); }
  }

  lemma {:induction false} ReachesFromLeft(node: nat, half: nat, oldHash: Digest, newHash: Digest, proof: seq<Digest>,
                                           pos: nat, nodes: seq<Digest>)
    requires node == 2 * half && node + 1 < |nodes| && pos < |proof|
    requires ReachesRoot(half, oldHash, NodeHash(newHash, proof[pos]), proof, pos + 1, Level(nodes))
    ensures ReachesRoot(node, oldHash, newHash, proof, pos, nodes)
  {
    MthLevel(nodes);
    assert (|nodes| - 1) / 2 == |Level(nodes)| - 1;
    assert Level(nodes)[half] == Parent(nodes, half) == NodeHash(nodes[node], nodes[node + 1]);
  }

  lemma {:induction false} ReachesPromoted(node: nat, half: nat, oldHash: Digest, newHash: Digest, proof: seq<Digest>,
                                           pos: nat, nodes: seq<Digest>)
    requires node == 2 * half && node + 1 == |nodes| && 1 < |nodes| && pos <= |proof|
    requires ReachesRoot(half, oldHash, newHash, proof, pos, Level(nodes))
    ensures ReachesRoot(node, oldHash, newHash, proof, pos, nodes)
  {
    MthLevel(nodes);
    assert (|nodes| - 1) / 2 == |Level(nodes)| - 1;
    assert Level(nodes)[half] == Parent(nodes, half) == nodes[node];
  }

  lemma {:induction false} ClimbExact(node: nat, oldHash: Digest, newHash: Digest, proof: seq<Digest>, pos: nat,
                                      nodes: seq<Digest>)
    requires node < |nodes| && pos <= |proof|
    ensures ReachesRoot(node, oldHash, newHash, proof, pos, nodes)
    decreases |nodes|
  {
    if |nodes| > 1 {
      var up, half := Level(nodes), node / 2;
      if node == 2 * half && node + 1 == |nodes| {
        ClimbExact(half, oldHash, newHash, proof, pos, up);
        ReachesPromoted(node, half, oldHash, newHash, proof, pos, nodes);
      } else if pos == |proof| {
        assert Climb(node, |nodes| - 1, oldHash, newHash, proof, pos) == None;
      } else if node == 2 * half {
        ClimbExact(half, oldHash, NodeHash(newHash, proof[pos]), proof, pos + 1, up);
        ReachesFromLeft(node, half, oldHash, newHash, proof, pos, nodes);
      } else {
        ClimbExact(half, NodeHash(proof[pos], oldHash), NodeHash(proof[pos], newHash), proof, pos + 1, up);
        ReachesFromRight(node, half, oldHash, newHash, proof, pos, nodes);
      }
    }
  }

  /** Whether the climb makes of the old hash the root of the tree cut after the node, with the
      old hash in the last place. */
  ghost predicate ReachesOldRoot(node: nat, oldHash: Digest, newHash: Digest, proof: seq<Digest>, pos: nat,
                                 nodes: seq<Digest>)
    requires node < |nodes| && pos <= |proof|
  {
    var r := Climb(node, |nodes| - 1, oldHash, newHash, proof, pos);
    r.Some? && r.value.0 == Mth(nodes[..node] + [oldHash])
  }

  /** Fed a node's siblings, it does. */
  lemma {:induction false} ClimbOldRoot(node: nat, oldHash: Digest, newHash: Digest, proof: seq<Digest>, pos: nat,
                                        nodes: seq<Digest>)
    requires node < |nodes| && pos <= |proof| && Feeds(proof, pos, node, nodes)
    ensures ReachesOldRoot(node, oldHash, newHash, proof, pos, nodes)
    decreases |nodes|
  {
    if |nodes| == 1 {
      assert nodes[..node] + [oldHash] == [oldHash];
    } else {
      var half := node / 2;
      if Sibling(node, nodes) == [] {
        ClimbOldRoot(half, oldHash, newHash, proof, pos, Level(nodes));
        OldRootRises(node, oldHash, newHash, oldHash, newHash, proof, pos, pos, nodes);
      } else if node % 2 == 1 {
        var upOld, upNew := NodeHash(proof[pos], oldHash), NodeHash(proof[pos], newHash);
        ClimbOldRoot(half, upOld, upNew, proof, pos + 1, Level(nodes));
        OldRootRises(node, oldHash, newHash, upOld, upNew, proof, pos, pos + 1, nodes);
      } else {
        ClimbOldRoot(half, oldHash, NodeHash(newHash, proof[pos]), proof, pos + 1, Level(nodes));
        OldRootRises(node, oldHash, newHash, oldHash, NodeHash(newHash, proof[pos]), proof, pos, pos + 1, nodes);
      }
    }
  }

  lemma {:induction false} OldRootRises(node: nat, oldHash: Digest, newHash: Digest, upOld: Digest, upNew: Digest,
                                        proof: seq<Digest>, pos: nat, upPos: nat, nodes: seq<Digest>)
    requires node < |nodes| && 1 < |nodes| && pos <= |proof| && upPos <= |proof|
    requires upOld == if node % 2 == 1 then NodeHash(nodes[node - 1], oldHash) else oldHash
    requires ClimbStep(node, |nodes| - 1, oldHash, newHash, proof, pos) ==
             Climb(node / 2, |Level(nodes)| - 1, upOld, upNew, proof, upPos)
    requires ReachesOldRoot(node / 2, upOld, upNew, proof, upPos, Level(nodes))
    ensures ReachesOldRoot(node, oldHash, newHash, proof, pos, nodes)
  {
    CutRises(nodes, node, oldHash);
  }

  /** The tree cut after `node` has the same root when cut one level up. */
  lemma {:induction false} CutRises(nodes: seq<Digest>, node: nat, oldHash: Digest)
    requires node < |nodes|
    ensures Mth(nodes[..node] + [oldHash]) ==
            Mth(Level(nodes)[..node / 2] + [if node % 2 == 1 then NodeHash(nodes[node - 1], oldHash) else oldHash])
  {
    MthLevel(nodes[..node] + [oldHash]);
    LevelReplaceLast(nodes, node, oldHash);
  }

  /** Bottom-up siblings of a left-side node: those of the left subtree, then the right root. */
  lemma {:induction false} SiblingsLeft(node: nat, left: seq<Digest>, right: seq<Digest>)
    requires node < |left| && 1 <= |right| && |left| == Split(|left| + |right|)
    ensures Siblings(node, left + right) == Siblings(node, left) + [Mth(right)]
    decreases |left|
  {
    var nodes := left + right;
    if |left| + |right| == 2 {
      assert Level(nodes) == [NodeHash(left[0], right[0])];
      assert Siblings(node, nodes) == [right[0]];
    } else {
      var j := SplitDouble(|left|, |right|);
      LevelConcat(left, right, j);
      SiblingsLeft(node / 2, Level(left), Level(right));
      MthLevel(right);
      SiblingsStep(node, nodes);
      SiblingsStep(node, left);
      var here, rest, top := Sibling(node, left), Siblings(node / 2, Level(left)), [Mth(right)];
      assert here == Sibling(node, nodes);
      assert here + (rest + top) == (here + rest) + top;
    }
  }

  lemma SiblingShift(at: nat, node: nat, left: seq<Digest>, right: seq<Digest>, j: nat)
    requires |left| == 2 * j && at == |left| + node && node < |right|
    ensures at / 2 == j + node / 2 && Sibling(at, left + right) == Sibling(node, right)
  {
    assert at % 2 == node % 2;
  }

  lemma SiblingsOfTwo(left: Digest, right: Digest)
    ensures Siblings(1, [left, right]) == [left]
  {
    assert Level([left, right]) == [NodeHash(left, right)];
    assert SiblingsAbove(1, [left, right]) == [left];
  }

  /** Bottom-up siblings of a right-side node: those of the right subtree, then the left root. */
  lemma {:induction false} SiblingsRight(at: nat, node: nat, left: seq<Digest>, right: seq<Digest>)
    requires at == |left| + node && node < |right| && 1 <= |left| && |left| == Split(|left| + |right|)
    ensures Siblings(at, left + right) == Siblings(node, right) + [Mth(left)]
    decreases |left|
  {
    if |left| + |right| == 2 {
      SiblingsOfTwo(left[0], right[0]);
      assert left + right == [left[0], right[0]];
    } else {
      var j := SplitDouble(|left|, |right|);
      SiblingShift(at, node, left, right, j);
      SiblingsRight(at / 2, node / 2, Level(left), Level(right));
      MthLevel(left);
      SiblingsRightUp(at, node, left, right, j, Mth(left));
    }
  }

  lemma {:induction false} SiblingsRightUp(at: nat, node: nat, left: seq<Digest>, right: seq<Digest>, j: nat,
                                           root: Digest)
    requires at == |left| + node && node < |right| && |left| == 2 * j && at / 2 == j + node / 2
    requires Sibling(at, left + right) == Sibling(node, right)
    requires Siblings(at / 2, Level(left) + Level(right)) == Siblings(node / 2, Level(right)) + [root]
    ensures Siblings(at, left + right) == Siblings(node, right) + [root]
  {
    var here, rest := Sibling(node, right), Siblings(node / 2, Level(right));
    LevelConcat(left, right, j);
    SiblingsStep(at, left + right);
    SiblingsStep(node, right);
    assert here + (rest + [root]) == (here + rest) + [root];
  }

  /** One unfolding of the generator, with the two halves given: into the left half ... */
  lemma {:induction false} SubproofLeft(m: nat, left: seq<Digest>, right: seq<Digest>, b: bool)
    requires 0 < m <= |left| && 1 <= |right| && |left| == Split(|left| + |right|)
    ensures Subproof(m, left + right, b) == Subproof(m, left, b) + [Mth(right)]
  {
    var whole, k := left + right, |left|;
    assert whole[..k] == left && whole[k..] == right;
    assert SubproofAt(m, whole, k, b) == Subproof(m, left, b) + [Mth(right)];
  }

  /** ... and into the right half. */
  lemma {:induction false} SubproofRight(m: nat, r: nat, left: seq<Digest>, right: seq<Digest>, b: bool)
    requires m == |left| + r && 0 < r < |right| && 1 <= |left| && |left| == Split(|left| + |right|)
    ensures Subproof(m, left + right, b) == Subproof(r, right, false) + [Mth(left)]
  {
    var whole, k := left + right, |left|;
    assert whole[..k] == left && whole[k..] == right;
    assert SubproofAt(m, whole, k, b) == Subproof(r, right, false) + [Mth(left)];
  }

  /** For an even old size the generator gives the same nodes one level up. */
  lemma {:induction false} SubproofLevel(h: nat, hashes: seq<Digest>, b: bool)
    requires 0 < 2 * h <= |hashes|
    ensures Subproof(2 * h, hashes, b) == Subproof(h, Level(hashes), b)
    decreases |hashes|, 1
  {
    if 2 * h == |hashes| {
      MthLevel(hashes);
    } else {
      var left, right := Halves(hashes);
      var j := SplitDouble(|left|, |right|);
      if h <= j {
        SubproofLevelLeft(h, left, right, j, b);
      } else {
        SubproofLevelRight(h, h - j, left, right, j, b);
      }
    }
  }

  lemma {:induction false} SubproofLevelLeft(h: nat, left: seq<Digest>, right: seq<Digest>, j: nat, b: bool)
    requires 0 < h <= j && |left| == 2 * j && 1 <= |right|
    requires |left| == Split(|left| + |right|) && j == Split(j + (|right| + 1) / 2)
    ensures Subproof(2 * h, left + right, b) == Subproof(h, Level(left + right), b)
    decreases |left| + |right|, 0
  {
    var upLeft, upRight := Level(left), Level(right);
    LevelConcat(left, right, j);
    assert Subproof(h, upLeft + upRight, b) == Subproof(h, upLeft, b) + [Mth(right)] by {
      MthLevel(right);
      SubproofLeft(h, upLeft, upRight, b);
    }
    assert Subproof(2 * h, left, b) == Subproof(h, upLeft, b) by { SubproofLevel(h, left, b); }
    SubproofLeft(2 * h, left, right, b);
  }

  lemma {:induction false} SubproofLevelRight(h: nat, r: nat, left: seq<Digest>, right: seq<Digest>, j: nat, b: bool)
    requires h == j + r && 0 < 2 * r < |right| && |left| == 2 * j && 1 <= j
    requires |left| == Split(|left| + |right|) && j == Split(j + (|right| + 1) / 2)
    ensures Subproof(2 * h, left + right, b) == Subproof(h, Level(left + right), b)
    decreases |left| + |right|, 0
  {
    var upLeft, upRight := Level(left), Level(right);
    LevelConcat(left, right, j);
    assert Subproof(h, upLeft + upRight, b) == Subproof(r, upRight, false) + [Mth(left)] by {
      MthLevel(left);
      SubproofRight(h, r, upLeft, upRight, b);
    }
    assert Subproof(2 * r, right, false) == Subproof(r, upRight, false) by { SubproofLevel(r, right, false); }
    SubproofRight(2 * h, 2 * r, left, right, b);
  }

  /** The first proof node when the old size has no right edge to drop: the root of the
      last perfect subtree of the old tree, unless that is the old root itself. */
  function Seed(m: nat, hashes: seq<Digest>, b: bool): seq<Digest>
    requires 0 < m <= |hashes|
  {
    if b && m == 1 then [] else [hashes[m - 1]]
  }

  /** For an odd `m` the generator gives the seed, unless it is the old root itself, and then
      the siblings in the order the checker consumes them. */
  lemma {:induction false} SubproofIsSiblings(m: nat, hashes: seq<Digest>, b: bool)
    requires m % 2 == 1 && (m < |hashes| || m == |hashes| == 1)
    ensures Subproof(m, hashes, b) == Seed(m, hashes, b) + Siblings(m - 1, hashes)
    decreases |hashes|
  {
    if |hashes| == 1 {
      SubproofIsSiblingsOne(hashes, b);
    } else {
      var left, right := Halves(hashes);
      if m <= |left| {
        OddFits(m, |left|, |right|);
        SubproofIsSiblings(m, left, b);
        SubproofIsSiblingsLeft(m, left, right, b);
      } else {
        var r := OddRest(m, |left|, |right|);
        SubproofIsSiblings(r, right, false);
        SubproofIsSiblingsRight(m, r, left, right, b);
      }
    }
  }

  lemma SubproofIsSiblingsOne(hashes: seq<Digest>, b: bool)
    requires |hashes| == 1
    ensures Subproof(1, hashes, b) == Seed(1, hashes, b) + Siblings(0, hashes)
  {}

  lemma OddRest(m: nat, left: nat, right: nat) returns (r: nat)
    requires 1 <= left < m < left + right && left == Split(left + right) && m % 2 == 1
    ensures m == left + r && r % 2 == 1
  {
    r := m - left;
    var j := SplitDouble(left, right);
  }

  lemma OddFits(m: nat, left: nat, right: nat)
    requires 1 <= m <= left && 1 <= right && left == Split(left + right) && m % 2 == 1
    ensures m < left || left == 1
  {
    if left > 1 { var j := SplitDouble(left, right); }
  }

  lemma {:induction false} SubproofIsSiblingsLeft(m: nat, left: seq<Digest>, right: seq<Digest>, b: bool)
    requires 0 < m <= |left| && 1 <= |right| && |left| == Split(|left| + |right|)
    requires Subproof(m, left, b) == Seed(m, left, b) + Siblings(m - 1, left)
    ensures Subproof(m, left + right, b) == Seed(m, left + right, b) + Siblings(m - 1, left + right)
  {
    SubproofLeft(m, left, right, b);
    SiblingsLeft(m - 1, left, right);
    SeedLeft(m, left, right, b);
    Glue(Subproof(m, left + right, b), Siblings(m - 1, left + right), Seed(m, left, b), Siblings(m - 1, left),
         [Mth(right)]);
  }

  lemma SeedLeft(m: nat, left: seq<Digest>, right: seq<Digest>, b: bool)
    requires 0 < m <= |left|
    ensures Seed(m, left + right, b) == Seed(m, left, b)
  {}

  lemma SeedRight(m: nat, r: nat, left: seq<Digest>, right: seq<Digest>, b: bool)
    requires m == |left| + r && 0 < r < |right| && 1 <= |left|
    ensures Seed(m, left + right, b) == Seed(r, right, false)
  {}

  lemma {:induction false} SubproofIsSiblingsRight(m: nat, r: nat, left: seq<Digest>, right: seq<Digest>, b: bool)
    requires m == |left| + r && 0 < r < |right| && 1 <= |left| && |left| == Split(|left| + |right|)
    requires Subproof(r, right, false) == Seed(r, right, false) + Siblings(r - 1, right)
    ensures Subproof(m, left + right, b) == Seed(m, left + right, b) + Siblings(m - 1, left + right)
  {
    SubproofRight(m, r, left, right, b);
    SiblingsRight(m - 1, r - 1, left, right);
    SeedRight(m, r, left, right, b);
    Glue(Subproof(m, left + right, b), Siblings(m - 1, left + right),
         Seed(r, right, false), Siblings(r - 1, right), [Mth(left)]);
  }

  lemma Glue(proof: seq<Digest>, siblings: seq<Digest>, seed: seq<Digest>, rest: seq<Digest>, top: seq<Digest>)
    requires siblings == rest + top && proof == (seed + rest) + top
    ensures proof == seed + siblings
  {}

  /** The verdict for an old size of 1, where the old root itself starts the climb. */
  lemma {:induction false} AcceptsExactOne(oldRoot: Digest, proof: seq<Digest>, hashes: seq<Digest>)
    requires 1 < |hashes|
    ensures AcceptsFrom(oldRoot, Mth(hashes), proof, 0, |hashes| - 1) <==>
            (oldRoot == Mth(hashes[..1]) && proof == Subproof(1, hashes, true))
  {
    var siblings := Siblings(0, hashes);
    assert Subproof(1, hashes, true) == siblings by {
      SubproofIsSiblings(1, hashes, true);
      assert [] + siblings == siblings;
    }
    assert Mth(hashes[..1]) == hashes[0];
    FeedsSiblings(proof, 0, 0, hashes);
    ClimbExact(0, oldRoot, oldRoot, proof, 0, hashes);
    if Feeds(proof, 0, 0, hashes) {
      ClimbOldRoot(0, oldRoot, oldRoot, proof, 0, hashes);
      assert hashes[..0] + [oldRoot] == [oldRoot] && Mth([oldRoot]) == oldRoot;
    }
  }

  lemma {:induction false} FedAfterSeed(proof: seq<Digest>, seed: Digest, node: nat, nodes: seq<Digest>)
    requires proof != [] && node < |nodes|
    ensures proof == [seed] + Siblings(node, nodes) <==> proof[0] == seed && Feeds(proof, 1, node, nodes)
  {
    var siblings := Siblings(node, nodes);
    FeedsSiblings(proof, 1, node, nodes);
    assert proof == [proof[0]] + proof[1..];
    if proof == [seed] + siblings {
      assert proof[0] == seed && proof[1..] == ([seed] + siblings)[1..] == siblings;
    }
  }

  /** The verdict for any other old size without a right edge to drop: a seed comes first. */
  lemma {:induction false} AcceptsExactOdd(oldRoot: Digest, proof: seq<Digest>, m: nat, hashes: seq<Digest>)
    requires 1 < m < |hashes| && m % 2 == 1
    ensures AcceptsFrom(oldRoot, Mth(hashes), proof, m - 1, |hashes| - 1) <==>
            (oldRoot == Mth(hashes[..m]) && proof == Subproof(m, hashes, true))
  {
    SubproofIsSiblings(m, hashes, true);
    if proof != [] {
      FedAfterSeed(proof, hashes[m - 1], m - 1, hashes);
      SeededClimb(proof, m, hashes);
    }
  }

  lemma {:induction false} SeededClimb(proof: seq<Digest>, m: nat, hashes: seq<Digest>)
    requires 1 < m < |hashes| && proof != []
    ensures var r := Climb(m - 1, |hashes| - 1, proof[0], proof[0], proof, 1);
            var fed := proof[0] == hashes[m - 1] && Feeds(proof, 1, m - 1, hashes);
            && (r.Some? && r.value.1 == Mth(hashes) ==> fed)
            && (fed ==> r == Some((Mth(hashes[..m]), Mth(hashes))))
  {
    ClimbExact(m - 1, proof[0], proof[0], proof, 1, hashes);
    if proof[0] == hashes[m - 1] && Feeds(proof, 1, m - 1, hashes) {
      ClimbOldRoot(m - 1, proof[0], proof[0], proof, 1, hashes);
      assert hashes[..m] == hashes[..m - 1] + [proof[0]];
    }
  }

  /** One dropped level of the right edge changes neither the roots nor the proof. */
  lemma {:induction false} StripEven(m: nat, h: nat, hashes: seq<Digest>)
    requires m == 2 * h && 0 < h && m < |hashes|
    ensures Strip(m - 1, |hashes| - 1) == Strip(h - 1, |Level(hashes)| - 1)
    ensures Mth(Level(hashes)) == Mth(hashes)
    ensures Mth(Level(hashes)[..h]) == Mth(hashes[..m])
    ensures Subproof(h, Level(hashes), true) == Subproof(m, hashes, true)
  {
    assert Strip(m - 1, |hashes| - 1) == Strip(h - 1, |Level(hashes)| - 1) by {
      assert (m - 1) / 2 == h - 1 && (|hashes| - 1) / 2 == |Level(hashes)| - 1;
    }
    MthLevel(hashes);
    assert Mth(Level(hashes)[..h]) == Mth(hashes[..m]) by {
      LevelPrefix(hashes, h);
      MthLevel(hashes[..m]);
    }
    SubproofLevel(h, hashes, true);
  }

  /** Whether the climb from `bottom` accepts exactly the prefix root and the generated proof. */
  ghost predicate VerdictExact(oldRoot: Digest, proof: seq<Digest>, m: nat, hashes: seq<Digest>, bottom: (nat, nat))
    requires 0 < m < |hashes| && bottom.0 <= bottom.1
  {
    AcceptsFrom(oldRoot, Mth(hashes), proof, bottom.0, bottom.1) <==>
    (oldRoot == Mth(hashes[..m]) && proof == Subproof(m, hashes, true))
  }

  lemma VerdictExactEven(oldRoot: Digest, proof: seq<Digest>, m: nat, h: nat, hashes: seq<Digest>, bottom: (nat, nat))
    requires m == 2 * h && 0 < h && m < |hashes| && bottom.0 <= bottom.1
    requires VerdictExact(oldRoot, proof, h, Level(hashes), bottom)
    ensures VerdictExact(oldRoot, proof, m, hashes, bottom)
  {
    StripEven(m, h, hashes);
  }

  /** The checker's verdict at every level of the dropped right edge. */
  lemma {:induction false} AcceptsExact(oldRoot: Digest, proof: seq<Digest>, m: nat, hashes: seq<Digest>,
                                        bottom: (nat, nat))
    requires 0 < m < |hashes| && bottom == Strip(m - 1, |hashes| - 1)
    ensures VerdictExact(oldRoot, proof, m, hashes, bottom)
    decreases m
  {
    if m == 1 {
      AcceptsExactOne(oldRoot, proof, hashes);
    } else if m % 2 == 1 {
      AcceptsExactOdd(oldRoot, proof, m, hashes);
    } else {
      var h := m / 2;
      assert bottom == Strip(h - 1, |Level(hashes)| - 1) by { StripEven(m, h, hashes); }
      AcceptsExact(oldRoot, proof, h, Level(hashes), bottom);
      VerdictExactEven(oldRoot, proof, m, h, hashes, bottom);
    }
  }

  /** MAIN RESULT. Against the root of a real log, and for every non-empty old size, the
      bit-walk accepts one old root and one proof only: the root of the log's own prefix
      and the proof the top-down generator emits for it. */
  lemma ConsistencyExact(oldRoot: Digest, proof: seq<Digest>, m: nat, hashes: seq<Digest>)
    requires 0 < m <= |hashes|
    ensures Accepts(oldRoot, Mth(hashes), proof, m, |hashes|) <==>
            (oldRoot == Mth(hashes[..m]) && proof == ProofNodes(m, hashes))
  {
    if m == |hashes| {
      assert hashes[..m] == hashes;
    } else {
      AcceptsExact(oldRoot, proof, m, hashes, Strip(m - 1, |hashes| - 1));
    }
  }

  /** Outside the theorem above, whatever the roots are: a larger old size is refused, equal sizes
      need equal roots and no nodes, and an old size of 0 needs no nodes only. */
  lemma EdgesExact(oldRoot: Digest, newRoot: Digest, proof: seq<Digest>, oldSize: nat, newSize: nat)
    ensures oldSize > newSize ==> !Accepts(oldRoot, newRoot, proof, oldSize, newSize)
    ensures oldSize == newSize ==>
              (Accepts(oldRoot, newRoot, proof, oldSize, newSize) <==> proof == [] && oldRoot == newRoot)
    ensures 0 == oldSize < newSize ==> (Accepts(oldRoot, newRoot, proof, oldSize, newSize) <==> proof == [])
  {}

  /** The proof of section 2.1.3 of RFC 6962 from 3 to 7 leaves: c, d, g and l. */
  lemma ProofOfThreeInSeven(a: Digest, b: Digest, c: Digest, d: Digest, e: Digest, f: Digest, j: Digest)
    ensures ProofNodes(3, [a, b, c, d, e, f, j]) == [c, d, NodeHash(a, b), NodeHash(NodeHash(e, f), j)]
  {
    var seven, four, three, two := [a, b, c, d, e, f, j], [a, b, c, d], [e, f, j], [c, d];
    assert seven[..4] == four && seven[4..] == three && four[..2] == [a, b] && four[2..] == two;
    assert three[..2] == [e, f] && three[2..] == [j] && two[..1] == [c] && two[1..] == [d];
    assert Split(7) == 4 && Split(4) == 2 && Split(3) == 2;
    PairRoot(a, b);
    PairRoot(e, f);
    assert Mth(three) == MthAt(three, 2) == NodeHash(NodeHash(e, f), j);
    assert Subproof(1, two, false) == SubproofAt(1, two, 1, false) == [c, d];
    assert Subproof(3, four, true) == SubproofAt(3, four, 2, true) == [c, d] + [NodeHash(a, b)];
    assert Subproof(3, seven, true) == SubproofAt(3, seven, 4, true) ==
           [c, d] + [NodeHash(a, b)] + [NodeHash(NodeHash(e, f), j)];
    assert ProofNodes(3, seven) == Subproof(3, seven, true);
  }

  lemma PairRoot(a: Digest, b: Digest)
    ensures Mth([a, b]) == NodeHash(a, b)
  {
    assert [a, b][..1] == [a] && [a, b][1..] == [b] && Mth([a]) == a && Mth([b]) == b;
    assert MthAt([a, b], 1) == NodeHash(a, b);
    assert Mth([a, b]) == MthAt([a, b], 1);
  }

  /** Completeness at every size, the empty prefix included. */
  lemma ConsistencyComplete(m: nat, hashes: seq<Digest>)
    requires m <= |hashes|
    ensures Accepts(Mth(hashes[..m]), Mth(hashes), ProofNodes(m, hashes), m, |hashes|)
  {
    if m > 0 {
      ConsistencyExact(Mth(hashes[..m]), ProofNodes(m, hashes), m, hashes);
    } else if |hashes| == 0 {
      assert hashes[..m] == hashes;
    }
  }

  /** Soundness: a log that proves consistency with an earlier non-empty log extends it. */
  lemma ConsistencySound(a: seq<Receipt>, b: seq<Receipt>, proof: seq<Digest>)
    requires 0 < |a| <= |b|
    requires Accepts(Mth(LeafHashes(a)), Mth(LeafHashes(b)), proof, |a|, |b|)
    ensures a == b[..|a|]
  {
    ConsistencyExact(Mth(LeafHashes(a)), proof, |a|, LeafHashes(b));
    MthInjective(LeafHashes(a), LeafHashes(b)[..|a|]);
    LeafHashesPrefix(a, b);
  }
}
